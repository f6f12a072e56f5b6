# Tile-rearrangement qualifier: the input validator

The qualifier cuts an image of size (W, H) into a grid of tiles of size
(w, h) and rearranges them by an *ordering* of tile indices. The repository
does not say how tiles are numbered or which way the ordering maps them, and
nothing in this model depends on either. The only logic the repository
implements is the validator `valid_input`, which decides whether such a cut
and rearrangement is possible. This project models it and proves
what it accepts and what it rejects.

- `builtins.dfy`, module `Builtins`: the Python built-ins the validator uses on
  the ordering. These are `set(...)` (`Elements`), `max` (`Max`) and `min`
  (`Min`). The module also holds the counting facts the properties rest on:
  `len(set(s)) == len(s)` holds exactly when `s` has no repeats, and a set of
  values in [0, n) has at most n members.
- `qualifier.dfy`, module `Qualifier`: `ValidInput`, with the checks in the
  order `valid_input` performs them. It also holds:
  - `Acceptable`, an independent statement of an accepted input;
  - `IsTilePermutation`, "each tile used exactly once";
  - the lemmas connecting them;
  - the concrete cases;
  - `ValidInputStrict`, the validator the documentation describes.

The Python exceptions are explicit results, not preconditions. A zero tile
dimension makes `%` raise `ZeroDivisionError` (lines 8-9). An empty ordering
makes `max` raise `ValueError` (line 16), but only once the sizes divide: for
non-dividing sizes the function returns False at line 12 before reaching
`max`. A precondition "ordering is non-empty" would therefore exclude inputs
the code handles. `ValidInput` returns
`Returned(b)` or `Raised(ZeroDivisionError | ValueError)`. These are the
exceptions the model represents; the OverflowError that line 14 can raise is
listed under "Left out".

## Model

| member | source | states |
|---|---|---|
| `Builtins.Elements` | qualifier/qualifier.py:16 | `set(ordering)`, the values occurring in the list; a definition with no contract of its own (its size is related to the list by `DistinctIffNoCollapse`) |
| `Qualifier.PositiveTile` | qualifier/qualifier.py:8-9 | both tile dimensions are positive, the condition under which the `%` of lines 8-9 does not raise; a definition with no contract of its own |
| `Qualifier.Divides` | qualifier/qualifier.py:8-11 | both `x_divisive` and `y_divisive` are 0, the divisibility test of lines 8-11; a definition with no contract of its own |
| `Qualifier.TileCount` | qualifier/qualifier.py:14 | `n_tiles`, columns times rows with exact integer division; a definition with no contract of its own |
| `Qualifier.TileCountCoversImage` | qualifier/qualifier.py:8-14 | when the tile divides the image, n_tiles tiles have exactly the image's area |
| `Builtins.Max` | qualifier/qualifier.py:16 | `max(ordering)` is an element of the ordering and no element exceeds it |
| `Builtins.Min` | qualifier/qualifier.py:16 | `min(ordering)` is an element of the ordering and no element is below it |
| `Builtins.DistinctIffNoCollapse` | qualifier/qualifier.py:16 | `len(set(ordering)) == len(ordering)` holds if and only if no value occurs twice |
| `Qualifier.ValidInput` | qualifier/qualifier.py:1-19 | returning True implies: positive tile, at least one tile, 0 and n_tiles-1 both occur, and every value lies in [0, n_tiles) |
| `Qualifier.ZeroTileRaises` | qualifier/qualifier.py:8-9 | a zero tile width or height raises ZeroDivisionError, whatever the image and ordering |
| `Qualifier.RaisesIff` | qualifier/qualifier.py:8-16 | with a positive tile, the call raises if and only if the sizes divide and the ordering is empty, and then the exception is ValueError |
| `Qualifier.NotDividingRejects` | qualifier/qualifier.py:8-12 | a remainder in either dimension returns False for every ordering, the empty one included |
| `Qualifier.DuplicateRejects` | qualifier/qualifier.py:16 | an ordering with a repeated value returns False |
| `Qualifier.BoundsReject` | qualifier/qualifier.py:14-16 | over dividing sizes, a minimum other than 0 or a maximum other than n_tiles-1 returns False |
| `Qualifier.AcceptedIff` | qualifier/qualifier.py:8-19 | with a positive tile, True is returned if and only if the sizes divide, the values are distinct, 0 and n_tiles-1 occur, and all values lie in [0, n_tiles) |
| `Qualifier.AcceptedFitsGrid` | qualifier/qualifier.py:14-16 | an accepted ordering has distinct values in [0, n_tiles), so its length is at most n_tiles |
| `Qualifier.PermutationAccepted` | qualifier/qualifier.py:8-19 | completeness: over dividing sizes with at least one tile, every ordering that uses each tile exactly once is accepted |
| `Qualifier.PermutationUsesEachTileOnce` | qualifier/qualifier.py:5-6 | an ordering of length n naming every tile below n names nothing else and nothing twice |
| `Qualifier.AcceptedIsPermutationIffFullLength` | qualifier/qualifier.py:14-16 | an accepted ordering uses each tile exactly once if and only if its length is n_tiles |
| `Qualifier.EmptyGridRaises` | qualifier/qualifier.py:14-16 | for a zero-area image (no tiles), the one permutation, the empty ordering, raises ValueError instead of returning True |
| `Qualifier.ScriptExampleRejected` | qualifier/qualifier.py:36-39 | 256x256 image, 128x128 tiles, ordering [1, 2, 3, 4]: returns False (min 1, max 4, not 0 and 3) |
| `Qualifier.RotationAccepted` | qualifier/qualifier.py:8-19 | 256x256 image, 128x128 tiles, ordering [1, 2, 3, 0]: returns True |
| `Qualifier.RepeatsRejected` | qualifier/qualifier.py:16 | 256x256 image, 128x128 tiles, ordering [0, 0, 1, 1]: returns False |
| `Qualifier.GapOrderingAccepted` | qualifier/qualifier.py:16 | 256x256 image, 128x128 tiles, ordering [0, 3]: returns True although tiles 1 and 2 are unused, so it is not a permutation of the tiles |
| `Qualifier.ValidInputStrict` | qualifier/qualifier.py:5-6 | the documented check (with the length test) accepts only what `ValidInput` accepts, apart from the zero-area case where `ValidInput` raises |
| `Qualifier.StrictAcceptsExactlyPermutations` | qualifier/qualifier.py:5-6 | with a positive tile, the documented check returns True if and only if the sizes divide and the ordering uses each tile exactly once |
| `Qualifier.StrictNeverRaises` | qualifier/qualifier.py:2-3 | with a positive tile, the documented check always returns True or False, and accepts the empty ordering of a zero-area grid |
| `Qualifier.ZeroAreaImageRaises` | qualifier/qualifier.py:16 | 0x0 image, 1x1 tiles, empty ordering: `max([])` raises ValueError instead of a verdict |
| `Qualifier.StrictRejectsGapOrdering` | qualifier/qualifier.py:5-6 | the documented check returns False for the gapped ordering [0, 3] on the 2x2 grid |

## Left out

- `rearrange_tiles` (qualifier/qualifier.py:23-34): its body is `pass` (line 34), so there is no behaviour to model. Its docstring (lines 27-28) says it loads the image from `image_path`, splits it into tiles, rearranges them by `ordering` and saves the result under `out_path`.
- The module-level script (qualifier/qualifier.py:36-39) prints at load time. Only its inputs are kept, as `ScriptExampleRejected`.
- Floating point: line 14 computes `n_tiles` with `/`, a Python float, and line 16 compares integers with `n_tiles - 1`. The model uses exact integer division and exact subtraction. The two agree whenever n_tiles is at most 2^53 and both quotients W/w and H/h stay below 2^1024 once rounded to a float, that is, exact quotients below 2^1024 - 2^970. From there on, line 14's `/` raises OverflowError for every ordering, an exception the model does not represent. This matters even at n_tiles = 0: for image (2^1024 - 1, 0) or (2^1100, 0) and tile (1, 1) the source raises OverflowError, while `ValidInput` returns False for `[0]` and raises ValueError for `[]`. Grids with more than 2^53 tiles also diverge: for image (2^60, 1) and tile (1, 1), `n_tiles - 1` rounds back to 2^60, so the source rejects `[0, 2^60 - 1]`, which `ValidInput` accepts, and accepts `[0, 2^60]`, which `ValidInput` rejects.
- Negative sizes: Python accepts negative integers and its `%` floors. The model takes the image and tile sizes as natural numbers, so negative dimensions are not modelled.
- Non-integer list entries and malformed tuples: Python's dynamic typing is not modelled. The ordering is a sequence of integers and each size is a pair of naturals.

## Findings

| source | as written | input that shows it | evidently intended | confidence | as-written member | corrected member |
|---|---|---|---|---|---|---|
| qualifier/qualifier.py:16 | accepts any ordering with distinct values, minimum 0 and maximum n_tiles-1, never comparing its length with n_tiles | image (256, 256), tile (128, 128), ordering [0, 3]: returns True, yet tiles 1 and 2 are never used | the docstring (lines 5-6) requires each input tile to be used exactly once, that is, also `len(ordering) == n_tiles` | not executed | `Qualifier.GapOrderingAccepted` | `Qualifier.StrictAcceptsExactlyPermutations` |
| qualifier/qualifier.py:16 | with dividing sizes, an empty ordering passes the duplicate test and reaches `max([])`, which raises ValueError | image (0, 0), tile (1, 1), ordering []: raises instead of returning | the docstring (lines 2-3) promises a True/False answer; the empty ordering is the only arrangement of a zero-area grid, so True | not executed; low, a zero-area image may be a case the authors never considered | `Qualifier.ZeroAreaImageRaises` | `Qualifier.StrictNeverRaises` |
