/**
 The validator of the tile-rearrangement qualifier: `valid_input` decides
 whether an image of size (W, H) can be cut into tiles of size (w, h) and
 reassembled by an ordering of tile indices. How tiles are numbered and
 which way the ordering maps them is not stated in the repository, and
 nothing here depends on it.
 */
module Qualifier {
  import opened Builtins

  /** A (width, height) pair, used for both the image and the tile. */
  datatype Size = Size(width: nat, height: nat)

  /**
   The Python exceptions of `valid_input` that this model represents. The
   OverflowError that `n_tiles = (W / w) * (H / h)` raises (qualifier.py
   line 14) for a quotient that rounds to 2^1024 or more is not among them.
   */
  datatype Exception =
    | ZeroDivisionError  // `%` by a zero tile dimension
    | ValueError         // `max` of an empty ordering

  /** What a call of `valid_input` does: return a boolean or raise. */
  datatype Outcome = Returned(accepted: bool) | Raised(exception: Exception)

  predicate PositiveTile(tile: Size)
  {
    tile.width > 0 && tile.height > 0
  }

  /** Both image dimensions are multiples of the tile dimensions. */
  predicate Divides(image: Size, tile: Size)
    requires PositiveTile(tile)
  {
    image.width % tile.width == 0 && image.height % tile.height == 0
  }

  /** Number of tiles in the grid: columns times rows. */
  function TileCount(image: Size, tile: Size): nat
    requires PositiveTile(tile)
  {
    (image.width / tile.width) * (image.height / tile.height)
  }

  /** When the tile divides the image, the grid's tiles have exactly the image's area. */
  lemma TileCountCoversImage(image: Size, tile: Size)
    requires PositiveTile(tile) && Divides(image, tile)
    ensures TileCount(image, tile) * (tile.width * tile.height) == image.width * image.height
  {
    var columns, rows := image.width / tile.width, image.height / tile.height;
    assert image.width == columns * tile.width && image.height == rows * tile.height;
    assert columns * rows * (tile.width * tile.height)
           == (columns * tile.width) * (rows * tile.height);
  }

  /**
   `valid_input(image_size, tile_size, ordering)`, with the checks in the
   order `valid_input` performs them: divisibility first (returning False
   early), then the duplicate test, then `max`, then `min`, with Python's
   short-circuiting `or`.
   */
  function ValidInput(image: Size, tile: Size, ordering: seq<int>): (r: Outcome)
    ensures r == Returned(true) ==>
              PositiveTile(tile) && TileCount(image, tile) >= 1
              && 0 in ordering && TileCount(image, tile) - 1 in ordering
              && forall k :: 0 <= k < |ordering| ==> 0 <= ordering[k] < TileCount(image, tile)
  {
    if !PositiveTile(tile) then Raised(ZeroDivisionError)
    else if !Divides(image, tile) then Returned(false)
    else
      var n := TileCount(image, tile);
      if |Elements(ordering)| != |ordering| then Returned(false)
      else if |ordering| == 0 then Raised(ValueError)
      else Returned(Max(ordering) == n - 1 && Min(ordering) == 0)
  }

  /** Independent statement of what an accepted input is. */
  ghost predicate Acceptable(image: Size, tile: Size, ordering: seq<int>)
    requires PositiveTile(tile)
  {
    && Divides(image, tile)
    && Distinct(ordering)
    && 0 in ordering
    && TileCount(image, tile) - 1 in ordering
    && forall k :: 0 <= k < |ordering| ==> 0 <= ordering[k] < TileCount(image, tile)
  }

  /** The ordering uses each of the n tiles exactly once: it has n entries and names every tile. */
  ghost predicate IsTilePermutation(ordering: seq<int>, n: nat)
  {
    |ordering| == n && forall k :: 0 <= k < n ==> k in ordering
  }

  // ---------------------------------------------------------------------------
  // When valid_input raises

  /** A zero tile dimension raises ZeroDivisionError, whatever the other arguments. */
  lemma ZeroTileRaises(image: Size, tile: Size, ordering: seq<int>)
    requires tile.width == 0 || tile.height == 0
    ensures ValidInput(image, tile, ordering) == Raised(ZeroDivisionError)
  {
  }

  /** With a positive tile, it raises exactly for an empty ordering that gets past the divisibility test. */
  lemma RaisesIff(image: Size, tile: Size, ordering: seq<int>)
    requires PositiveTile(tile)
    ensures ValidInput(image, tile, ordering).Raised?
            <==> Divides(image, tile) && ordering == []
    ensures ValidInput(image, tile, ordering).Raised? ==>
              ValidInput(image, tile, ordering) == Raised(ValueError)
  {
  }

  // ---------------------------------------------------------------------------
  // When valid_input returns False

  /** A remainder in either dimension rejects, for every ordering, the empty one included. */
  lemma NotDividingRejects(image: Size, tile: Size, ordering: seq<int>)
    requires PositiveTile(tile)
    requires image.width % tile.width != 0 || image.height % tile.height != 0
    ensures ValidInput(image, tile, ordering) == Returned(false)
  {
  }

  /** A repeated value in the ordering rejects. */
  lemma {:induction false} DuplicateRejects(image: Size, tile: Size, ordering: seq<int>, i: nat, j: nat)
    requires PositiveTile(tile)
    requires i < j < |ordering| && ordering[i] == ordering[j]
    ensures ValidInput(image, tile, ordering) == Returned(false)
  {
    DistinctIffNoCollapse(ordering);
  }

  /** Over a divisible grid, a minimum other than 0 or a maximum other than n-1 rejects. */
  lemma BoundsReject(image: Size, tile: Size, ordering: seq<int>)
    requires PositiveTile(tile) && Divides(image, tile)
    requires |ordering| > 0
    requires Min(ordering) != 0 || Max(ordering) != TileCount(image, tile) - 1
    ensures ValidInput(image, tile, ordering) == Returned(false)
  {
  }

  // ---------------------------------------------------------------------------
  // When valid_input returns True

  /** Returning True means exactly: divisible, distinct, 0 and n-1 present, all values in [0, n). */
  lemma {:induction false} AcceptedIff(image: Size, tile: Size, ordering: seq<int>)
    requires PositiveTile(tile)
    ensures ValidInput(image, tile, ordering) == Returned(true)
            <==> Acceptable(image, tile, ordering)
  {
    DistinctIffNoCollapse(ordering);
    if Acceptable(image, tile, ordering) {
      var n := TileCount(image, tile);
      var mx, mn := Max(ordering), Min(ordering);
      var i :| 0 <= i < |ordering| && ordering[i] == n - 1;
      var j :| 0 <= j < |ordering| && ordering[j] == 0;
      assert mx >= ordering[i] && mn <= ordering[j];
    }
  }

  /** An accepted ordering fits the grid: values in [0, n), no repeats, so at most n entries. */
  lemma {:induction false} AcceptedFitsGrid(image: Size, tile: Size, ordering: seq<int>)
    requires ValidInput(image, tile, ordering) == Returned(true)
    ensures PositiveTile(tile) && Divides(image, tile)
    ensures forall k :: 0 <= k < |ordering| ==> 0 <= ordering[k] < TileCount(image, tile)
    ensures Distinct(ordering)
    ensures |ordering| <= TileCount(image, tile)
  {
    var e := Elements(ordering);
    DistinctIffNoCollapse(ordering);
    assert e <= Below(TileCount(image, tile)) by {
      forall x | x in e ensures x in Below(TileCount(image, tile)) { }
    }
    SubsetOfBelow(e, TileCount(image, tile));
  }

  /** Completeness: over a divisible, non-empty grid every permutation of the tiles is accepted. */
  lemma {:induction false} PermutationAccepted(image: Size, tile: Size, ordering: seq<int>)
    requires PositiveTile(tile) && Divides(image, tile)
    requires TileCount(image, tile) >= 1
    requires IsTilePermutation(ordering, TileCount(image, tile))
    ensures ValidInput(image, tile, ordering) == Returned(true)
  {
    var n := TileCount(image, tile);
    PermutationUsesEachTileOnce(ordering, n);
    AcceptedIff(image, tile, ordering);
  }

  /** A permutation of n tiles names only tiles, and none twice. */
  lemma {:induction false} PermutationUsesEachTileOnce(ordering: seq<int>, n: nat)
    requires IsTilePermutation(ordering, n)
    ensures forall k :: 0 <= k < |ordering| ==> 0 <= ordering[k] < n
    ensures Distinct(ordering)
  {
    var e := Elements(ordering);
    BelowSize(n);
    if k :| 0 <= k < |ordering| && !(0 <= ordering[k] < n) {
      var v := ordering[k];
      assert Below(n) + {v} <= e by {
        forall y | y in Below(n) + {v} ensures y in e { }
      }
      SubsetOfElements(Below(n) + {v}, ordering);
      assert false;
    }
    assert e <= Below(n) by { forall y | y in e ensures y in Below(n) { } }
    assert Below(n) <= e by { forall y | y in Below(n) ensures y in e { } }
    assert |e| == |ordering| by { assert e == Below(n); }
    DistinctIffNoCollapse(ordering);
  }

  /**
   An accepted ordering uses each tile exactly once if and only if it has
   exactly n entries: the length is the one thing the code leaves unchecked.
   */
  lemma {:induction false} AcceptedIsPermutationIffFullLength(image: Size, tile: Size, ordering: seq<int>)
    requires ValidInput(image, tile, ordering) == Returned(true)
    ensures IsTilePermutation(ordering, TileCount(image, tile))
            <==> |ordering| == TileCount(image, tile)
  {
    var n := TileCount(image, tile);
    AcceptedFitsGrid(image, tile, ordering);
    if |ordering| == n {
      var e := Elements(ordering);
      DistinctIffNoCollapse(ordering);
      assert e <= Below(n) by { forall y | y in e ensures y in Below(n) { } }
      SubsetOfBelow(e, n);
      forall k | 0 <= k < n ensures k in ordering {
        assert k in Below(n);
      }
    }
  }

  /** A zero-area image has no tiles; its only permutation, the empty ordering, makes `max` raise. */
  lemma EmptyGridRaises(image: Size, tile: Size, ordering: seq<int>)
    requires PositiveTile(tile) && Divides(image, tile)
    requires TileCount(image, tile) == 0
    requires IsTilePermutation(ordering, 0)
    ensures ValidInput(image, tile, ordering) == Raised(ValueError)
  {
  }

  // ---------------------------------------------------------------------------
  // Concrete cases for a 256x256 image cut into 128x128 tiles (a 2x2 grid)

  /** The module-level script's input: min 1 and max 4 instead of 0 and 3, so False. */
  lemma ScriptExampleRejected()
    ensures ValidInput(Size(256, 256), Size(128, 128), [1, 2, 3, 4]) == Returned(false)
  {
  }

  /** A rotation of the four tiles is accepted. */
  lemma RotationAccepted()
    ensures ValidInput(Size(256, 256), Size(128, 128), [1, 2, 3, 0]) == Returned(true)
  {
    assert Elements([1, 2, 3, 0]) == {0, 1, 2, 3};
  }

  /** Repeated tiles are rejected. */
  lemma RepeatsRejected()
    ensures ValidInput(Size(256, 256), Size(128, 128), [0, 0, 1, 1]) == Returned(false)
  {
  }

  /**
   The ordering [0, 3] is accepted although tiles 1 and 2 are never used:
   the code does not enforce "each input tile exactly once".
   */
  lemma GapOrderingAccepted()
    ensures ValidInput(Size(256, 256), Size(128, 128), [0, 3]) == Returned(true)
    ensures !IsTilePermutation([0, 3], TileCount(Size(256, 256), Size(128, 128)))
  {
    assert Elements([0, 3]) == {0, 3};
  }

  // ---------------------------------------------------------------------------
  // The check the documentation describes

  /**
   `valid_input` with the length test it is missing: after the duplicate
   test, an ordering whose length is not the tile count is rejected. An
   empty ordering that passes that test belongs to a zero-area grid, whose
   only arrangement it is, and is accepted instead of reaching `max([])`.
   */
  function ValidInputStrict(image: Size, tile: Size, ordering: seq<int>): (r: Outcome)
    ensures r == Returned(true) ==>
              ValidInput(image, tile, ordering) in {Returned(true), Raised(ValueError)}
  {
    if !PositiveTile(tile) then Raised(ZeroDivisionError)
    else if !Divides(image, tile) then Returned(false)
    else
      var n := TileCount(image, tile);
      if |Elements(ordering)| != |ordering| || |ordering| != n then Returned(false)
      else if |ordering| == 0 then Returned(true)
      else Returned(Max(ordering) == n - 1 && Min(ordering) == 0)
  }

  /** The strict check accepts exactly the permutations of the tiles of a divisible grid. */
  lemma {:induction false} StrictAcceptsExactlyPermutations(image: Size, tile: Size, ordering: seq<int>)
    requires PositiveTile(tile)
    ensures ValidInputStrict(image, tile, ordering) == Returned(true)
            <==> Divides(image, tile) && IsTilePermutation(ordering, TileCount(image, tile))
  {
    var n := TileCount(image, tile);
    if ValidInputStrict(image, tile, ordering) == Returned(true) && ordering != [] {
      AcceptedIsPermutationIffFullLength(image, tile, ordering);
    }
    if Divides(image, tile) && n >= 1 && IsTilePermutation(ordering, n) {
      PermutationAccepted(image, tile, ordering);
    }
  }

  /** The strict check rejects the gapped ordering [0, 3] on the 2x2 grid. */
  lemma StrictRejectsGapOrdering()
    ensures ValidInputStrict(Size(256, 256), Size(128, 128), [0, 3]) == Returned(false)
  {
  }

  /**
   With a positive tile the strict check always returns a verdict; in
   particular the empty ordering of a zero-area grid is accepted.
   */
  lemma StrictNeverRaises(image: Size, tile: Size, ordering: seq<int>)
    requires PositiveTile(tile)
    ensures ValidInputStrict(image, tile, ordering).Returned?
    ensures Divides(image, tile) && TileCount(image, tile) == 0 ==>
              ValidInputStrict(image, tile, []) == Returned(true)
  {
  }

  /** A 0x0 image cut into 1x1 tiles: the empty ordering makes `valid_input` raise. */
  lemma ZeroAreaImageRaises()
    ensures ValidInput(Size(0, 0), Size(1, 1), []) == Raised(ValueError)
  {
  }
}
