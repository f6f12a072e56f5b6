/**
 The Python built-ins that the validator applies to a list of integers:
 `set(...)`, `len(...)`, `max(...)` and `min(...)`, together with the
 facts about them that the validator's properties rest on.
 */
module Builtins {

  /** `set(s)`: the values occurring in `s`. */
  function Elements(s: seq<int>): set<int>
  {
    set x | x in s
  }

  /** No value occurs twice in `s`. */
  ghost predicate Distinct(s: seq<int>)
  {
    forall i, j :: 0 <= i < j < |s| ==> s[i] != s[j]
  }

  /** The integers 0, 1, ..., n - 1 as a set. */
  ghost function Below(n: nat): (r: set<int>)
    ensures forall x :: x in r <==> 0 <= x < n
  {
    if n == 0 then {} else Below(n - 1) + {n - 1}
  }

  /** `max(s)`; Python raises ValueError on an empty list, hence the requires. */
  function Max(s: seq<int>): (r: int)
    requires |s| > 0
    ensures r in s
    ensures forall k :: 0 <= k < |s| ==> s[k] <= r
  {
    if |s| == 1 then s[0]
    else
      var m := Max(s[1..]);
      if s[0] >= m then s[0] else m
  }

  /** `min(s)`; Python raises ValueError on an empty list, hence the requires. */
  function Min(s: seq<int>): (r: int)
    requires |s| > 0
    ensures r in s
    ensures forall k :: 0 <= k < |s| ==> r <= s[k]
  {
    if |s| == 1 then s[0]
    else
      var m := Min(s[1..]);
      if s[0] <= m then s[0] else m
  }

  lemma ElementsCons(x: int, t: seq<int>)
    ensures Elements([x] + t) == {x} + Elements(t)
  {
  }

  /** A list has no more distinct values than entries. */
  lemma {:induction false} ElementsBound(s: seq<int>)
    ensures |Elements(s)| <= |s|
  {
    if s != [] {
      ElementsBound(s[1..]);
      assert s == [s[0]] + s[1..];
      ElementsCons(s[0], s[1..]);
    }
  }

  /** `len(set(s)) == len(s)` holds exactly when `s` has no repeated value. */
  lemma {:induction false} DistinctIffNoCollapse(s: seq<int>)
    ensures |Elements(s)| == |s| <==> Distinct(s)
  {
    if s != [] {
      var x, t := s[0], s[1..];
      assert s == [x] + t;
      ElementsCons(x, t);
      DistinctIffNoCollapse(t);
      if x in t {
        ElementsBound(t);
        assert {x} + Elements(t) == Elements(t);
        var j :| 0 <= j < |t| && t[j] == x;
        assert s[0] == s[j + 1];
      } else {
        assert |{x} + Elements(t)| == |Elements(t)| + 1;
        if Distinct(t) {
          forall i, j | 0 <= i < j < |s| ensures s[i] != s[j] {
            if i > 0 { assert s[i] == t[i - 1] && s[j] == t[j - 1]; }
            else { assert s[j] == t[j - 1]; }
          }
        } else {
          var i, j :| 0 <= i < j < |t| && t[i] == t[j];
          assert s[i + 1] == s[j + 1];
        }
      }
    }
  }

  lemma {:induction false} BelowSize(n: nat)
    ensures |Below(n)| == n
  {
    if n > 0 {
      BelowSize(n - 1);
      assert n - 1 !in Below(n - 1);
    }
  }

  lemma RemoveMember(a: set<int>, x: int)
    ensures x in a ==> |a - {x}| == |a| - 1
    ensures x !in a ==> a - {x} == a
  {
  }

  /** A set of values in [0, n) has at most n members, and has n only when it holds all of them. */
  lemma {:induction false} SubsetOfBelow(a: set<int>, n: nat)
    requires a <= Below(n)
    ensures |a| <= n
    ensures |a| == n ==> a == Below(n)
  {
    if n == 0 {
      assert a == {} by { assert {} <= a; }
    } else {
      var rest := a - {n - 1};
      assert rest <= Below(n - 1) by {
        forall y | y in rest ensures y in Below(n - 1) { }
      }
      SubsetOfBelow(rest, n - 1);
      RemoveMember(a, n - 1);
      if |a| == n {
        assert n - 1 in a;
        assert Below(n) <= a by {
          forall y | y in Below(n) ensures y in a {
            if y != n - 1 { assert y in Below(n - 1); }
          }
        }
      }
    }
  }

  /** A set drawn from the values of `s` has at most `|s|` members. */
  lemma {:induction false} SubsetOfElements(a: set<int>, s: seq<int>)
    requires a <= Elements(s)
    ensures |a| <= |s|
  {
    if s == [] {
      assert a == {} by { assert {} <= a; }
    } else {
      var x, t := s[0], s[1..];
      assert s == [x] + t;
      ElementsCons(x, t);
      var rest := a - {x};
      assert rest <= Elements(t) by {
        forall y | y in rest ensures y in Elements(t) { }
      }
      SubsetOfElements(rest, t);
      RemoveMember(a, x);
    }
  }
}
