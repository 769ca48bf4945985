/** Python's `sorted(set)` and boolean-mask selection of positions, used by several stages. */
module Sequences {

  predicate StrictlyIncreasing(s: seq<int>) {
    forall k, l :: 0 <= k < l < |s| ==> s[k] < s[l]
  }

  lemma {:induction false} SetHasMin(s: set<int>)
    requires s != {}
    ensures exists m :: m in s && forall x :: x in s ==> m <= x
    decreases |s|
  {
    if forall x :: x !in s {
      assert false;
    }
    var y :| y in s;
    var t := s - {y};
    assert s == t + {y};
    if t == {} {
      assert s == {y};
    } else {
      assert |t| == |s| - 1;
      SetHasMin(t);
      var m :| m in t && forall x :: x in t ==> m <= x;
      var least := if y < m then y else m;
      assert least in s;
      forall x | x in s ensures least <= x {
        if x != y {
          assert x in t;
        }
      }
    }
  }

  /** The least element of a non-empty finite set. */
  function SetMin(s: set<int>): (m: int)
    requires s != {}
    ensures m in s && forall x :: x in s ==> m <= x
  {
    SetHasMin(s);
    var m :| m in s && forall x :: x in s ==> m <= x;
    m
  }

  /** `sorted(s)`: the elements of `s` in strictly increasing order. */
  function SortedElements(s: set<int>): (r: seq<int>)
    ensures StrictlyIncreasing(r)
    ensures forall x :: x in r <==> x in s
    ensures |r| == |s|
    decreases |s|
  {
    if s == {} then []
    else
      var m := SetMin(s);
      [m] + SortedElements(s - {m})
  }

  /** The positions at which `keep` is true, in increasing order. */
  function TrueIndices(keep: seq<bool>): (idx: seq<nat>)
    ensures forall k :: 0 <= k < |idx| ==> idx[k] < |keep| && keep[idx[k]]
    ensures forall t :: 0 <= t < |keep| && keep[t] ==> t in idx
    ensures forall k, l :: 0 <= k < l < |idx| ==> idx[k] < idx[l]
  {
    if |keep| == 0 then []
    else
      var prefix := TrueIndices(keep[..|keep| - 1]);
      if keep[|keep| - 1] then prefix + [|keep| - 1] else prefix
  }
}
