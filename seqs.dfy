/** Sequence helpers shared by the loader and the calculator. */
module Seqs {

  /** The indices of `s`, in increasing order, at which `p` holds.
      This is the reference for "the items that pass a filter, in their original order". */
  function Positions<T>(s: seq<T>, p: T -> bool): (idx: seq<nat>)
    ensures |idx| <= |s|
    ensures forall k {:trigger idx[k]} :: 0 <= k < |idx| ==> idx[k] < |s| && p(s[idx[k]])
    ensures forall k1, k2 :: 0 <= k1 < k2 < |idx| ==> idx[k1] < idx[k2]
    ensures forall j {:trigger p(s[j])} :: 0 <= j < |s| && p(s[j]) ==> j in idx
  {
    if s == [] then []
    else
      var init := Positions(s[..|s| - 1], p);
      if p(s[|s| - 1]) then init + [|s| - 1] else init
  }

  /** Extending the scanned prefix by one element adds that element's index iff it passes. */
  lemma PositionsSnoc<T>(s: seq<T>, n: nat, p: T -> bool)
    requires n < |s|
    ensures Positions(s[..n + 1], p)
         == Positions(s[..n], p) + (if p(s[n]) then [n] else [])
  {
    assert s[..n + 1][..n] == s[..n];
  }

  /** Filters that agree element by element pick the same positions. */
  lemma {:induction false} PositionsAgree<S, T>(s: seq<S>, p: S -> bool, t: seq<T>, q: T -> bool)
    requires |s| == |t|
    requires forall j :: 0 <= j < |s| ==> p(s[j]) == q(t[j])
    ensures Positions(s, p) == Positions(t, q)
  {
    if s != [] {
      PositionsAgree(s[..|s| - 1], p, t[..|t| - 1], q);
    }
  }
}
