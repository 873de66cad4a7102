/** Order-preserving selection and counting over finite sequences: the
    boolean-mask selection and mask-and-sum idioms of the two scripts. */
module Seqs {

  /** The elements of `s` that satisfy `p`, in their order in `s`
      (boolean-mask selection of rows). */
  function Filter<T>(s: seq<T>, p: T -> bool): (r: seq<T>)
    ensures |r| <= |s|
    ensures forall i :: 0 <= i < |r| ==> r[i] in s && p(r[i])
    ensures forall i :: 0 <= i < |s| && p(s[i]) ==> s[i] in r
  {
    if s == [] then []
    else Filter(s[..|s| - 1], p) + (if p(s[|s| - 1]) then [s[|s| - 1]] else [])
  }

  /** The indices `i` of `s` with `p(s[i])`, in increasing order. */
  function Positions<T>(s: seq<T>, p: T -> bool): (ix: seq<nat>)
    ensures |ix| <= |s|
    ensures forall k :: 0 <= k < |ix| ==> ix[k] < |s| && p(s[ix[k]])
    ensures forall k, l :: 0 <= k < l < |ix| ==> ix[k] < ix[l]
    ensures forall i :: 0 <= i < |s| && p(s[i]) ==> i in ix
  {
    if s == [] then []
    else Positions(s[..|s| - 1], p) + (if p(s[|s| - 1]) then [|s| - 1] else [])
  }

  /** Two sequences of equal length whose elements agree position by position
      on the selection conditions select the same positions. */
  lemma {:induction false} PositionsAgree<T, U>(s: seq<T>, p: T -> bool, t: seq<U>, q: U -> bool)
    requires |s| == |t|
    requires forall i :: 0 <= i < |s| ==> p(s[i]) == q(t[i])
    ensures Positions(s, p) == Positions(t, q)
  {
    if s != [] {
      PositionsAgree(s[..|s| - 1], p, t[..|t| - 1], q);
    }
  }

  /** `Filter` keeps exactly the elements at `Positions`, unchanged and in
      order: the k-th kept element is the element of `s` at the k-th index
      whose element satisfies `p`. */
  lemma {:induction false} FilterAtPositions<T>(s: seq<T>, p: T -> bool)
    ensures |Filter(s, p)| == |Positions(s, p)|
    ensures forall k :: 0 <= k < |Filter(s, p)| ==> Filter(s, p)[k] == s[Positions(s, p)[k]]
  {
    if s != [] {
      var init, last := s[..|s| - 1], s[|s| - 1];
      var f, ix := Filter(init, p), Positions(init, p);
      FilterAtPositions(init, p);
      var tailF: seq<T> := if p(last) then [last] else [];
      var tailIx: seq<nat> := if p(last) then [|s| - 1] else [];
      assert Filter(s, p) == f + tailF;
      assert Positions(s, p) == ix + tailIx;
      forall k | 0 <= k < |f + tailF|
        ensures (f + tailF)[k] == s[(ix + tailIx)[k]]
      {
        if k < |f| {
          assert ix[k] < |init|;
          assert init[ix[k]] == s[ix[k]];
        }
      }
    }
  }

  /** Filtering a sequence whose every element satisfies `p` changes nothing. */
  lemma {:induction false} FilterAllKept<T>(s: seq<T>, p: T -> bool)
    requires forall i :: 0 <= i < |s| ==> p(s[i])
    ensures Filter(s, p) == s
  {
    if s != [] {
      FilterAllKept(s[..|s| - 1], p);
      assert s[..|s| - 1] + [s[|s| - 1]] == s;
    }
  }

  /** Applying the same filter twice gives the same result as applying it once. */
  lemma FilterIdempotent<T>(s: seq<T>, p: T -> bool)
    ensures Filter(Filter(s, p), p) == Filter(s, p)
  {
    FilterAllKept(Filter(s, p), p);
  }

  /** Number of elements of `s` equal to `v`: its multiplicity in `s`. */
  function Count(s: seq<int>, v: int): nat
  {
    multiset(s)[v]
  }

  /** The sum of the mask `s == v`, element by element (how a data frame
      counts matching cells). */
  function MaskSum(s: seq<int>, v: int): nat
  {
    if s == [] then 0
    else MaskSum(s[..|s| - 1], v) + (if s[|s| - 1] == v then 1 else 0)
  }

  /** Summing the mask counts the occurrences. */
  lemma {:induction false} MaskSumIsCount(s: seq<int>, v: int)
    ensures MaskSum(s, v) == Count(s, v)
  {
    if s != [] {
      MaskSumIsCount(s[..|s| - 1], v);
      assert s == s[..|s| - 1] + [s[|s| - 1]];
    }
  }

  /** No value occurs more often than there are elements. */
  lemma {:induction false} CountBound(s: seq<int>, v: int)
    ensures Count(s, v) <= |s|
  {
    if s != [] {
      CountBound(s[..|s| - 1], v);
      assert s == s[..|s| - 1] + [s[|s| - 1]];
    }
  }

  /** Predicate: every element of `s` is 0 or 1. */
  predicate Binary(s: seq<int>)
  {
    forall i :: 0 <= i < |s| ==> s[i] == 0 || s[i] == 1
  }

  /** In a 0/1 sequence the 1s and the 0s together are all the elements. */
  lemma {:induction false} CountBinary(s: seq<int>)
    requires Binary(s)
    ensures Count(s, 1) + Count(s, 0) == |s|
  {
    if s != [] {
      CountBinary(s[..|s| - 1]);
      assert s == s[..|s| - 1] + [s[|s| - 1]];
    }
  }

  /** Sum of the elements of `s`. */
  function Sum(s: seq<int>): int
  {
    if s == [] then 0 else Sum(s[..|s| - 1]) + s[|s| - 1]
  }

  /** In a 0/1 sequence the sum is the number of 1s. */
  lemma {:induction false} SumBinary(s: seq<int>)
    requires Binary(s)
    ensures Sum(s) == Count(s, 1)
  {
    if s != [] {
      SumBinary(s[..|s| - 1]);
      assert s == s[..|s| - 1] + [s[|s| - 1]];
    }
  }

  /** Predicate: no element of `s` occurs twice. */
  predicate Distinct<T(==)>(s: seq<T>)
  {
    forall i, j :: 0 <= i < j < |s| ==> s[i] != s[j]
  }

  /** The (first) index of `x` in `s`. */
  function IndexOf<T(==)>(s: seq<T>, x: T): (i: nat)
    requires x in s
    ensures i < |s| && s[i] == x
  {
    if s[0] == x then 0 else 1 + IndexOf(s[1..], x)
  }
}
