/** Small facts about sequences used throughout the model: duplicate-freedom,
    element sets, node ranges, concatenation and cardinality. */
module Seqs {

  /** No value occurs twice in `s`. */
  predicate NoDup<T(==)>(s: seq<T>) {
    forall i, j :: 0 <= i < j < |s| ==> s[i] != s[j]
  }

  /** The set of values occurring in `s`. */
  function Elems<T>(s: seq<T>): set<T> {
    set x | x in s
  }

  /** The node identifiers 0..n-1. */
  function Range(n: nat): (r: set<nat>)
    ensures forall x: nat :: x in r <==> x < n
  {
    if n == 0 then {} else Range(n - 1) + {n - 1}
  }

  /** Every element of `s` is a node identifier below `n`. */
  predicate Bounded(s: seq<nat>, n: nat) {
    forall i :: 0 <= i < |s| ==> s[i] < n
  }

  /** `s` lists every node 0..n-1 exactly once. */
  predicate IsPermutation(s: seq<nat>, n: nat) {
    |s| == n && NoDup(s) && Bounded(s, n)
  }

  /** Flattens a sequence of blocks, keeping block order. */
  function Concat<T>(ss: seq<seq<T>>): seq<T> {
    if ss == [] then [] else ss[0] + Concat(ss[1..])
  }

  lemma {:induction false} RangeCard(n: nat)
    ensures |Range(n)| == n
  {
    if n > 0 {
      RangeCard(n - 1);
    }
  }

  lemma {:induction false} NoDupCard<T>(s: seq<T>)
    requires NoDup(s)
    ensures |Elems(s)| == |s|
  {
    if s != [] {
      NoDupCard(s[1..]);
      assert Elems(s) == {s[0]} + Elems(s[1..]);
      assert s[0] !in Elems(s[1..]);
    }
  }

  lemma SubsetCard<T>(a: set<T>, b: set<T>)
    requires a <= b
    ensures |a| <= |b|
  {
    assert b == a + (b - a);
  }

  /** Pigeonhole: a duplicate-free sequence of nodes below `n` has at most `n` entries. */
  lemma BoundedNoDupLength(s: seq<nat>, n: nat)
    requires NoDup(s) && Bounded(s, n)
    ensures |s| <= n
  {
    NoDupCard(s);
    RangeCard(n);
    SubsetCard(Elems(s), Range(n));
  }

  /** A duplicate-free sequence covering exactly the nodes below `n` is a permutation of them. */
  lemma CoveringIsPermutation(s: seq<nat>, n: nat)
    requires NoDup(s) && Elems(s) == Range(n)
    ensures IsPermutation(s, n)
  {
    NoDupCard(s);
    RangeCard(n);
    forall i | 0 <= i < |s| ensures s[i] < n {
      assert s[i] in Elems(s);
    }
  }

  lemma {:induction false} ConcatMember<T>(ss: seq<seq<T>>, x: T)
    ensures x in Concat(ss) <==> exists i :: 0 <= i < |ss| && x in ss[i]
  {
    if ss != [] {
      ConcatMember(ss[1..], x);
      if x in Concat(ss[1..]) {
        var i :| 0 <= i < |ss[1..]| && x in ss[1..][i];
        assert x in ss[i + 1];
      }
      if exists i :: 0 <= i < |ss| && x in ss[i] {
        var i :| 0 <= i < |ss| && x in ss[i];
        if i > 0 {
          assert x in ss[1..][i - 1];
        }
      }
    }
  }

  /** Blocks that are each duplicate-free and pairwise disjoint concatenate to a duplicate-free sequence. */
  lemma {:induction false} ConcatNoDup<T>(ss: seq<seq<T>>)
    requires forall i :: 0 <= i < |ss| ==> NoDup(ss[i])
    requires forall i, j :: 0 <= i < j < |ss| ==> Elems(ss[i]) !! Elems(ss[j])
    ensures NoDup(Concat(ss))
  {
    if ss != [] {
      ConcatNoDup(ss[1..]);
      var head, tail := ss[0], Concat(ss[1..]);
      forall x | x in head ensures x !in tail {
        ConcatMember(ss[1..], x);
        forall i | 0 <= i < |ss[1..]| ensures x !in ss[1..][i] {
          assert ss[1..][i] == ss[i + 1];
          assert x in Elems(ss[0]);
        }
      }
      var r := head + tail;
      forall i, j | 0 <= i < j < |r| ensures r[i] != r[j] {
        if j < |head| {
        } else if i >= |head| {
          assert r[i] == tail[i - |head|] && r[j] == tail[j - |head|];
        } else {
          assert r[i] in head && r[j] in tail;
        }
      }
    }
  }

  /** Position of the first occurrence of `x` in `s`. */
  function IndexOf<T(==)>(s: seq<T>, x: T): (i: nat)
    requires x in s
    ensures i < |s| && s[i] == x
    ensures forall k :: 0 <= k < i ==> s[k] != x
  {
    if s[0] == x then 0 else 1 + IndexOf(s[1..], x)
  }

  /** A position holding `x`, for any `x` the multiset of `s` contains. */
  lemma IndexIn<T>(s: seq<T>, x: T) returns (i: nat)
    requires x in multiset(s)
    ensures i < |s| && s[i] == x
  {
    i :| 0 <= i < |s| && s[i] == x;
  }

  lemma NoDupPrefix<T>(s: seq<T>, k: nat)
    requires NoDup(s) && k <= |s|
    ensures NoDup(s[..k])
  {
  }

  lemma ElemsSnoc<T>(s: seq<T>)
    requires s != []
    ensures Elems(s) == Elems(s[..|s| - 1]) + {s[|s| - 1]}
  {
    assert s == s[..|s| - 1] + [s[|s| - 1]];
  }

  /** `x` and `y` both occur in `s`, and `x` occurs first. */
  predicate Precedes<T(==)>(s: seq<T>, x: T, y: T) {
    x in s && y in s && IndexOf(s, x) < IndexOf(s, y)
  }

  /** Dropping a head that is neither value keeps their relative order. */
  lemma PrecedesCons<T>(s: seq<T>, x: T, y: T)
    requires s != [] && x != s[0] && y != s[0] && Precedes(s[1..], x, y)
    ensures Precedes(s, x, y)
  {
    IndexOfCons(s, x);
    IndexOfCons(s, y);
  }

  /** The head occurs before every other value of `s`. */
  lemma PrecedesHead<T>(s: seq<T>, y: T)
    requires s != [] && y in s && y != s[0]
    ensures Precedes(s, s[0], y)
  {
  }

  lemma IndexOfCons<T>(s: seq<T>, x: T)
    requires s != [] && x != s[0] && x in s[1..]
    ensures IndexOf(s, x) == IndexOf(s[1..], x) + 1
  {
  }

  /** A permutation of 0..n-1 contains every node below `n`. */
  lemma PermutationElems(s: seq<nat>, n: nat)
    requires IsPermutation(s, n)
    ensures Elems(s) == Range(n)
  {
    assert Elems(s) <= Range(n) by {
      forall x | x in Elems(s) ensures x < n {
        var i :| 0 <= i < |s| && s[i] == x;
      }
    }
    NoDupCard(s);
    RangeCard(n);
    var rest := Range(n) - Elems(s);
    assert Range(n) == Elems(s) + rest;
    assert |rest| == 0;
  }
}
