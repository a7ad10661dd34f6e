/** The canonical node ordering of the preprocessing loop: connected
    components, largest first, each walked breadth-first from its first
    maximum-degree node, the walks concatenated. */
module Connectivity {
  import opened Seqs
  import opened Graphs
  import opened Traversal
  import opened Wrappers

  /** `c` is the connected component of some node. */
  ghost predicate IsComponent(g: Graph, c: set<nat>)
    requires g.Valid()
  {
    exists v: nat :: v < g.N() && c == ComponentOf(g, v)
  }

  ghost predicate AllComponents(g: Graph, cs: seq<set<nat>>)
    requires g.Valid()
  {
    forall i :: 0 <= i < |cs| ==> IsComponent(g, cs[i])
  }

  predicate PairwiseDisjoint(cs: seq<set<nat>>) {
    forall i, j :: 0 <= i < j < |cs| ==> cs[i] !! cs[j]
  }

  /** All nodes of the components in `cs`. */
  function Union(cs: seq<set<nat>>): set<nat> {
    if cs == [] then {} else cs[0] + Union(cs[1..])
  }

  /** `nx.connected_components`: the nodes are scanned in order and each node
      not seen yet starts a new component, so components come out in the
      order of their first node. */
  function ComponentsFrom(g: Graph, v: nat, seen: set<nat>): (cs: seq<set<nat>>)
    requires g.Valid() && v <= g.N()
    decreases g.N() - v
  {
    if v == g.N() then []
    else if v in seen then ComponentsFrom(g, v + 1, seen)
    else [ComponentOf(g, v)] + ComponentsFrom(g, v + 1, seen + ComponentOf(g, v))
  }

  lemma NewComponent(g: Graph, v: nat, seen: set<nat>)
    requires g.Valid() && v < g.N() && v !in seen && Closed(g, seen)
    ensures IsComponent(g, ComponentOf(g, v))
    ensures ComponentOf(g, v) !! seen
    ensures Closed(g, seen + ComponentOf(g, v))
  {
    BfsClosed(g, v);
    ComponentAvoidsClosed(g, v, seen);
  }

  /** Each set is a connected component: the recursive form of
      `AllComponents` that the scan establishes one step at a time. */
  ghost predicate ComponentsAlong(g: Graph, cs: seq<set<nat>>)
    requires g.Valid()
  {
    cs == [] || (IsComponent(g, cs[0]) && ComponentsAlong(g, cs[1..]))
  }

  lemma {:induction false} ScanAlong(g: Graph, v: nat, seen: set<nat>)
    requires g.Valid() && v <= g.N() && Closed(g, seen)
    ensures ComponentsAlong(g, ComponentsFrom(g, v, seen))
    decreases g.N() - v
  {
    if v < g.N() {
      ScanStep(g, v, seen);
      if v in seen {
        ScanAlong(g, v + 1, seen);
      } else {
        NewComponent(g, v, seen);
        var c := ComponentOf(g, v);
        ScanAlong(g, v + 1, seen + c);
        ConsAlong(g, v, ComponentsFrom(g, v + 1, seen + c));
      }
    }
  }

  lemma ConsAlong(g: Graph, v: nat, rest: seq<set<nat>>)
    requires g.Valid() && v < g.N() && ComponentsAlong(g, rest)
    ensures ComponentsAlong(g, [ComponentOf(g, v)] + rest)
  {
    assert ([ComponentOf(g, v)] + rest)[1..] == rest;
    assert IsComponent(g, ComponentOf(g, v));
  }

  /** The recursive form implies the pointwise one. */
  lemma {:induction false} AlongIsAll(g: Graph, cs: seq<set<nat>>)
    requires g.Valid() && ComponentsAlong(g, cs)
    ensures AllComponents(g, cs)
  {
    if cs != [] {
      AlongIsAll(g, cs[1..]);
      forall i | 0 < i < |cs| ensures cs[i] == cs[1..][i - 1] { }
    }
  }

  /** Everything the scan from node `v` finds is a connected component. */
  lemma ScanFindsComponents(g: Graph, v: nat, seen: set<nat>)
    requires g.Valid() && v <= g.N() && Closed(g, seen)
    ensures AllComponents(g, ComponentsFrom(g, v, seen))
  {
    ScanAlong(g, v, seen);
    AlongIsAll(g, ComponentsFrom(g, v, seen));
  }

  /** The components the scan finds avoid the nodes seen before it starts. */
  lemma {:induction false} ScanAvoidsSeen(g: Graph, v: nat, seen: set<nat>)
    requires g.Valid() && v <= g.N() && Closed(g, seen)
    ensures Union(ComponentsFrom(g, v, seen)) !! seen
    decreases g.N() - v
  {
    if v < g.N() {
      ScanStep(g, v, seen);
      if v in seen {
        ScanAvoidsSeen(g, v + 1, seen);
      } else {
        NewComponent(g, v, seen);
        var c := ComponentOf(g, v);
        ScanAvoidsSeen(g, v + 1, seen + c);
        UnionCons(c, ComponentsFrom(g, v + 1, seen + c));
      }
    }
  }

  /** One step of the scan. */
  lemma ScanStep(g: Graph, v: nat, seen: set<nat>)
    requires g.Valid() && v < g.N()
    ensures v in seen ==> ComponentsFrom(g, v, seen) == ComponentsFrom(g, v + 1, seen)
    ensures v !in seen ==>
      ComponentsFrom(g, v, seen) == [ComponentOf(g, v)] + ComponentsFrom(g, v + 1, seen + ComponentOf(g, v))
  {
  }

  /** Each set is disjoint from all the sets after it: the recursive form of
      `PairwiseDisjoint` that the scan establishes one step at a time. */
  predicate DisjointFromLater(cs: seq<set<nat>>) {
    cs == [] || (cs[0] !! Union(cs[1..]) && DisjointFromLater(cs[1..]))
  }

  /** The components the scan finds are disjoint from each other. */
  lemma {:induction false} ScanFindsDisjoint(g: Graph, v: nat, seen: set<nat>)
    requires g.Valid() && v <= g.N() && Closed(g, seen)
    ensures DisjointFromLater(ComponentsFrom(g, v, seen))
    decreases g.N() - v
  {
    if v < g.N() {
      ScanStep(g, v, seen);
      if v in seen {
        ScanFindsDisjoint(g, v + 1, seen);
      } else {
        NewComponent(g, v, seen);
        var c := ComponentOf(g, v);
        ScanFindsDisjoint(g, v + 1, seen + c);
        ScanAvoidsSeen(g, v + 1, seen + c);
        ConsDisjoint(c, seen, ComponentsFrom(g, v + 1, seen + c));
      }
    }
  }

  lemma ConsDisjoint(c: set<nat>, seen: set<nat>, rest: seq<set<nat>>)
    requires DisjointFromLater(rest) && Union(rest) !! seen + c
    ensures DisjointFromLater([c] + rest)
  {
    assert ([c] + rest)[1..] == rest;
  }

  /** The recursive form implies the pairwise one. */
  lemma {:induction false} DisjointFromLaterIsPairwise(cs: seq<set<nat>>)
    requires DisjointFromLater(cs)
    ensures PairwiseDisjoint(cs)
  {
    if cs != [] {
      DisjointFromLaterIsPairwise(cs[1..]);
      forall i, j | 0 <= i < j < |cs| ensures cs[i] !! cs[j] {
        assert cs[j] == cs[1..][j - 1];
        if i == 0 {
          UnionMember(cs[1..], j - 1);
        } else {
          assert cs[i] == cs[1..][i - 1];
        }
      }
    }
  }

  /** Every node from `v` on is either seen already or in a component the scan finds. */
  lemma {:induction false} ScanCovers(g: Graph, v: nat, seen: set<nat>)
    requires g.Valid() && v <= g.N() && Closed(g, seen)
    ensures forall x :: v <= x < g.N() ==> x in seen || x in Union(ComponentsFrom(g, v, seen))
    decreases g.N() - v
  {
    if v < g.N() {
      if v in seen {
        ScanCovers(g, v + 1, seen);
      } else {
        NewComponent(g, v, seen);
        var c := ComponentOf(g, v);
        ScanCovers(g, v + 1, seen + c);
      }
    }
  }

  lemma UnionCons(c: set<nat>, rest: seq<set<nat>>)
    ensures Union([c] + rest) == c + Union(rest)
  {
    assert ([c] + rest)[1..] == rest;
  }

  lemma UnionMember(cs: seq<set<nat>>, i: nat)
    requires i < |cs|
    ensures cs[i] <= Union(cs)
  {
    if i > 0 {
      UnionMember(cs[1..], i - 1);
    }
  }

  lemma {:induction false} UnionWitness(cs: seq<set<nat>>, x: nat) returns (i: nat)
    requires x in Union(cs)
    ensures i < |cs| && x in cs[i]
  {
    if x in cs[0] {
      i := 0;
    } else {
      var j := UnionWitness(cs[1..], x);
      i := j + 1;
    }
  }

  /** The smallest node of a non-empty node set. */
  ghost function Least(c: set<nat>): (m: nat)
    requires c != {}
    ensures m in c && forall y :: y in c ==> m <= y
    decreases c
  {
    var x :| x in c;
    if c == {x} then x
    else
      var m := Least(c - {x});
      assert forall y :: y in c ==> y == x || y in c - {x};
      if x < m then x else m
  }

  /** Every set is non-empty and the sets come in increasing order of their
      smallest node: the order in which a scan over the node numbers meets
      them. */
  ghost predicate LeadersIncrease(cs: seq<set<nat>>) {
    && (forall i :: 0 <= i < |cs| ==> cs[i] != {})
    && (forall i, j :: 0 <= i < j < |cs| ==> Least(cs[i]) < Least(cs[j]))
  }

  /** The leaders of `cs` increase and are all at least `v`. */
  ghost predicate LeadersFrom(cs: seq<set<nat>>, v: nat) {
    LeadersIncrease(cs) && forall i :: 0 <= i < |cs| ==> v <= Least(cs[i])
  }

  /** Putting a set whose least node is `v` in front of sets whose least
      nodes exceed `v` keeps the leaders increasing. */
  lemma ConsLeaders(c: set<nat>, rest: seq<set<nat>>, v: nat)
    requires c != {} && Least(c) == v && LeadersFrom(rest, v + 1)
    ensures LeadersFrom([c] + rest, v)
  {
    var cs := [c] + rest;
    forall i | 0 < i < |cs| ensures cs[i] == rest[i - 1] { }
  }

  lemma LeadersFromBelow(cs: seq<set<nat>>, v: nat)
    requires LeadersFrom(cs, v + 1)
    ensures LeadersFrom(cs, v)
  {
  }

  /** A component the scan starts at node `v` has `v` as its least node. */
  lemma NewLeader(g: Graph, v: nat, seen: set<nat>)
    requires g.Valid() && v < g.N() && v !in seen && Closed(g, seen)
    requires forall x: nat :: x < v ==> x in seen
    ensures Least(ComponentOf(g, v)) == v
  {
    NewComponent(g, v, seen);
  }

  /** Once every node below `v` is seen, the scan from `v` meets components
      whose smallest nodes are at least `v`, in increasing order. */
  lemma {:induction false} ScanOrdered(g: Graph, v: nat, seen: set<nat>)
    requires g.Valid() && v <= g.N() && Closed(g, seen)
    requires forall x: nat :: x < v ==> x in seen
    ensures LeadersFrom(ComponentsFrom(g, v, seen), v)
    decreases g.N() - v
  {
    if v < g.N() {
      ScanStep(g, v, seen);
      if v in seen {
        ScanOrdered(g, v + 1, seen);
        LeadersFromBelow(ComponentsFrom(g, v + 1, seen), v);
      } else {
        NewComponent(g, v, seen);
        NewLeader(g, v, seen);
        var c := ComponentOf(g, v);
        ScanOrdered(g, v + 1, seen + c);
        ConsLeaders(c, ComponentsFrom(g, v + 1, seen + c), v);
      }
    }
  }

  /** The connected components of `g`, in discovery order: they partition the nodes and
      come in increasing order of their smallest node. */
  function Components(g: Graph): (cs: seq<set<nat>>)
    requires g.Valid()
    ensures AllComponents(g, cs)
    ensures PairwiseDisjoint(cs)
    ensures Union(cs) == Range(g.N())
    ensures LeadersIncrease(cs)
  {
    ScanPartitions(g);
    ScanOrdered(g, 0, {});
    ComponentsFrom(g, 0, {})
  }

  lemma ScanPartitions(g: Graph)
    requires g.Valid()
    ensures AllComponents(g, ComponentsFrom(g, 0, {}))
    ensures PairwiseDisjoint(ComponentsFrom(g, 0, {}))
    ensures Union(ComponentsFrom(g, 0, {})) == Range(g.N())
  {
    ScanFindsComponents(g, 0, {});
    ScanFindsDisjoint(g, 0, {});
    DisjointFromLaterIsPairwise(ComponentsFrom(g, 0, {}));
    ScanCovers(g, 0, {});
    var cs := ComponentsFrom(g, 0, {});
    forall x | x in Union(cs) ensures x < g.N() {
      var i := UnionWitness(cs, x);
      assert IsComponent(g, cs[i]);
      var v: nat :| v < g.N() && cs[i] == ComponentOf(g, v);
    }
  }

  /** Component sizes never increase along `cs`. */
  predicate NonIncreasing(cs: seq<set<nat>>) {
    forall i, j :: 0 <= i < j < |cs| ==> |cs[i]| >= |cs[j]|
  }

  /** The components of `cs` that have exactly `k` nodes, in their order in `cs`. */
  function OfSize(cs: seq<set<nat>>, k: nat): seq<set<nat>> {
    if cs == [] then []
    else (if |cs[0]| == k then [cs[0]] else []) + OfSize(cs[1..], k)
  }

  /** Inserts `c` in front of the first component that is not larger than it. */
  function InsertBySize(c: set<nat>, s: seq<set<nat>>): (r: seq<set<nat>>)
    ensures multiset(r) == multiset(s) + multiset{c}
    decreases |s|
  {
    if s == [] || |c| >= |s[0]| then [c] + s
    else
      assert s == [s[0]] + s[1..];
      [s[0]] + InsertBySize(c, s[1..])
  }

  lemma {:induction false} InsertKeepsOrder(c: set<nat>, s: seq<set<nat>>)
    requires NonIncreasing(s)
    ensures NonIncreasing(InsertBySize(c, s))
    decreases |s|
  {
    var r := InsertBySize(c, s);
    if s == [] || |c| >= |s[0]| {
      assert r == [c] + s;
      forall i, j | 0 <= i < j < |r| ensures |r[i]| >= |r[j]| {
        assert r[j] == s[j - 1];
        if i > 0 {
          assert r[i] == s[i - 1];
        } else if j > 1 {
          assert |s[0]| >= |s[j - 1]|;
        }
      }
    } else {
      InsertKeepsOrder(c, s[1..]);
      InsertBounded(c, s[1..], |s[0]|);
      var rest := InsertBySize(c, s[1..]);
      assert r == [s[0]] + rest;
      forall i, j | 0 <= i < j < |r| ensures |r[i]| >= |r[j]| {
        assert r[j] == rest[j - 1];
        if i > 0 {
          assert r[i] == rest[i - 1];
        }
      }
    }
  }

  /** Inserting keeps every size within a common bound. */
  lemma {:induction false} InsertBounded(c: set<nat>, s: seq<set<nat>>, b: nat)
    requires |c| <= b && forall i :: 0 <= i < |s| ==> |s[i]| <= b
    ensures forall i :: 0 <= i < |InsertBySize(c, s)| ==> |InsertBySize(c, s)[i]| <= b
    decreases |s|
  {
    if s != [] && |c| < |s[0]| {
      InsertBounded(c, s[1..], b);
    }
  }

  lemma OfSizeCons(x: set<nat>, s: seq<set<nat>>, k: nat)
    ensures OfSize([x] + s, k) == (if |x| == k then [x] else []) + OfSize(s, k)
  {
    assert ([x] + s)[1..] == s;
  }

  lemma {:induction false} InsertOfSize(c: set<nat>, s: seq<set<nat>>, k: nat)
    ensures OfSize(InsertBySize(c, s), k) == (if |c| == k then [c] else []) + OfSize(s, k)
    decreases |s|
  {
    if s == [] || |c| >= |s[0]| {
      OfSizeCons(c, s, k);
    } else {
      InsertOfSize(c, s[1..], k);
      var rest := InsertBySize(c, s[1..]);
      OfSizeCons(s[0], rest, k);
      OfSizeCons(s[0], s[1..], k);
      assert s == [s[0]] + s[1..];
    }
  }

  lemma {:induction false} InsertDisjoint(c: set<nat>, s: seq<set<nat>>)
    requires PairwiseDisjoint(s) && forall j :: 0 <= j < |s| ==> c !! s[j]
    ensures PairwiseDisjoint(InsertBySize(c, s))
    decreases |s|
  {
    var r := InsertBySize(c, s);
    if s == [] || |c| >= |s[0]| {
      assert r == [c] + s;
      forall i, j | 0 <= i < j < |r| ensures r[i] !! r[j] {
        assert r[j] == s[j - 1];
        if i > 0 {
          assert r[i] == s[i - 1];
        }
      }
    } else {
      InsertDisjoint(c, s[1..]);
      var rest := InsertBySize(c, s[1..]);
      assert r == [s[0]] + rest;
      forall i, j | 0 <= i < j < |r| ensures r[i] !! r[j] {
        assert r[j] == rest[j - 1];
        if i == 0 {
          assert r[j] in multiset(rest);
          assert r[j] == c || r[j] in s[1..];
        } else {
          assert r[i] == rest[i - 1];
        }
      }
    }
  }

  /** Python's `sorted(CGs, key=number_of_nodes, reverse=True)`: sorts into
      non-increasing size, keeping the components it was given. */
  function SortBySize(cs: seq<set<nat>>): (r: seq<set<nat>>)
    ensures multiset(r) == multiset(cs)
    ensures NonIncreasing(r)
  {
    if cs == [] then []
    else
      var rest := SortBySize(cs[1..]);
      assert cs == [cs[0]] + cs[1..];
      InsertKeepsOrder(cs[0], rest);
      InsertBySize(cs[0], rest)
  }

  /** The sort is stable: components of equal size keep their relative order. */
  lemma {:induction false} SortIsStable(cs: seq<set<nat>>, k: nat)
    ensures OfSize(SortBySize(cs), k) == OfSize(cs, k)
  {
    if cs != [] {
      SortIsStable(cs[1..], k);
      InsertOfSize(cs[0], SortBySize(cs[1..]), k);
      OfSizeCons(cs[0], cs[1..], k);
      assert cs == [cs[0]] + cs[1..];
    }
  }

  /** Sorting pairwise-disjoint components keeps them pairwise disjoint. */
  lemma {:induction false} SortKeepsDisjoint(cs: seq<set<nat>>)
    requires PairwiseDisjoint(cs)
    ensures PairwiseDisjoint(SortBySize(cs))
  {
    if cs != [] {
      var rest := SortBySize(cs[1..]);
      SortKeepsDisjoint(cs[1..]);
      forall j | 0 <= j < |rest| ensures cs[0] !! rest[j] {
        assert rest[j] in multiset(cs[1..]);
        var i :| 0 <= i < |cs[1..]| && cs[1..][i] == rest[j];
        assert cs[i + 1] == rest[j];
      }
      InsertDisjoint(cs[0], rest);
    }
  }

  /** The first node at or after `v`, in node order, whose degree is maximal
      among the nodes of `c` at or after `v`. */
  function FirstMaxDegree(g: Graph, c: set<nat>, v: nat): (r: Option<nat>)
    requires v <= g.N()
    ensures r.None? <==> forall u :: v <= u < g.N() ==> u !in c
    ensures r.Some? ==> v <= r.value < g.N() && r.value in c
    ensures r.Some? ==> forall u :: v <= u < g.N() && u in c ==> g.Degree(u) <= g.Degree(r.value)
    ensures r.Some? ==> forall u :: v <= u < r.value && u in c ==> g.Degree(u) < g.Degree(r.value)
    decreases g.N() - v
  {
    if v == g.N() then None
    else
      var rest := FirstMaxDegree(g, c, v + 1);
      if v !in c then rest
      else if rest.None? || g.Degree(v) >= g.Degree(rest.value) then Some(v)
      else rest
  }

  /** The breadth-first root of a component: `degree_sequence[0][0]`, the
      first node of maximum degree, since the degree sort is stable. */
  function Root(g: Graph, c: set<nat>): (r: nat)
    requires c != {} && c <= Range(g.N())
    ensures r in c
    ensures forall u :: u in c ==> g.Degree(u) <= g.Degree(r)
    ensures forall u :: u in c && u < r ==> g.Degree(u) < g.Degree(r)
  {
    var m := FirstMaxDegree(g, c, 0);
    assert m.Some? by {
      var x :| x in c;
      assert x < g.N();
    }
    m.value
  }
}
