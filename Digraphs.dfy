/**
 * Directed multigraphs given as a multimap from a vertex to its ordered children,
 * and the notions every algorithm of the library is specified against:
 * walks, reachability, acyclicity and finish ranks.
 */
module Digraphs {

  /** Each key maps to its children in iteration order; a repeated child is a parallel edge.
      A key mapped to [] has no edges, as a multimap never stores a key without values. */
  type Digraph<T> = map<T, seq<T>>

  /** The children of `v`, or none when `v` is not a key (a multimap's `get`). */
  function Children<T(==,!new)>(g: Digraph<T>, v: T): seq<T>
  {
    if v in g then g[v] else []
  }

  predicate Edge<T(==,!new)>(g: Digraph<T>, u: T, v: T)
  {
    v in Children(g, u)
  }

  /** The union of the keys (that have children) and the values of the multimap. */
  function Vertices<T(==,!new)>(g: Digraph<T>): (r: set<T>)
    ensures forall u, v :: Edge(g, u, v) ==> u in r && v in r
  {
    var keys := set u | u in g && g[u] != [];
    var values := set u, v | u in g && v in g[u] :: v;
    assert forall u, v :: Edge(g, u, v) ==> u in keys && v in values;
    keys + values
  }

  /** Every vertex has a child or a parent: a multimap lists no vertex on its own. */
  lemma VertexHasEdge<T(!new)>(g: Digraph<T>, x: T)
    requires x in Vertices(g)
    ensures |Children(g, x)| > 0 || exists u :: Edge(g, u, x)
  {
    if |Children(g, x)| == 0 {
      var u, v :| u in g && v in g[u] && x == v;
      assert Edge(g, u, x);
    }
  }

  predicate NoDuplicates<T(==,!new)>(s: seq<T>)
  {
    forall i, j :: 0 <= i < j < |s| ==> s[i] != s[j]
  }

  /** A non-empty vertex sequence whose consecutive vertices are edges. */
  ghost predicate IsWalk<T(!new)>(g: Digraph<T>, p: seq<T>)
  {
    |p| > 0 && forall i :: 0 <= i < |p| - 1 ==> Edge(g, p[i], p[i + 1])
  }

  ghost predicate WalkFromTo<T(!new)>(g: Digraph<T>, p: seq<T>, a: T, b: T)
  {
    IsWalk(g, p) && p[0] == a && p[|p| - 1] == b
  }

  /** `b` is reachable from `a` by a directed walk of zero or more edges. */
  ghost predicate Reachable<T(!new)>(g: Digraph<T>, a: T, b: T)
  {
    exists p :: WalkFromTo(g, p, a, b)
  }

  /** A closed walk of at least one edge: a witness that `g` has a directed cycle. */
  ghost predicate IsClosedWalk<T(!new)>(g: Digraph<T>, p: seq<T>)
  {
    IsWalk(g, p) && |p| >= 2 && p[0] == p[|p| - 1]
  }

  ghost predicate Acyclic<T(!new)>(g: Digraph<T>)
  {
    forall p :: !IsClosedWalk(g, p)
  }

  /** Every child of a vertex of `s` is in `s`. */
  ghost predicate ClosedUnder<T(!new)>(g: Digraph<T>, s: set<T>)
  {
    forall u, c :: u in s && c in Children(g, u) ==> c in s
  }

  /** A finish rank: every vertex is ranked and every edge goes to a smaller rank. */
  ghost predicate IsRank<T(!new)>(g: Digraph<T>, rank: map<T, nat>)
  {
    (forall v :: v in Vertices(g) ==> v in rank) &&
    (forall u, c :: u in rank && c in Children(g, u) ==> c in rank && rank[c] < rank[u])
  }

  lemma ReachableRefl<T(!new)>(g: Digraph<T>, a: T)
    ensures Reachable(g, a, a)
  {
    assert WalkFromTo(g, [a], a, a);
  }

  lemma ReachableStep<T(!new)>(g: Digraph<T>, a: T, b: T, c: T)
    requires Reachable(g, a, b) && Edge(g, b, c)
    ensures Reachable(g, a, c)
  {
    var p :| WalkFromTo(g, p, a, b);
    var q := p + [c];
    assert forall i :: 0 <= i < |q| - 1 ==> q[i] == p[i];
    assert WalkFromTo(g, q, a, c);
  }

  lemma WalkAppend<T(!new)>(g: Digraph<T>, p: seq<T>, q: seq<T>)
    requires IsWalk(g, p) && IsWalk(g, q) && p[|p| - 1] == q[0]
    ensures IsWalk(g, p + q[1..])
  {
    var r := p + q[1..];
    forall i | 0 <= i < |r| - 1
      ensures Edge(g, r[i], r[i + 1])
    {
      if i < |p| - 1 {
      } else {
        assert r[i] == q[i - |p| + 1] && r[i + 1] == q[i - |p| + 2];
      }
    }
  }

  lemma WalkPrepend<T(!new)>(g: Digraph<T>, x: T, w: seq<T>)
    requires IsWalk(g, w) && Edge(g, x, w[0])
    ensures IsWalk(g, [x] + w)
  {
    var r := [x] + w;
    forall i | 0 <= i < |r| - 1
      ensures Edge(g, r[i], r[i + 1])
    {
      if i > 0 {
        assert r[i] == w[i - 1] && r[i + 1] == w[i];
      }
    }
  }

  /** A walk's prefix up to `p[k]` and its suffix from `p[k]` are walks. */
  lemma WalkSlices<T(!new)>(g: Digraph<T>, p: seq<T>, k: int)
    requires IsWalk(g, p) && 0 <= k < |p|
    ensures WalkFromTo(g, p[..k + 1], p[0], p[k]) && WalkFromTo(g, p[k..], p[k], p[|p| - 1])
  {
    var front, back := p[..k + 1], p[k..];
    assert forall i :: 0 <= i < |front| ==> front[i] == p[i];
    assert forall i :: 0 <= i < |back| ==> back[i] == p[k + i];
  }

  lemma ReachableTrans<T(!new)>(g: Digraph<T>, a: T, b: T, c: T)
    requires Reachable(g, a, b) && Reachable(g, b, c)
    ensures Reachable(g, a, c)
  {
    var p :| WalkFromTo(g, p, a, b);
    var q :| WalkFromTo(g, q, b, c);
    WalkAppend(g, p, q);
    assert WalkFromTo(g, p + q[1..], a, c);
  }

  /** A walk that starts inside a set closed under edges never leaves it. */
  lemma {:induction false} WalkStaysInside<T(!new)>(g: Digraph<T>, s: set<T>, p: seq<T>)
    requires ClosedUnder(g, s) && IsWalk(g, p) && p[0] in s
    ensures p[|p| - 1] in s
  {
    if |p| > 1 {
      var q := p[..|p| - 1];
      assert IsWalk(g, q);
      WalkStaysInside(g, s, q);
      assert Edge(g, q[|q| - 1], p[|p| - 1]);
    }
  }

  lemma ClosedContainsReachable<T(!new)>(g: Digraph<T>, s: set<T>, a: T, b: T)
    requires ClosedUnder(g, s) && a in s && Reachable(g, a, b)
    ensures b in s
  {
    var p :| WalkFromTo(g, p, a, b);
    WalkStaysInside(g, s, p);
  }

  /** Along a walk through ranked vertices the rank strictly decreases. */
  lemma {:induction false} RankDecreasesAlongWalk<T(!new)>(g: Digraph<T>, rank: map<T, nat>, p: seq<T>)
    requires IsRank(g, rank) && IsWalk(g, p) && |p| >= 2
    ensures p[0] in rank && p[|p| - 1] in rank && rank[p[|p| - 1]] < rank[p[0]]
  {
    assert Edge(g, p[0], p[1]);
    if |p| > 2 {
      var q := p[1..];
      assert IsWalk(g, q);
      RankDecreasesAlongWalk(g, rank, q);
    }
  }

  /** A digraph that has a finish rank has no directed cycle. */
  lemma RankedIsAcyclic<T(!new)>(g: Digraph<T>, rank: map<T, nat>)
    requires IsRank(g, rank)
    ensures Acyclic(g)
  {
    forall p | IsClosedWalk(g, p)
      ensures false
    {
      RankDecreasesAlongWalk(g, rank, p);
    }
  }

  /** Both ends of a walk of at least one edge are vertices of the digraph. */
  lemma ReachedIsVertex<T(!new)>(g: Digraph<T>, a: T, b: T)
    requires Reachable(g, a, b) && a != b
    ensures a in Vertices(g) && b in Vertices(g)
  {
    var p :| WalkFromTo(g, p, a, b);
    assert Edge(g, p[0], p[1]);
    assert Edge(g, p[|p| - 2], p[|p| - 1]);
  }

  lemma SubsetCardinality<T(!new)>(a: set<T>, b: set<T>)
    requires a <= b
    ensures |a| <= |b|
  {
    if a != {} {
      var x :| x in a;
      SubsetCardinality(a - {x}, b - {x});
    }
  }

  lemma StrictSubsetCardinality<T(!new)>(a: set<T>, b: set<T>)
    requires a < b
    ensures |a| < |b|
  {
    assert exists x :: x in b && x !in a;
    var x :| x in b && x !in a;
    SubsetCardinality(a, b - {x});
  }

  /** The first occurrence of every element of `s`, in order. */
  function Dedup<T(==,!new)>(s: seq<T>): (r: seq<T>)
    ensures NoDuplicates(r) && forall x :: x in r <==> x in s
  {
    if s == [] then []
    else
      var init, x := Dedup(s[..|s| - 1]), s[|s| - 1];
      assert s == s[..|s| - 1] + [x];
      if x in init then init else init + [x]
  }

  /** `HashMultimap.create(g)`: the same edges with every parallel edge kept once,
      and no key without children. */
  function Collapse<T(==,!new)>(g: Digraph<T>): (h: Digraph<T>)
    ensures forall u, v :: Edge(h, u, v) <==> Edge(g, u, v)
    ensures forall u :: NoDuplicates(Children(h, u))
    ensures forall u :: u in h ==> h[u] != []
  {
    var h := map u | u in g && g[u] != [] :: Dedup(g[u]);
    assert forall u :: u in h ==> h[u] != [] by {
      forall u | u in h
        ensures h[u] != []
      {
        assert g[u][0] in h[u];
      }
    }
    h
  }

  /** Digraphs with the same edges have the same reachability. */
  lemma SameReachability<T(!new)>(g: Digraph<T>, h: Digraph<T>, a: T, b: T)
    requires forall u, v :: Edge(h, u, v) <==> Edge(g, u, v)
    ensures Reachable(g, a, b) <==> Reachable(h, a, b)
  {
    if Reachable(g, a, b) {
      var p :| WalkFromTo(g, p, a, b);
      assert WalkFromTo(h, p, a, b);
    }
    if Reachable(h, a, b) {
      var p :| WalkFromTo(h, p, a, b);
      assert WalkFromTo(g, p, a, b);
    }
  }

  /** The set's elements, in some order (the iteration order of a hash set). */
  method ListSet<T(==,!new)>(s: set<T>) returns (r: seq<T>)
    ensures NoDuplicates(r) && forall x :: x in r <==> x in s
  {
    r := [];
    var todo := s;
    while todo != {}
      invariant todo <= s && NoDuplicates(r)
      invariant forall x :: x in r <==> x in s - todo
      decreases todo
    {
      var x :| x in todo;
      assert x !in r;
      r := r + [x];
      todo := todo - {x};
    }
  }
}
