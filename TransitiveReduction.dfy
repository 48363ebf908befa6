/** The transitive reduction of a digraph: every edge `a -> d` bypassing an intermediate vertex
    `l` (a walk from `a` to `l` and one from `l` to `d`) is removed from a private copy, with
    reachability answered by memoised depth-first searches of the copy as it stands when each
    search is first run (TransitiveReduction.java). */
module Reduction {
  import opened Wrappers
  import opened Digraphs
  import opened Reachability

  /** The shape of a set multimap: every key has children, none of them repeated. */
  predicate SetLike<T(==,!new)>(g: Digraph<T>)
  {
    forall u :: u in g ==> g[u] != [] && NoDuplicates(g[u])
  }

  /** `s` without the element `x`. */
  function Without<T(==,!new)>(s: seq<T>, x: T): (r: seq<T>)
    ensures forall y :: y in r <==> y in s && y != x
    ensures NoDuplicates(s) ==> NoDuplicates(r)
  {
    if s == [] then []
    else
      var rest := Without(s[1..], x);
      if s[0] == x then rest
      else
        assert NoDuplicates(s) ==> s[0] !in s[1..];
        [s[0]] + rest
  }

  /** `digraph.remove(a, d)`: the edge `a -> d` is gone, and a key left without children with it. */
  function RemoveEdge<T(==,!new)>(g: Digraph<T>, a: T, d: T): (h: Digraph<T>)
    ensures forall u, v :: Edge(h, u, v) <==> Edge(g, u, v) && !(u == a && v == d)
    ensures SetLike(g) ==> SetLike(h)
  {
    if a !in g then g
    else
      var rest := Without(g[a], d);
      if rest == [] then g - {a} else g[a := rest]
  }

  /** Every edge of `h` is an edge of `g`. */
  ghost predicate SubgraphOf<T(!new)>(h: Digraph<T>, g: Digraph<T>)
  {
    forall u, v :: Edge(h, u, v) ==> Edge(g, u, v)
  }

  /** `g` and `h` have the same reachability relation. */
  ghost predicate SameReach<T(!new)>(g: Digraph<T>, h: Digraph<T>)
  {
    forall x, y :: Reachable(g, x, y) <==> Reachable(h, x, y)
  }

  /** The removal condition: `l` lies strictly between `a` and `d` on walks of `g`. */
  ghost predicate Cut<T(!new)>(g: Digraph<T>, a: T, l: T, d: T)
  {
    l != a && l != d && Reachable(g, a, l) && Reachable(g, l, d)
  }

  /** The edge `a -> d` is bypassed by some intermediate vertex. */
  ghost predicate Redundant<T(!new)>(g: Digraph<T>, a: T, d: T)
  {
    exists l :: Cut(g, a, l, d)
  }

  /** A walk of a subgraph is a walk of the digraph. */
  lemma SubgraphReach<T(!new)>(h: Digraph<T>, g: Digraph<T>, x: T, y: T)
    requires SubgraphOf(h, g) && Reachable(h, x, y)
    ensures Reachable(g, x, y)
  {
    var p :| WalkFromTo(h, p, x, y);
    assert WalkFromTo(g, p, x, y);
  }

  /** A subgraph of an acyclic digraph is acyclic. */
  lemma SubgraphAcyclic<T(!new)>(h: Digraph<T>, g: Digraph<T>)
    requires SubgraphOf(h, g) && Acyclic(g)
    ensures Acyclic(h)
  {
    forall p | IsClosedWalk(h, p)
      ensures false
    {
      assert IsClosedWalk(g, p);
    }
  }

  /** Two distinct vertices reaching each other close a cycle. */
  lemma MutualReachCycle<T(!new)>(g: Digraph<T>, x: T, y: T)
    requires Reachable(g, x, y) && Reachable(g, y, x) && x != y
    ensures !Acyclic(g)
  {
    var p :| WalkFromTo(g, p, x, y);
    var q :| WalkFromTo(g, q, y, x);
    WalkAppend(g, p, q);
    assert IsClosedWalk(g, p + q[1..]);
  }

  /** A walk either avoids the edge `a -> d`, or it reaches `a` from its start and its end from `d`. */
  lemma AvoidOrPass<T(!new)>(g: Digraph<T>, a: T, d: T, p: seq<T>)
    requires IsWalk(g, p)
    ensures IsWalk(RemoveEdge(g, a, d), p) || (Reachable(g, p[0], a) && Reachable(g, d, p[|p| - 1]))
  {
    var h := RemoveEdge(g, a, d);
    if !IsWalk(h, p) {
      var k :| 0 <= k < |p| - 1 && !Edge(h, p[k], p[k + 1]);
      assert p[k] == a && p[k + 1] == d;
      WalkSlices(g, p, k);
      WalkSlices(g, p, k + 1);
    }
  }

  /** In an acyclic digraph, a bypassed edge `a -> d` is not needed to get from `a` to `d`. */
  lemma BypassSurvives<T(!new)>(g: Digraph<T>, a: T, l: T, d: T)
    requires Acyclic(g) && Cut(g, a, l, d)
    ensures Reachable(RemoveEdge(g, a, d), a, l) && Reachable(RemoveEdge(g, a, d), l, d)
  {
    var h := RemoveEdge(g, a, d);
    var p :| WalkFromTo(g, p, a, l);
    var q :| WalkFromTo(g, q, l, d);
    AvoidOrPass(g, a, d, p);
    if !IsWalk(h, p) {
      MutualReachCycle(g, d, l);
    }
    assert WalkFromTo(h, p, a, l);
    AvoidOrPass(g, a, d, q);
    if !IsWalk(h, q) {
      MutualReachCycle(g, a, l);
    }
    assert WalkFromTo(h, q, l, d);
  }

  /** A walk of `g` is rerouted around the removed edge `a -> d` when `h` still reaches `d` from `a`. */
  lemma {:induction false} Reroute<T(!new)>(g: Digraph<T>, a: T, d: T, p: seq<T>)
    requires IsWalk(g, p) && Reachable(RemoveEdge(g, a, d), a, d)
    ensures Reachable(RemoveEdge(g, a, d), p[0], p[|p| - 1])
    decreases |p|
  {
    var h := RemoveEdge(g, a, d);
    if |p| == 1 {
      ReachableRefl(h, p[0]);
    } else {
      var init := p[..|p| - 1];
      assert IsWalk(g, init);
      Reroute(g, a, d, init);
      var u, v := p[|p| - 2], p[|p| - 1];
      assert Edge(g, u, v);
      if u == a && v == d {
        ReachableTrans(h, p[0], a, d);
      } else {
        ReachableStep(h, p[0], u, v);
      }
    }
  }

  /** Removing a bypassed edge from an acyclic digraph keeps its reachability, its acyclicity
      and its vertices. */
  lemma RemoveBypassed<T(!new)>(g: Digraph<T>, a: T, l: T, d: T)
    requires Acyclic(g) && Cut(g, a, l, d)
    ensures SameReach(RemoveEdge(g, a, d), g)
    ensures Acyclic(RemoveEdge(g, a, d))
    ensures Vertices(RemoveEdge(g, a, d)) == Vertices(g)
  {
    var h := RemoveEdge(g, a, d);
    BypassSurvives(g, a, l, d);
    ReachableTrans(h, a, l, d);
    forall x, y
      ensures Reachable(h, x, y) <==> Reachable(g, x, y)
    {
      if Reachable(g, x, y) {
        var p :| WalkFromTo(g, p, x, y);
        Reroute(g, a, d, p);
      }
      if Reachable(h, x, y) {
        SubgraphReach(h, g, x, y);
      }
    }
    SubgraphAcyclic(h, g);
    ReachedIsVertex(h, a, l);
    ReachedIsVertex(h, l, d);
    forall x | x in Vertices(g)
      ensures x in Vertices(h)
    {
      VertexHasEdge(g, x);
      if |Children(g, x)| > 0 {
        var c := Children(g, x)[0];
        assert Edge(g, x, c);
      } else {
        var u :| Edge(g, u, x);
      }
    }
    forall x | x in Vertices(h)
      ensures x in Vertices(g)
    {
      VertexHasEdge(h, x);
      if |Children(h, x)| > 0 {
        assert Edge(h, x, Children(h, x)[0]);
      } else {
        var u :| Edge(h, u, x);
      }
    }
  }

  /** `h` keeps exactly the edges of `g` that no intermediate vertex bypasses. */
  ghost predicate IsReduction<T(!new)>(h: Digraph<T>, g: Digraph<T>)
  {
    forall a, d :: Edge(h, a, d) <==> Edge(g, a, d) && !Redundant(g, a, d)
  }

  /** Some lineage among the first `i` of `vertices` bypasses the edge `u -> v`. */
  ghost predicate CutBefore<T(!new)>(g: Digraph<T>, vertices: seq<T>, i: int, u: T, v: T)
    requires 0 <= i <= |vertices|
  {
    exists l :: l in vertices[..i] && Cut(g, u, l, v)
  }

  /** One more lineage considered. */
  lemma CutBeforeStep<T(!new)>(g: Digraph<T>, vertices: seq<T>, i: int)
    requires 0 <= i < |vertices|
    ensures forall u, v :: CutBefore(g, vertices, i + 1, u, v) <==>
                           CutBefore(g, vertices, i, u, v) || Cut(g, u, vertices[i], v)
  {
    assert vertices[..i + 1] == vertices[..i] + [vertices[i]];
  }

  /** Both ends of a bypassed edge, and the vertex bypassing it, are vertices. */
  lemma CutVertices<T(!new)>(g: Digraph<T>, vertices: seq<T>)
    requires forall x :: x in vertices <==> x in Vertices(g)
    ensures forall u, l, v :: Cut(g, u, l, v) ==> u in vertices && l in vertices && v in vertices
  {
    forall u, l, v | Cut(g, u, l, v)
      ensures u in vertices && l in vertices && v in vertices
    {
      ReachedIsVertex(g, u, l);
      ReachedIsVertex(g, l, v);
    }
  }

  /** Once every vertex was a lineage, the bypassed edges are the redundant ones. */
  lemma CutBeforeAll<T(!new)>(g: Digraph<T>, vertices: seq<T>)
    requires forall x :: x in vertices <==> x in Vertices(g)
    ensures forall u, v :: CutBefore(g, vertices, |vertices|, u, v) <==> Redundant(g, u, v)
  {
    CutVertices(g, vertices);
    assert vertices[..|vertices|] == vertices;
  }

  /** The digraph 1 -> 2, 2 -> 3, 1 -> 3. */
  function Triangle(): Digraph<int>
  {
    map[1 := [2, 3], 2 := [3]]
  }

  /** Nothing enters 1, and only 1 enters 2, so only 1 and 2 reach 2. */
  lemma {:induction false} ReachingTwo(p: seq<int>)
    requires IsWalk(Triangle(), p) && p[|p| - 1] in {1, 2}
    ensures p[0] in {1, 2}
    decreases |p|
  {
    if |p| > 1 {
      assert Edge(Triangle(), p[|p| - 2], p[|p| - 1]);
      assert p[..|p| - 1][0] == p[0];
      ReachingTwo(p[..|p| - 1]);
    }
  }

  /** A walk from 2 stays within 2 and 3. */
  lemma {:induction false} LeavingTwo(p: seq<int>, k: int)
    requires IsWalk(Triangle(), p) && p[0] == 2 && 0 <= k < |p|
    ensures p[k] in {2, 3}
    decreases k
  {
    if k > 0 {
      LeavingTwo(p, k - 1);
      assert Edge(Triangle(), p[k - 1], p[k]);
    }
  }

  /** {1 -> 2, 2 -> 3, 1 -> 3} is acyclic and reduces to {1 -> 2, 2 -> 3}: only 1 -> 3 is bypassed. */
  lemma TriangleReduction()
    ensures Acyclic(Triangle())
    ensures forall a, d :: Edge(Triangle(), a, d) && !Redundant(Triangle(), a, d) <==>
                           (a == 1 && d == 2) || (a == 2 && d == 3)
  {
    var g := Triangle();
    var rank := map[1 := 2, 2 := 1, 3 := 0];
    forall v | v in Vertices(g)
      ensures v in rank
    {
      VertexHasEdge(g, v);
    }
    RankedIsAcyclic(g, rank);
    assert WalkFromTo(g, [1, 2], 1, 2) && WalkFromTo(g, [2, 3], 2, 3);
    assert Cut(g, 1, 2, 3);
    forall l | Cut(g, 1, l, 2)
      ensures false
    {
      var q :| WalkFromTo(g, q, l, 2);
      ReachingTwo(q);
    }
    forall l | Cut(g, 2, l, 3)
      ensures false
    {
      var p :| WalkFromTo(g, p, 2, l);
      LeavingTwo(p, |p| - 1);
    }
  }

  class TransitiveReduction<T(==,!new)> {
    /** The copy as constructed, before any edge is removed. */
    ghost const original: Digraph<T>
    /** The private copy, edited by `reduction()`. */
    var digraph: Digraph<T>
    /** The memo `dfsMap`: a finished search from each ancestor queried so far, of the copy
        as it stood when the search ran. */
    var dfsMap: map<T, DFS<T>>
    /** The cached reduction; `None` until built. */
    var reduction: Option<Digraph<T>>

    /** `d` is a finished search from `v` of a stage of the copy between the current one and
        the original, with the original's reachability when that is acyclic. */
    ghost predicate Searched(d: DFS<T>, v: T)
      reads this, d
    {
      d.source == v && d.Valid() && d.MarksReachable() &&
      SubgraphOf(digraph, d.digraph) && SubgraphOf(d.digraph, original) &&
      (Acyclic(original) ==> SameReach(d.digraph, original))
    }

    /** What holds at every step, also while `reduction()` is removing edges: edges are only
        removed, and for an acyclic original neither reachability nor the vertices change. */
    ghost predicate Memo()
      reads this, dfsMap.Values
    {
      SetLike(digraph) && SubgraphOf(digraph, original) &&
      (Acyclic(original) ==> SameReach(digraph, original) && Vertices(digraph) == Vertices(original)) &&
      forall v :: v in dfsMap ==> Searched(dfsMap[v], v)
    }

    ghost predicate Valid()
      reads this, dfsMap.Values
    {
      Memo() &&
      (reduction.None? ==> digraph == original && forall v :: v in dfsMap ==> dfsMap[v].digraph == original) &&
      (reduction.Some? ==> reduction.value == digraph && (Acyclic(original) ==> IsReduction(digraph, original)))
    }

    /** `new TransitiveReduction(digraph)`: a copy with every parallel edge kept once. */
    constructor (g: Digraph<T>)
      ensures Valid() && dfsMap == map[] && reduction == None && original == digraph
      ensures forall u, v :: Edge(digraph, u, v) <==> Edge(g, u, v)
    {
      digraph := Collapse(g);
      original := Collapse(g);
      dfsMap, reduction := map[], None;
    }

    /** `getDFS(vertex)`: the memoised search from `vertex`, run on the copy as it stands on first use. */
    method GetDFS(vertex: T) returns (d: DFS<T>)
      requires Memo()
      modifies this
      ensures Memo() && Searched(d, vertex) && digraph == old(digraph) && reduction == old(reduction)
      ensures vertex in old(dfsMap) ==> d == old(dfsMap)[vertex]
      ensures vertex !in old(dfsMap) ==> d.digraph == digraph
      ensures dfsMap == old(dfsMap)[vertex := d]
    {
      if vertex in dfsMap {
        d := dfsMap[vertex];
      } else {
        d := new DFS(digraph, vertex);
        dfsMap := dfsMap[vertex := d];
      }
    }

    /** `reachable(ancestor, descendant)`: the memoised search from `ancestor` marks `descendant`.
        Before the reduction, and always for an acyclic digraph, that is reachability in the copy. */
    method Reachable(ancestor: T, descendant: T) returns (b: bool)
      requires Memo()
      modifies this
      ensures Memo() && digraph == old(digraph) && reduction == old(reduction)
      ensures old(Valid()) ==> Valid()
      ensures ancestor in dfsMap && (b <==> Digraphs.Reachable(dfsMap[ancestor].digraph, ancestor, descendant))
      ensures Acyclic(original) ==> (b <==> Digraphs.Reachable(original, ancestor, descendant))
      ensures old(Valid()) && reduction.None? ==> (b <==> Digraphs.Reachable(original, ancestor, descendant))
    {
      var d := GetDFS(ancestor);
      b := d.Marked(descendant);
    }

    /** `digraph.remove(ancestor, descendant)` on the copy, for an edge that `lineage` bypasses. */
    method Remove(ancestor: T, lineage: T, descendant: T)
      requires Memo()
      requires Acyclic(original) ==> Cut(original, ancestor, lineage, descendant)
      modifies this
      ensures Memo() && dfsMap == old(dfsMap) && reduction == old(reduction)
      ensures digraph == RemoveEdge(old(digraph), ancestor, descendant)
    {
      var next := RemoveEdge(digraph, ancestor, descendant);
      if Acyclic(original) {
        SubgraphAcyclic(digraph, original);
        RemoveBypassed(digraph, ancestor, lineage, descendant);
      }
      digraph := next;
    }

    /** The innermost loop of `reduction()`: with `ancestor` reaching `lineage`, remove the edge
        from `ancestor` to every other vertex that `lineage` reaches. */
    method RemoveBypassedEdges(vertices: seq<T>, lineage: T, ancestor: T)
      requires Memo() && ancestor != lineage
      requires Acyclic(original) ==> Digraphs.Reachable(original, ancestor, lineage)
      modifies this
      ensures Memo() && reduction == old(reduction)
      ensures Acyclic(original) ==> forall u, v :: Edge(digraph, u, v) <==>
                Edge(old(digraph), u, v) && !(u == ancestor && v in vertices && Cut(original, u, lineage, v))
    {
      for k := 0 to |vertices|
        invariant Memo() && reduction == old(reduction)
        invariant Acyclic(original) ==> forall u, v :: Edge(digraph, u, v) <==>
                    Edge(old(digraph), u, v) && !(u == ancestor && v in vertices[..k] && Cut(original, u, lineage, v))
      {
        var descendant := vertices[k];
        if lineage != descendant {
          var down := Reachable(lineage, descendant);
          if down {
            Remove(ancestor, lineage, descendant);
          }
        }
        assert vertices[..k + 1] == vertices[..k] + [descendant];
      }
      assert vertices[..|vertices|] == vertices;
    }

    /** `reduction()`: for each lineage and each other ancestor reaching it, remove the edges from
        that ancestor to the other vertices the lineage reaches; built on the first call and
        returned unchanged by every later one. */
    method Reduction() returns (r: Digraph<T>)
      requires Valid()
      modifies this
      ensures Valid() && reduction == Some(r)
      ensures old(reduction).Some? ==> r == old(reduction).value
      ensures SetLike(r) && SubgraphOf(r, original)
      ensures Acyclic(original) ==> IsReduction(r, original) && SameReach(r, original) && Vertices(r) == Vertices(original)
    {
      if reduction.Some? {
        return reduction.value;
      }
      var vertices := ListSet(Vertices(digraph));
      CutVertices(original, vertices);
      for i := 0 to |vertices|
        invariant Memo() && reduction == None
        invariant Acyclic(original) ==> forall u, v :: Edge(digraph, u, v) <==>
                    Edge(original, u, v) && !CutBefore(original, vertices, i, u, v)
      {
        var lineage := vertices[i];
        for j := 0 to |vertices|
          invariant Memo() && reduction == None
          invariant Acyclic(original) ==> forall u, v :: Edge(digraph, u, v) <==>
                      Edge(original, u, v) && !CutBefore(original, vertices, i, u, v) &&
                      !(u in vertices[..j] && Cut(original, u, lineage, v))
        {
          var ancestor := vertices[j];
          if ancestor != lineage {
            var up := Reachable(ancestor, lineage);
            if up {
              RemoveBypassedEdges(vertices, lineage, ancestor);
            }
          }
          assert vertices[..j + 1] == vertices[..j] + [ancestor];
        }
        assert vertices[..|vertices|] == vertices;
        CutBeforeStep(original, vertices, i);
      }
      CutBeforeAll(original, vertices);
      reduction := Some(digraph);
      r := digraph;
    }
  }
}
