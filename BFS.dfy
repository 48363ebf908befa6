/** Multi-source breadth-first search with hop distances and tree links (BFS.java). */
module BreadthFirstPaths {
  import opened Digraphs

  /** A hop count, or `INFINITY` for a vertex no source reaches. */
  datatype Distance = Finite(hops: nat) | Infinity

  /** `p` is a walk from one of the sources to `v`. */
  ghost predicate WalkFromAny<T(!new)>(g: Digraph<T>, sources: seq<T>, p: seq<T>, v: T)
  {
    IsWalk(g, p) && p[0] in sources && p[|p| - 1] == v
  }

  ghost predicate ReachableFromAny<T(!new)>(g: Digraph<T>, sources: seq<T>, v: T)
  {
    exists p :: WalkFromAny(g, sources, p, v)
  }

  /** The fewest edges on a walk from any source to `v` is `n`. */
  ghost predicate ShortestFromAny<T(!new)>(g: Digraph<T>, sources: seq<T>, v: T, n: nat)
  {
    (exists p :: WalkFromAny(g, sources, p, v) && |p| == n + 1) &&
    (forall p :: WalkFromAny(g, sources, p, v) ==> n + 1 <= |p|)
  }

  /** Reaching `v` from the sources is reaching it from one of them. */
  lemma FromAnyIffFromOne<T(!new)>(g: Digraph<T>, sources: seq<T>, v: T)
    ensures ReachableFromAny(g, sources, v) <==> exists s :: s in sources && Reachable(g, s, v)
  {
    if ReachableFromAny(g, sources, v) {
      var p :| WalkFromAny(g, sources, p, v);
      assert WalkFromTo(g, p, p[0], v);
    }
    if exists s :: s in sources && Reachable(g, s, v) {
      var s :| s in sources && Reachable(g, s, v);
      var p :| WalkFromTo(g, p, s, v);
      assert WalkFromAny(g, sources, p, v);
    }
  }

  /** A vertex some source reaches has a shortest distance: a walk with no shorter one. */
  lemma {:induction false} ShortestExists<T(!new)>(g: Digraph<T>, sources: seq<T>, v: T, p: seq<T>)
    requires WalkFromAny(g, sources, p, v)
    ensures exists n :: ShortestFromAny(g, sources, v, n)
    decreases |p|
  {
    if forall q :: WalkFromAny(g, sources, q, v) ==> |p| <= |q| {
      assert ShortestFromAny(g, sources, v, |p| - 1);
    } else {
      var q :| WalkFromAny(g, sources, q, v) && |q| < |p|;
      ShortestExists(g, sources, v, q);
    }
  }

  /** The shortest distance is unique. */
  lemma ShortestUnique<T(!new)>(g: Digraph<T>, sources: seq<T>, v: T, n: nat, m: nat)
    requires ShortestFromAny(g, sources, v, n) && ShortestFromAny(g, sources, v, m)
    ensures n == m
  {
    var p :| WalkFromAny(g, sources, p, v) && |p| == n + 1;
    var q :| WalkFromAny(g, sources, q, v) && |q| == m + 1;
  }

  /** A marked vertex at distance 0 is a source; any other hangs off a marked vertex
      one closer by an edge of the digraph. */
  ghost predicate LinkedIn<T(!new)>(g: Digraph<T>, sources: seq<T>, marked: set<T>,
                                    edgeTo: map<T, T>, distTo: map<T, nat>, v: T)
  {
    v in distTo &&
    if distTo[v] == 0 then v in sources
    else v in edgeTo && edgeTo[v] in marked && edgeTo[v] in distTo &&
         Edge(g, edgeTo[v], v) && distTo[edgeTo[v]] == distTo[v] - 1
  }

  /** Marking a linked `child` one hop past its marked discoverer keeps every link. */
  lemma MarkKeepsLinks<T(!new)>(g: Digraph<T>, sources: seq<T>, marked: set<T>,
                                edgeTo: map<T, T>, distTo: map<T, nat>, child: T, parent: T, n: nat)
    requires forall v :: v in marked ==> LinkedIn(g, sources, marked, edgeTo, distTo, v)
    requires child !in marked && parent in marked && Edge(g, parent, child)
    requires child in edgeTo && edgeTo[child] == parent && parent in distTo && n == distTo[parent] + 1
    ensures forall v :: v in marked + {child} ==> LinkedIn(g, sources, marked + {child}, edgeTo, distTo[child := n], v)
  {
    var d := distTo[child := n];
    assert LinkedIn(g, sources, marked, edgeTo, distTo, parent);
    forall v | v in marked + {child}
      ensures LinkedIn(g, sources, marked + {child}, edgeTo, d, v)
    {
      if v != child {
        assert LinkedIn(g, sources, marked, edgeTo, distTo, v);
      }
    }
  }

  /** Every distance of `d` survives in `d2`, and every vertex of `m` keeps its link of `e`
      in `e2`: the first discoverer of a vertex wins. */
  ghost predicate Keeps<T(!new)>(m: set<T>, e: map<T, T>, d: map<T, nat>, e2: map<T, T>, d2: map<T, nat>)
  {
    (forall v :: v in d ==> v in d2 && d2[v] == d[v]) &&
    (forall v :: v in m && v in e ==> v in e2 && e2[v] == e[v])
  }

  lemma KeepsTrans<T(!new)>(m: set<T>, e: map<T, T>, d: map<T, nat>, m2: set<T>, e2: map<T, T>, d2: map<T, nat>,
                            e3: map<T, T>, d3: map<T, nat>)
    requires m <= m2 && Keeps(m, e, d, e2, d2) && Keeps(m2, e2, d2, e3, d3)
    ensures Keeps(m, e, d, e3, d3)
  {
  }

  /** The queue `q` is `rest` followed by vertices outside `m`, each at distance `n` in `d`. */
  ghost predicate Appended<T(!new)>(rest: seq<T>, q: seq<T>, m: set<T>, d: map<T, nat>, n: nat)
  {
    |rest| <= |q| && q[..|rest|] == rest &&
    forall k :: |rest| <= k < |q| ==> q[k] !in m && q[k] in d && d[q[k]] == n
  }

  /** The queue stays as it is, or gains one new vertex at distance `n`, while old distances survive. */
  lemma AppendedStep<T(!new)>(rest: seq<T>, q: seq<T>, q2: seq<T>, m: set<T>, d: map<T, nat>, d2: map<T, nat>, n: nat)
    requires Appended(rest, q, m, d, n) && forall v :: v in d ==> v in d2 && d2[v] == d[v]
    requires q2 == q || (|q2| == |q| + 1 && q2[..|q|] == q && q2[|q|] !in m && q2[|q|] in d2 && d2[q2[|q|]] == n)
    ensures Appended(rest, q2, m, d2, n)
  {
    if q2 != q {
      assert q2[..|rest|] == q[..|rest|];
      forall k | |rest| <= k < |q2|
        ensures q2[k] !in m && q2[k] in d2 && d2[q2[k]] == n
      {
        if k < |q| {
          assert q2[k] == q[k];
        }
      }
    }
  }

  /** Linking an unmarked vertex changes no marked vertex's link. */
  lemma RelinkKeepsLinks<T(!new)>(g: Digraph<T>, sources: seq<T>, marked: set<T>,
                                  edgeTo: map<T, T>, distTo: map<T, nat>, child: T, parent: T)
    requires forall v :: v in marked ==> LinkedIn(g, sources, marked, edgeTo, distTo, v)
    requires child !in marked
    ensures forall v :: v in marked ==> LinkedIn(g, sources, marked, edgeTo[child := parent], distTo, v)
  {
    forall v | v in marked
      ensures LinkedIn(g, sources, marked, edgeTo[child := parent], distTo, v)
    {
      assert LinkedIn(g, sources, marked, edgeTo, distTo, v);
    }
  }

  class BFS<T(==,!new)> {
    const digraph: Digraph<T>
    const sources: seq<T>
    var marked: set<T>
    var edgeTo: map<T, T>
    var distTo: map<T, nat>

    /** Every vertex the search can ever mark. */
    ghost function Universe(): set<T>
    {
      Vertices(digraph) + (set s | s in sources)
    }

    /** `v` is linked in the current state, as `LinkedIn` says. */
    ghost predicate Linked(v: T)
      reads this
    {
      LinkedIn(digraph, sources, marked, edgeTo, distTo, v)
    }

    ghost predicate Valid()
      reads this
    {
      marked <= Universe() && distTo.Keys == marked &&
      (forall s :: s in sources ==> s in marked && distTo[s] == 0) &&
      forall v {:trigger Linked(v)} :: v in marked ==> Linked(v)
    }

    /** Every child of `u` is marked, at most one further than `u`. */
    ghost predicate Relaxed(u: T)
      reads this
    {
      u in distTo && forall c :: c in Children(digraph, u) ==> c in distTo && distTo[c] <= distTo[u] + 1
    }

    /** The queue holds marked vertices in non-decreasing distance spanning at most one hop,
        nothing marked is further than one hop past its head, and every marked vertex that
        has left the queue is relaxed. */
    ghost predicate Searching(q: seq<T>)
      reads this
    {
      Valid() &&
      (forall i :: 0 <= i < |q| ==> q[i] in marked) &&
      (forall i, j :: 0 <= i <= j < |q| ==> distTo[q[i]] <= distTo[q[j]]) &&
      (q != [] ==> distTo[q[|q| - 1]] <= distTo[q[0]] + 1) &&
      (q != [] ==> forall v :: v in marked ==> distTo[v] <= distTo[q[0]] + 1) &&
      (forall u :: u in marked && u !in q ==> Relaxed(u))
    }

    /** The finished search: every marked vertex is relaxed. */
    ghost predicate Done()
      reads this
    {
      Valid() && forall u :: u in marked ==> Relaxed(u)
    }

    /** `new BFS(digraph, sources)`; the single-source constructor is `sources == [source]`. */
    constructor (g: Digraph<T>, srcs: seq<T>)
      ensures digraph == g && sources == srcs && Done()
    {
      digraph, sources := g, srcs;
      marked, edgeTo, distTo := {}, map[], map[];
      new;
      Bfs();
    }

    /** `bfs`: mark every source at distance 0, then drain the queue, discovering
        each unmarked child of the dequeued vertex one hop further. */
    method Bfs()
      requires marked == {} && distTo == map[]
      modifies this
      ensures Done()
    {
      MarkSources();
      var q := sources;
      while q != []
        invariant Searching(q)
        decreases |Universe()| - |marked|, |q|
      {
        ghost var seen := marked;
        SubsetCardinality(marked, Universe());
        q := Dequeue(q);
        SubsetCardinality(marked, Universe());
        if marked != seen {
          StrictSubsetCardinality(seen, marked);
        }
      }
    }

    /** One turn of the `while` loop: remove the head and relax its children. */
    method Dequeue(q: seq<T>) returns (q': seq<T>)
      requires Searching(q) && q != []
      modifies this
      ensures Searching(q') && old(marked) <= marked
      ensures marked == old(marked) ==> |q'| < |q|
      ensures Keeps(old(marked), old(edgeTo), old(distTo), edgeTo, distTo)
      ensures Appended(q[1..], q', old(marked), distTo, distTo[q[0]] + 1)
    {
      var parent := q[0];
      assert q == [parent] + q[1..];
      StartRelaxing(parent, q[1..]);
      q' := RelaxChildren(parent, q[1..]);
      EndRelaxing(parent, q', q[1..], old(marked));
    }

    /** While `parent`'s children are relaxed: the queue `q` after `parent` holds marked vertices
        in non-decreasing distance within one hop of `parent`'s, nothing marked is further, and
        every other marked vertex that has left the queue is relaxed. `rest` and `seen` are the
        queue and the marked set before the first child. */
    ghost predicate Relaxing(parent: T, q: seq<T>, rest: seq<T>, seen: set<T>)
      reads this
    {
      Valid() && seen <= marked && parent in marked && Band(parent, q) &&
      (forall u :: u in marked && u !in q && u != parent ==> Relaxed(u)) &&
      (marked == seen ==> |q| == |rest|)
    }

    /** The queue `q` holds marked vertices in non-decreasing distance, none closer than
        `parent` and none, like anything marked, more than one hop further. */
    ghost predicate Band(parent: T, q: seq<T>)
      reads this
    {
      parent in distTo &&
      (forall k :: 0 <= k < |q| ==> q[k] in marked && q[k] in distTo && distTo[parent] <= distTo[q[k]] <= distTo[parent] + 1) &&
      (forall k, l :: 0 <= k <= l < |q| && q[k] in distTo && q[l] in distTo ==> distTo[q[k]] <= distTo[q[l]]) &&
      (forall v :: v in marked && v in distTo ==> distTo[v] <= distTo[parent] + 1)
    }

    /** The first loop of `bfs`: every source is marked at distance 0. */
    method MarkSources()
      requires marked == {} && distTo == map[]
      modifies this
      ensures Searching(sources)
    {
      for k := 0 to |sources|
        invariant marked == (set i | 0 <= i < k :: sources[i])
        invariant distTo.Keys == marked && forall v :: v in marked ==> distTo[v] == 0
      {
        marked := marked + {sources[k]};
        distTo := distTo[sources[k] := 0];
      }
      forall v | v in marked
        ensures Linked(v)
      {
        var i :| 0 <= i < |sources| && sources[i] == v;
      }
    }

    /** The `for` loop over the children of the dequeued `parent`; `rest` is the queue
        after removing it, and `q` the queue with the new vertices added at the end. */
    method RelaxChildren(parent: T, rest: seq<T>) returns (q: seq<T>)
      requires Relaxing(parent, rest, rest, marked)
      modifies this
      ensures Relaxing(parent, q, rest, old(marked)) && Relaxed(parent)
      ensures Keeps(old(marked), old(edgeTo), old(distTo), edgeTo, distTo)
      ensures Appended(rest, q, old(marked), distTo, distTo[parent] + 1)
    {
      q := rest;
      var children := Children(digraph, parent);
      ghost var n := distTo[parent] + 1;
      for i := 0 to |children|
        invariant Relaxing(parent, q, rest, old(marked))
        invariant forall j :: 0 <= j < i ==> children[j] in marked
        invariant Keeps(old(marked), old(edgeTo), old(distTo), edgeTo, distTo)
        invariant Appended(rest, q, old(marked), distTo, n)
      {
        q := RelaxNext(parent, children, i, q, rest, old(marked), old(edgeTo), old(distTo), n);
      }
      assert Relaxed(parent);
    }

    /** One turn of the child loop: `children[i]` is relaxed, the children before it stay
        marked, old distances and links survive, and the queue only gains vertices one hop
        past `parent`. */
    method RelaxNext(parent: T, children: seq<T>, i: nat, q: seq<T>, ghost rest: seq<T>,
                     ghost m0: set<T>, ghost e0: map<T, T>, ghost d0: map<T, nat>, ghost n: nat)
      returns (q': seq<T>)
      requires children == Children(digraph, parent) && i < |children|
      requires Relaxing(parent, q, rest, m0) && forall j :: 0 <= j < i ==> children[j] in marked
      requires Keeps(m0, e0, d0, edgeTo, distTo) && Appended(rest, q, m0, distTo, n) && n == distTo[parent] + 1
      modifies this
      ensures Relaxing(parent, q', rest, m0) && forall j :: 0 <= j <= i ==> children[j] in marked
      ensures Keeps(m0, e0, d0, edgeTo, distTo) && Appended(rest, q', m0, distTo, n) && n == distTo[parent] + 1
    {
      assert Edge(digraph, parent, children[i]);
      ghost var before, e1, d1 := marked, edgeTo, distTo;
      q' := RelaxChild(parent, children[i], q, rest, m0);
      KeepsTrans(m0, e0, d0, before, e1, d1, edgeTo, distTo);
      if children[i] !in before {
        assert q'[..|q|] == q;
      }
      AppendedStep(rest, q, q', m0, d1, distTo, n);
      forall j | 0 <= j <= i
        ensures children[j] in marked
      {
        if j < i {
          assert children[j] in before;
        }
      }
    }

    /** Dequeuing the head starts the relaxation of its children. */
    lemma StartRelaxing(parent: T, rest: seq<T>)
      requires Searching([parent] + rest)
      ensures Relaxing(parent, rest, rest, marked)
    {
      var q := [parent] + rest;
      assert q[0] == parent;
      forall k, l | 0 <= k <= l < |rest|
        ensures rest[k] in distTo && rest[l] in distTo && distTo[rest[k]] <= distTo[rest[l]]
      {
        assert rest[k] == q[k + 1] && rest[l] == q[l + 1];
      }
      forall k | 0 <= k < |rest|
        ensures rest[k] in marked && distTo[parent] <= distTo[rest[k]] <= distTo[parent] + 1
      {
        assert rest[k] == q[k + 1];
      }
      forall u | u in marked && u !in rest && u != parent
        ensures Relaxed(u)
      {
        assert u !in q;
      }
    }

    /** Once the dequeued vertex is relaxed, the queue invariant holds again. */
    lemma EndRelaxing(parent: T, q: seq<T>, rest: seq<T>, seen: set<T>)
      requires Relaxing(parent, q, rest, seen) && Relaxed(parent)
      ensures Searching(q)
    {
    }

    /** One turn of that loop: an unmarked `child` is discovered and joins the queue. */
    method RelaxChild(parent: T, child: T, q: seq<T>, ghost rest: seq<T>, ghost seen: set<T>)
      returns (q': seq<T>)
      requires Relaxing(parent, q, rest, seen) && Edge(digraph, parent, child)
      modifies this
      ensures Relaxing(parent, q', rest, seen) && old(marked) <= marked && child in marked
      ensures Keeps(old(marked), old(edgeTo), old(distTo), edgeTo, distTo)
      ensures old(child in marked) ==> marked == old(marked) && edgeTo == old(edgeTo) && distTo == old(distTo) && q' == q
      ensures old(child !in marked) ==> q' == q + [child] && child in distTo && distTo[child] == old(distTo[parent]) + 1
    {
      q' := q;
      if child !in marked {
        Discover(child, parent);
        q' := q + [child];
        forall u | u in marked && u !in q' && u != parent
          ensures Relaxed(u)
        {
          assert old(Relaxed(u));
        }
      }
    }

    /** The first discoverer wins: an unmarked `child` is marked, linked to `parent`
        and placed one hop further; nothing already marked changes. */
    method Discover(child: T, parent: T)
      requires Valid() && child !in marked && parent in marked && Edge(digraph, parent, child)
      modifies this
      ensures Valid() && marked == old(marked) + {child}
      ensures edgeTo == old(edgeTo)[child := parent]
      ensures distTo.Keys == old(distTo).Keys + {child} && distTo[child] == old(distTo)[parent] + 1
      ensures forall v :: v in old(distTo) ==> distTo[v] == old(distTo)[v]
      ensures Keeps(old(marked), old(edgeTo), old(distTo), edgeTo, distTo)
    {
      SetEdgeTo(child, parent);
      MarkChild(child, parent);
    }

    /** `Valid` spelled out on the fields. */
    lemma AllLinked()
      requires Valid()
      ensures forall v :: v in marked ==> LinkedIn(digraph, sources, marked, edgeTo, distTo, v)
    {
      forall v | v in marked
        ensures LinkedIn(digraph, sources, marked, edgeTo, distTo, v)
      {
        assert Linked(v);
      }
    }

    /** Links the unmarked `child` to `parent`; no marked vertex's link changes. */
    method SetEdgeTo(child: T, parent: T)
      requires Valid() && child !in marked
      modifies this
      ensures Valid() && marked == old(marked) && distTo == old(distTo)
      ensures edgeTo == old(edgeTo)[child := parent]
    {
      AllLinked();
      RelinkKeepsLinks(digraph, sources, marked, edgeTo, distTo, child, parent);
      edgeTo := edgeTo[child := parent];
      forall v | v in marked
        ensures Linked(v)
      {
      }
    }

    /** Marks the linked `child` one hop further than its discoverer `parent`. */
    method MarkChild(child: T, parent: T)
      requires Valid() && child !in marked && parent in marked && Edge(digraph, parent, child)
      requires child in edgeTo && edgeTo[child] == parent
      modifies this
      ensures Valid() && marked == old(marked) + {child} && edgeTo == old(edgeTo)
      ensures distTo.Keys == old(distTo).Keys + {child} && distTo[child] == old(distTo)[parent] + 1
      ensures forall v :: v in old(distTo) ==> distTo[v] == old(distTo)[v]
    {
      var d: nat := distTo[parent] + 1;
      var m, dist := marked + {child}, distTo[child := d];
      AllLinked();
      MarkKeepsLinks(digraph, sources, marked, edgeTo, distTo, child, parent, d);
      marked, distTo := m, dist;
      forall v | v in marked
        ensures Linked(v)
      {
        assert LinkedIn(digraph, sources, m, edgeTo, dist, v);
      }
    }

    /** The walk from a source down the tree links to a marked vertex, one vertex per hop. */
    lemma PathBack(v: T) returns (p: seq<T>)
      requires Valid() && v in marked
      ensures WalkFromAny(digraph, sources, p, v) && |p| == distTo[v] + 1
      decreases distTo[v]
    {
      assert Linked(v);
      if distTo[v] == 0 {
        p := [v];
      } else {
        var q := PathBack(edgeTo[v]);
        p := q + [v];
        assert forall i :: 0 <= i < |q| - 1 ==> p[i] == q[i];
      }
    }

    /** In the finished search no walk from a source is shorter than the distance it reaches. */
    lemma {:induction false} WalkBoundsDist(p: seq<T>)
      requires Done() && IsWalk(digraph, p) && p[0] in sources
      ensures p[|p| - 1] in marked && distTo[p[|p| - 1]] <= |p| - 1
      decreases |p|
    {
      if |p| > 1 {
        var q := p[..|p| - 1];
        assert IsWalk(digraph, q);
        WalkBoundsDist(q);
        assert Edge(digraph, q[|q| - 1], p[|p| - 1]);
        assert Relaxed(q[|q| - 1]);
      }
    }

    /** The finished search marks exactly the vertices some source reaches, each at its shortest distance. */
    lemma MarksShortest(v: T)
      requires Done()
      ensures v in marked <==> ReachableFromAny(digraph, sources, v)
      ensures v in marked ==> ShortestFromAny(digraph, sources, v, distTo[v])
    {
      if v in marked {
        var p := PathBack(v);
        forall p' | WalkFromAny(digraph, sources, p', v)
          ensures distTo[v] + 1 <= |p'|
        {
          WalkBoundsDist(p');
        }
      }
      if ReachableFromAny(digraph, sources, v) {
        var p :| WalkFromAny(digraph, sources, p, v);
        WalkBoundsDist(p);
      }
    }

    /** A reached vertex at a positive distance hangs off a reached vertex one hop closer. */
    lemma TreeEdgeShortens(v: T)
      requires Valid() && v in marked && distTo[v] > 0
      ensures v in edgeTo && edgeTo[v] in marked && Edge(digraph, edgeTo[v], v)
      ensures distTo[edgeTo[v]] == distTo[v] - 1
    {
      assert Linked(v);
    }

    /** `hasPathTo(v)`. */
    function HasPathTo(v: T): (b: bool)
      reads this
      requires Done()
      ensures b <==> ReachableFromAny(digraph, sources, v)
    {
      MarksShortest(v);
      v in marked
    }

    /** `distTo(v)`: the fewest edges from any source, or `Infinity` when none reaches `v`. */
    function DistTo(v: T): (d: Distance)
      reads this
      requires Done()
      ensures d == Infinity <==> !ReachableFromAny(digraph, sources, v)
      ensures d.Finite? ==> ShortestFromAny(digraph, sources, v, d.hops)
    {
      MarksShortest(v);
      if v in marked then Finite(distTo[v]) else Infinity
    }

    /** `pathTo(v)`: empty when no source reaches `v`, else a shortest walk from a source to `v`. */
    method PathTo(v: T) returns (path: seq<T>)
      requires Done()
      ensures path == [] <==> !ReachableFromAny(digraph, sources, v)
      ensures path != [] ==> WalkFromAny(digraph, sources, path, v) && DistTo(v) == Finite(|path| - 1)
    {
      MarksShortest(v);
      if v !in marked {
        return [];
      }
      path := [];
      var x := v;
      while distTo[x] != 0
        invariant x in marked && WalkFromTo(digraph, [x] + path, x, v)
        invariant distTo[x] + |path| == distTo[v]
        decreases distTo[x]
      {
        TreeEdgeShortens(x);
        path := [x] + path;
        x := edgeTo[x];
        WalkPrepend(digraph, x, path);
      }
      assert Linked(x);
      path := [x] + path;
    }
  }
}
