/** The static helpers of AllPaths.java: the sinks and sources of a dag, and `countPaths`,
    which counts walks in one pass over a topological order instead of listing them. */
module PathCounting {
  import opened Wrappers
  import opened Digraphs
  import TopologicalOrdering
  import opened PathEnumeration

  /** A vertex without children (`!dag.containsKey(v)`). */
  ghost predicate IsSink<T(!new)>(g: Digraph<T>, v: T)
  {
    v in Vertices(g) && Children(g, v) == []
  }

  /** A vertex without parents. */
  ghost predicate IsSource<T(!new)>(g: Digraph<T>, v: T)
  {
    v in Vertices(g) && forall u :: !Edge(g, u, v)
  }

  /** `h` has exactly the edges of `g`, each turned around. */
  ghost predicate Inverted<T(!new)>(g: Digraph<T>, h: Digraph<T>)
  {
    forall u, v :: Edge(h, v, u) <==> Edge(g, u, v)
  }

  /** `getSinks`: the barren vertices, in topological order; a digraph with a cycle is refused. */
  method GetSinks<T(==,!new)>(dag: Digraph<T>) returns (r: Result<seq<T>, seq<T>>)
    ensures r.Failure? <==> !Acyclic(dag)
    ensures r.Failure? ==> IsClosedWalk(dag, r.error)
    ensures r.Success? ==> NoDuplicates(r.value) && forall v :: v in r.value <==> IsSink(dag, v)
  {
    var sorted := TopologicalOrdering.TopologicalSort.Create(dag);
    if sorted.Failure? {
      return Failure(sorted.error);
    }
    var order := sorted.value.Order();
    var sinks := [];
    for i := 0 to |order|
      invariant NoDuplicates(sinks)
      invariant forall v :: v in sinks <==> v in order[..i] && Children(dag, v) == []
    {
      if Children(dag, order[i]) == [] {
        assert order[i] !in order[..i];
        sinks := sinks + [order[i]];
      }
      assert order[..i + 1] == order[..i] + [order[i]];
    }
    assert order[..|order|] == order;
    return Success(sinks);
  }

  /** `put(k, v)` on a set multimap: the edge `k -> v` is added unless already there. */
  function Put<T(==,!new)>(m: Digraph<T>, k: T, v: T): (r: Digraph<T>)
    requires forall x :: NoDuplicates(Children(m, x))
    requires forall x :: x in m ==> m[x] != []
    ensures forall a, b :: Edge(r, a, b) <==> Edge(m, a, b) || (a == k && b == v)
    ensures forall x :: NoDuplicates(Children(r, x))
    ensures forall x :: x in r ==> r[x] != []
  {
    var vs := Children(m, k);
    if v in vs then m
    else
      var r := m[k := vs + [v]];
      assert forall x :: x != k ==> Children(r, x) == Children(m, x);
      assert NoDuplicates(Children(r, k)) by {
        assert NoDuplicates(vs);
        forall i, j | 0 <= i < j < |vs| + 1
          ensures Children(r, k)[i] != Children(r, k)[j]
        {
          if j == |vs| {
            assert Children(r, k)[i] == vs[i];
          }
        }
      }
      r
  }

  /** `Multimaps.invertFrom(dag, LinkedHashMultimap.create())`: every edge `u -> v` becomes `v -> u`;
      the set multimap keeps one copy of a parallel edge and no empty key. */
  method Invert<T(==,!new)>(dag: Digraph<T>) returns (inv: Digraph<T>)
    ensures Inverted(dag, inv)
    ensures forall v :: NoDuplicates(Children(inv, v))
    ensures forall v :: v in inv ==> inv[v] != []
  {
    inv := map[];
    var todo := dag.Keys;
    while todo != {}
      invariant todo <= dag.Keys
      invariant forall u, v :: Edge(inv, v, u) <==> u !in todo && Edge(dag, u, v)
      invariant forall v :: NoDuplicates(Children(inv, v))
      invariant forall v :: v in inv ==> inv[v] != []
      decreases todo
    {
      var u :| u in todo;
      var children := dag[u];
      for i := 0 to |children|
        invariant forall x, v :: Edge(inv, v, x) <==>
          (x !in todo && Edge(dag, x, v)) || (x == u && v in children[..i])
        invariant forall v :: NoDuplicates(Children(inv, v))
        invariant forall v :: v in inv ==> inv[v] != []
      {
        inv := Put(inv, children[i], u);
        assert children[..i + 1] == children[..i] + [children[i]];
      }
      assert children[..|children|] == children;
      todo := todo - {u};
    }
  }

  /** The walk `p` read backwards. */
  function Reverse<T>(p: seq<T>): (r: seq<T>)
    ensures |r| == |p| && forall i :: 0 <= i < |p| ==> r[i] == p[|p| - 1 - i]
  {
    seq(|p|, i requires 0 <= i < |p| => p[|p| - 1 - i])
  }

  /** A closed walk of the inverted digraph, read backwards, is one of the original. */
  lemma ReverseClosedWalk<T(!new)>(g: Digraph<T>, h: Digraph<T>, p: seq<T>)
    requires Inverted(g, h) && IsClosedWalk(h, p)
    ensures IsClosedWalk(g, Reverse(p))
  {
    var r := Reverse(p);
    forall i | 0 <= i < |r| - 1
      ensures Edge(g, r[i], r[i + 1])
    {
      assert Edge(h, p[|p| - 2 - i], p[|p| - 1 - i]);
    }
  }

  /** Inverting keeps the vertices and, both ways, the absence of cycles. */
  lemma InvertedAlike<T(!new)>(g: Digraph<T>, h: Digraph<T>)
    requires Inverted(g, h)
    ensures Inverted(h, g)
    ensures Vertices(g) == Vertices(h)
    ensures Acyclic(g) <==> Acyclic(h)
  {
    assert Inverted(h, g);
    forall x | x in Vertices(h)
      ensures x in Vertices(g)
    {
      VertexHasEdge(h, x);
      if |Children(h, x)| > 0 {
        assert Edge(h, x, Children(h, x)[0]);
      }
    }
    forall x | x in Vertices(g)
      ensures x in Vertices(h)
    {
      VertexHasEdge(g, x);
      if |Children(g, x)| > 0 {
        assert Edge(g, x, Children(g, x)[0]);
      }
    }
    forall p | IsClosedWalk(h, p)
      ensures !Acyclic(g)
    {
      ReverseClosedWalk(g, h, p);
    }
    forall p | IsClosedWalk(g, p)
      ensures !Acyclic(h)
    {
      ReverseClosedWalk(h, g, p);
    }
  }

  /** `getSources`: the sinks of the inverted digraph. A cycle is reported as the inverted
      digraph's closed walk, which read backwards is one of `dag`. */
  method GetSources<T(==,!new)>(dag: Digraph<T>) returns (r: Result<seq<T>, seq<T>>)
    ensures r.Failure? <==> !Acyclic(dag)
    ensures r.Failure? ==> IsClosedWalk(dag, Reverse(r.error))
    ensures r.Success? ==> NoDuplicates(r.value) && forall v :: v in r.value <==> IsSource(dag, v)
  {
    var inv := Invert(dag);
    InvertedAlike(dag, inv);
    r := GetSinks(inv);
    if r.Failure? {
      ReverseClosedWalk(dag, inv, r.error);
    } else {
      forall v
        ensures IsSink(inv, v) <==> IsSource(dag, v)
      {
        if Children(inv, v) != [] {
          assert Edge(dag, Children(inv, v)[0], v);
        }
      }
    }
  }

  /** `counter.add(c, counter.count(p))` for each child `c` of `cs` in turn. */
  ghost function Spread<T>(p: T, cs: seq<T>, m: multiset<T>): multiset<T>
    decreases |cs|
  {
    if cs == [] then m
    else
      var before := Spread(p, cs[..|cs| - 1], m);
      var c := cs[|cs| - 1];
      before[c := before[c] + before[p]]
  }

  /** The counter once the outer loop of `countPaths` has handled the vertices of `ps`. */
  ghost function Tally<T(!new)>(g: Digraph<T>, ps: seq<T>, m: multiset<T>): multiset<T>
  {
    if ps == [] then m
    else
      var p := ps[|ps| - 1];
      Spread(p, Children(g, p), Tally(g, ps[..|ps| - 1], m))
  }

  /** The counts of the destinations, a repeated destination counting again. */
  ghost function Total<T>(m: multiset<T>, ds: seq<T>): nat
  {
    if ds == [] then 0 else Total(m, ds[..|ds| - 1]) + m[ds[|ds| - 1]]
  }

  /** For each destination in turn, the number of walks from a source that end there
      (one per source occurrence); in a dag a walk meets its last vertex only once. */
  ghost function DestinationsCount<T(!new)>(g: Digraph<T>, sources: seq<T>, ds: seq<T>, rank: map<T, nat>): nat
    requires IsRank(g, rank)
  {
    if ds == [] then 0
    else DestinationsCount(g, sources, ds[..|ds| - 1], rank) + SourcesPathCount(g, {ds[|ds| - 1]}, sources, rank)
  }

  /** `countPaths`: every source starts with its count, each vertex in topological order passes
      its count on to each child, and the counts of the destinations are summed. The result is
      the number of walks from a source to a destination; a digraph with a cycle is refused. */
  method CountPaths<T(==,!new)>(dag: Digraph<T>, sources: seq<T>, destinations: seq<T>) returns (r: Result<nat, seq<T>>)
    ensures r.Failure? <==> !Acyclic(dag)
    ensures r.Failure? ==> IsClosedWalk(dag, r.error)
    ensures r.Success? ==> forall rank :: IsRank(dag, rank) ==> r.value == DestinationsCount(dag, sources, destinations, rank)
  {
    var sorted := TopologicalOrdering.TopologicalSort.Create(dag);
    if sorted.Failure? {
      return Failure(sorted.error);
    }
    var order := sorted.value.Order();
    var counter := Propagate(dag, order, multiset(sources));
    var total := SumCounts(counter, destinations);
    forall rank | IsRank(dag, rank)
      ensures total == DestinationsCount(dag, sources, destinations, rank)
    {
      TallyTotal(dag, order, sources, destinations, rank);
    }
    return Success(total);
  }

  /** The outer loop of `countPaths`, over the vertices in topological order. */
  method Propagate<T(==,!new)>(dag: Digraph<T>, order: seq<T>, start: multiset<T>) returns (counter: multiset<T>)
    ensures counter == Tally(dag, order, start)
  {
    counter := start;
    for k := 0 to |order|
      invariant counter == Tally(dag, order[..k], start)
    {
      counter := PassOn(counter, order[k], Children(dag, order[k]));
      assert order[..k + 1][..k] == order[..k];
    }
    assert order[..|order|] == order;
  }

  /** The inner loop of `countPaths`: `parent` adds its count to each child's. */
  method PassOn<T(==)>(start: multiset<T>, parent: T, children: seq<T>) returns (counter: multiset<T>)
    ensures counter == Spread(parent, children, start)
  {
    counter := start;
    for i := 0 to |children|
      invariant counter == Spread(parent, children[..i], start)
    {
      counter := counter[children[i] := counter[children[i]] + counter[parent]];
      assert children[..i + 1][..i] == children[..i];
    }
    assert children[..|children|] == children;
  }

  /** The final stream of `countPaths`: the sum of the destinations' counts. */
  method SumCounts<T(==)>(counter: multiset<T>, destinations: seq<T>) returns (total: nat)
    ensures total == Total(counter, destinations)
  {
    total := 0;
    for j := 0 to |destinations|
      invariant total == Total(counter, destinations[..j])
    {
      total := total + counter[destinations[j]];
      assert destinations[..j + 1][..j] == destinations[..j];
    }
    assert destinations[..|destinations|] == destinations;
  }

  /** The counts of `s`, each weighted by its number of walks to `d`. */
  ghost function Weighted<T(!new)>(g: Digraph<T>, d: T, s: seq<T>, m: multiset<T>, rank: map<T, nat>): int
    requires IsRank(g, rank)
  {
    if s == [] then 0 else m[s[0]] * PathCount(g, {d}, s[0], rank) + Weighted(g, d, s[1..], m, rank)
  }

  /** The counts settled so far (a destination outside `rest`) plus the walks the others will pass on:
      the outer loop of `countPaths` keeps this quantity while `rest` shrinks. */
  ghost function Potential<T(!new)>(g: Digraph<T>, d: T, rest: seq<T>, m: multiset<T>, rank: map<T, nat>): int
    requires IsRank(g, rank)
  {
    (if d in rest then 0 else m[d]) + Weighted(g, d, rest, m, rank)
  }

  lemma NoDuplicatesTail<T(!new)>(s: seq<T>, k: nat)
    requires NoDuplicates(s) && k <= |s|
    ensures NoDuplicates(s[k..])
    ensures forall i :: 0 <= i < k ==> s[i] !in s[k..]
  {
    var t := s[k..];
    forall i, j | 0 <= i < j < |t|
      ensures t[i] != t[j]
    {
      assert t[i] == s[k + i] && t[j] == s[k + j];
    }
  }

  lemma Distribute(a: int, b: int, c: int)
    ensures a * (b + c) == a * b + a * c && (b + c) * a == b * a + c * a
  {
  }

  /** Changing one count changes the weighted sum by that count's change times its walks. */
  lemma {:induction false} WeightedPointChange<T(!new)>(g: Digraph<T>, d: T, s: seq<T>, m: multiset<T>, c: T, n: nat,
                                                       rank: map<T, nat>)
    requires IsRank(g, rank) && NoDuplicates(s)
    ensures Weighted(g, d, s, m[c := n], rank) ==
            Weighted(g, d, s, m, rank) + (if c in s then (n - m[c]) * PathCount(g, {d}, c, rank) else 0)
    decreases |s|
  {
    if s != [] {
      var t := s[1..];
      NoDuplicatesTail(s, 1);
      WeightedPointChange(g, d, t, m, c, n, rank);
      assert c in s <==> c == s[0] || c in t;
      if c == s[0] {
        var a: int, b: int, w: int := n, m[c], PathCount(g, {d}, c, rank);
        Distribute(w, b, a - b);
      }
    }
  }

  /** Passing counts on to the children of `cs` leaves every other count alone. */
  lemma {:induction false} SpreadElsewhere<T>(p: T, cs: seq<T>, m: multiset<T>, v: T)
    requires v !in cs
    ensures Spread(p, cs, m)[v] == m[v]
    decreases |cs|
  {
    if cs != [] {
      assert cs == cs[..|cs| - 1] + [cs[|cs| - 1]];
      SpreadElsewhere(p, cs[..|cs| - 1], m, v);
    }
  }

  /** Passing `m[p]` on to each child of `cs` adds `m[p]` times the children's walks to the weighted sum. */
  lemma {:induction false} SpreadWeighted<T(!new)>(g: Digraph<T>, d: T, p: T, cs: seq<T>, rest: seq<T>, m: multiset<T>,
                                                  rank: map<T, nat>, bound: nat)
    requires IsRank(g, rank) && NoDuplicates(rest) && p !in cs
    requires forall c :: c in cs ==> c in rest && RankOf(rank, c) < bound
    ensures Weighted(g, d, rest, Spread(p, cs, m), rank) ==
            Weighted(g, d, rest, m, rank) + m[p] * ChildrenCount(g, {d}, cs, rank, bound)
    decreases |cs|
  {
    if cs != [] {
      var init, c := cs[..|cs| - 1], cs[|cs| - 1];
      assert cs == init + [c];
      SpreadWeighted(g, d, p, init, rest, m, rank, bound);
      var before := Spread(p, init, m);
      SpreadElsewhere(p, init, m, p);
      WeightedPointChange(g, d, rest, before, c, before[c] + before[p], rank);
      var a: int, n: int, w: int := m[p], ChildrenCount(g, {d}, init, rank, bound), PathCount(g, {d}, c, rank);
      assert ChildrenCount(g, {d}, cs, rank, bound) == n + w;
      Distribute(a, n, w);
    }
  }

  /** A vertex with a walk to `d` ranks at least as high as `d`. */
  lemma {:induction false} PathCountRank<T(!new)>(g: Digraph<T>, d: T, v: T, rank: map<T, nat>)
    requires IsRank(g, rank)
    ensures PathCount(g, {d}, v, rank) > 0 ==> RankOf(rank, d) <= RankOf(rank, v)
    decreases RankOf(rank, v), |Children(g, v)| + 1
  {
    if v != d {
      ChildRanksLower(g, rank, v);
      ChildrenCountRank(g, d, Children(g, v), rank, RankOf(rank, v));
    }
  }

  lemma {:induction false} ChildrenCountRank<T(!new)>(g: Digraph<T>, d: T, cs: seq<T>, rank: map<T, nat>, bound: nat)
    requires IsRank(g, rank) && forall c :: c in cs ==> RankOf(rank, c) < bound
    ensures ChildrenCount(g, {d}, cs, rank, bound) > 0 ==> RankOf(rank, d) < bound
    decreases bound, |cs|
  {
    if cs != [] {
      ChildrenCountRank(g, d, cs[..|cs| - 1], rank, bound);
      PathCountRank(g, d, cs[|cs| - 1], rank);
    }
  }

  /** Handling `p`, whose children all come later, keeps the potential. */
  lemma PotentialStep<T(!new)>(g: Digraph<T>, d: T, p: T, rest: seq<T>, m: multiset<T>, rank: map<T, nat>)
    requires IsRank(g, rank) && NoDuplicates(rest) && p !in rest
    requires forall c :: c in Children(g, p) ==> c in rest
    ensures Potential(g, d, rest, Spread(p, Children(g, p), m), rank) == Potential(g, d, [p] + rest, m, rank)
  {
    var cs := Children(g, p);
    var after := Spread(p, cs, m);
    assert ([p] + rest)[1..] == rest;
    ChildRanksLower(g, rank, p);
    SpreadWeighted(g, d, p, cs, rest, m, rank, RankOf(rank, p));
    var a: int, kids: int, here: int := m[p], ChildrenCount(g, {d}, cs, rank, RankOf(rank, p)), PathCount(g, {d}, p, rank);
    var before: int, later: int := Weighted(g, d, rest, m, rank), Weighted(g, d, rest, after, rank);
    assert later == before + a * kids;
    assert Weighted(g, d, [p] + rest, m, rank) == a * here + before;
    if p == d {
      ChildrenCountRank(g, d, cs, rank, RankOf(rank, p));
      SpreadElsewhere(p, cs, m, p);
      assert kids == 0 && here == 1;
      assert later == before && a * here == a;
      assert d in [p] + rest && d !in rest;
      assert Potential(g, d, rest, after, rank) == a + later;
      assert Potential(g, d, [p] + rest, m, rank) == a * here + before;
    } else {
      assert here == kids;
      if d in rest {
        assert d in [p] + rest;
      } else {
        assert d !in [p] + rest && d !in cs;
        SpreadElsewhere(p, cs, m, d);
      }
    }
  }

  /** Before the outer loop the potential is the number of walks from the sources to `d`:
      a source outside the order has no children, so its only walk is itself. */
  lemma {:induction false} InitialPotential<T(!new)>(g: Digraph<T>, d: T, order: seq<T>, sources: seq<T>, rank: map<T, nat>)
    requires IsRank(g, rank) && NoDuplicates(order) && forall v :: v in order <==> v in Vertices(g)
    ensures Potential(g, d, order, multiset(sources), rank) == SourcesPathCount(g, {d}, sources, rank)
    decreases |sources|
  {
    if sources == [] {
      WeightedEmpty(g, d, order, rank);
    } else {
      var init, s := sources[..|sources| - 1], sources[|sources| - 1];
      InitialPotential(g, d, order, init, rank);
      var before := multiset(init);
      assert sources == init + [s];
      assert multiset(sources) == before[s := before[s] + 1];
      WeightedPointChange(g, d, order, before, s, before[s] + 1, rank);
      var here: int := PathCount(g, {d}, s, rank);
      assert before[s] + 1 - before[s] == 1;
      if s in order {
        assert Weighted(g, d, order, multiset(sources), rank) == Weighted(g, d, order, before, rank) + here;
      } else {
        assert Children(g, s) == [] by {
          if Children(g, s) != [] {
            assert Edge(g, s, Children(g, s)[0]);
          }
        }
        assert ChildrenCount(g, {d}, [], rank, RankOf(rank, s)) == 0;
        assert here == if s == d then 1 else 0;
      }
    }
  }

  lemma {:induction false} WeightedEmpty<T(!new)>(g: Digraph<T>, d: T, s: seq<T>, rank: map<T, nat>)
    requires IsRank(g, rank)
    ensures Weighted(g, d, s, multiset{}, rank) == 0
    decreases |s|
  {
    if s != [] {
      WeightedEmpty(g, d, s[1..], rank);
    }
  }

  /** The vertex handled in step `k` is new to the rest of the order and its children all come later. */
  lemma NextInOrder<T(!new)>(g: Digraph<T>, order: seq<T>, k: nat)
    requires TopologicalOrdering.IsTopologicalOrder(g, order) && 0 < k <= |order|
    ensures order[k - 1..] == [order[k - 1]] + order[k..]
    ensures NoDuplicates(order[k..]) && order[k - 1] !in order[k..]
    ensures forall c :: c in Children(g, order[k - 1]) ==> c in order[k..]
  {
    var p := order[k - 1];
    NoDuplicatesTail(order, k);
    forall j | k <= j < |order|
      ensures order[j] != p
    {
    }
    forall c | c in Children(g, p)
      ensures c in order[k..]
    {
      assert Edge(g, p, c);
      assert c in Vertices(g);
      var j :| 0 <= j < |order| && order[j] == c;
      assert TopologicalOrdering.EdgesForward(g, order);
      assert order[j] == order[k..][j - k];
    }
  }

  /** The outer loop keeps the potential: after `k` vertices it is what it was at the start. */
  lemma {:induction false} PotentialKept<T(!new)>(g: Digraph<T>, d: T, order: seq<T>, k: nat, start: multiset<T>,
                                                 rank: map<T, nat>)
    requires IsRank(g, rank) && TopologicalOrdering.IsTopologicalOrder(g, order) && k <= |order|
    ensures Potential(g, d, order[k..], Tally(g, order[..k], start), rank) == Potential(g, d, order, start, rank)
    decreases k
  {
    if k == 0 {
      assert order[0..] == order && order[..0] == [];
    } else {
      PotentialKept(g, d, order, k - 1, start, rank);
      var p := order[k - 1];
      assert order[..k][..k - 1] == order[..k - 1] && order[..k][k - 1] == p;
      NextInOrder(g, order, k);
      PotentialStep(g, d, p, order[k..], Tally(g, order[..k - 1], start), rank);
    }
  }

  /** After the outer loop the count of `d` is the number of walks from the sources to `d`. */
  lemma TallyCounts<T(!new)>(g: Digraph<T>, d: T, order: seq<T>, sources: seq<T>, rank: map<T, nat>)
    requires IsRank(g, rank) && TopologicalOrdering.IsTopologicalOrder(g, order)
    ensures Tally(g, order, multiset(sources))[d] == SourcesPathCount(g, {d}, sources, rank)
  {
    PotentialKept(g, d, order, |order|, multiset(sources), rank);
    InitialPotential(g, d, order, sources, rank);
    assert order[|order|..] == [] && order[..|order|] == order;
  }

  lemma {:induction false} TallyTotal<T(!new)>(g: Digraph<T>, order: seq<T>, sources: seq<T>, ds: seq<T>, rank: map<T, nat>)
    requires TopologicalOrdering.IsTopologicalOrder(g, order) && IsRank(g, rank)
    ensures Total(Tally(g, order, multiset(sources)), ds) == DestinationsCount(g, sources, ds, rank)
    decreases |ds|
  {
    if ds != [] {
      TallyTotal(g, order, sources, ds[..|ds| - 1], rank);
      TallyCounts(g, ds[|ds| - 1], order, sources, rank);
    }
  }

  /** In a dag a walk meets its last vertex only there, so the walks that stop at the first
      visit of `d` are all the walks that end at `d`. */
  lemma FirstHitSingle<T(!new)>(g: Digraph<T>, d: T, p: seq<T>)
    requires Acyclic(g)
    ensures FirstHit(g, {d}, p) <==> IsWalk(g, p) && p[|p| - 1] == d
  {
    if IsWalk(g, p) && p[|p| - 1] == d && !FirstHit(g, {d}, p) {
      var i :| 0 <= i < |p| - 1 && p[i] == d;
      var w := p[i..];
      forall j | 0 <= j < |w| - 1
        ensures Edge(g, w[j], w[j + 1])
      {
        assert w[j] == p[i + j] && w[j + 1] == p[i + j + 1];
      }
      assert IsClosedWalk(g, w);
    }
  }

  /** The walks from `v` to each destination of `ds` in turn, added up. */
  ghost function PerDestination<T(!new)>(g: Digraph<T>, ds: seq<T>, v: T, rank: map<T, nat>): nat
    requires IsRank(g, rank)
  {
    if ds == [] then 0
    else PerDestination(g, ds[..|ds| - 1], v, rank) + PathCount(g, {ds[|ds| - 1]}, v, rank)
  }

  /** The walks from the children `cs` to each destination of `ds` in turn, added up. */
  ghost function ChildrenPerDestination<T(!new)>(g: Digraph<T>, ds: seq<T>, cs: seq<T>, rank: map<T, nat>, bound: nat): nat
    requires IsRank(g, rank) && forall c :: c in cs ==> RankOf(rank, c) < bound
  {
    if ds == [] then 0
    else ChildrenPerDestination(g, ds[..|ds| - 1], cs, rank, bound) + ChildrenCount(g, {ds[|ds| - 1]}, cs, rank, bound)
  }

  /** `PerDestination` added up over the vertices of `xs`. */
  ghost function SumPerDestination<T(!new)>(g: Digraph<T>, ds: seq<T>, xs: seq<T>, rank: map<T, nat>): nat
    requires IsRank(g, rank)
  {
    if xs == [] then 0
    else SumPerDestination(g, ds, xs[..|xs| - 1], rank) + PerDestination(g, ds, xs[|xs| - 1], rank)
  }

  lemma {:induction false} SumPerDestinationSplit<T(!new)>(g: Digraph<T>, ds: seq<T>, xs: seq<T>, rank: map<T, nat>)
    requires IsRank(g, rank) && ds != []
    ensures SumPerDestination(g, ds, xs, rank) ==
            SumPerDestination(g, ds[..|ds| - 1], xs, rank) + SourcesPathCount(g, {ds[|ds| - 1]}, xs, rank)
    decreases |xs|
  {
    if xs != [] {
      SumPerDestinationSplit(g, ds, xs[..|xs| - 1], rank);
    }
  }

  /** Summing by destination and then by source gives the same as by source and then by destination. */
  lemma {:induction false} DestinationsBySource<T(!new)>(g: Digraph<T>, sources: seq<T>, ds: seq<T>, rank: map<T, nat>)
    requires IsRank(g, rank)
    ensures DestinationsCount(g, sources, ds, rank) == SumPerDestination(g, ds, sources, rank)
    decreases |ds|
  {
    if ds == [] {
      SumPerDestinationZero(g, sources, rank);
    } else {
      DestinationsBySource(g, sources, ds[..|ds| - 1], rank);
      SumPerDestinationSplit(g, ds, sources, rank);
    }
  }

  lemma {:induction false} SumPerDestinationZero<T(!new)>(g: Digraph<T>, xs: seq<T>, rank: map<T, nat>)
    requires IsRank(g, rank)
    ensures SumPerDestination(g, [], xs, rank) == 0
    decreases |xs|
  {
    if xs != [] {
      SumPerDestinationZero(g, xs[..|xs| - 1], rank);
    }
  }

  lemma {:induction false} ChildrenPerDestinationSplit<T(!new)>(g: Digraph<T>, ds: seq<T>, cs: seq<T>, rank: map<T, nat>,
                                                               bound: nat)
    requires IsRank(g, rank) && cs != [] && forall c :: c in cs ==> RankOf(rank, c) < bound
    ensures ChildrenPerDestination(g, ds, cs, rank, bound) ==
            ChildrenPerDestination(g, ds, cs[..|cs| - 1], rank, bound) + PerDestination(g, ds, cs[|cs| - 1], rank)
    decreases |ds|
  {
    if ds != [] {
      ChildrenPerDestinationSplit(g, ds[..|ds| - 1], cs, rank, bound);
    }
  }

  /** The same exchange of sums over the children of a vertex. */
  lemma {:induction false} ChildrenBySum<T(!new)>(g: Digraph<T>, ds: seq<T>, cs: seq<T>, rank: map<T, nat>, bound: nat)
    requires IsRank(g, rank) && forall c :: c in cs ==> RankOf(rank, c) < bound
    ensures ChildrenPerDestination(g, ds, cs, rank, bound) == SumPerDestination(g, ds, cs, rank)
    decreases |cs|
  {
    if cs == [] {
      ChildrenPerDestinationZero(g, ds, rank, bound);
    } else {
      ChildrenBySum(g, ds, cs[..|cs| - 1], rank, bound);
      ChildrenPerDestinationSplit(g, ds, cs, rank, bound);
    }
  }

  lemma {:induction false} ChildrenPerDestinationZero<T(!new)>(g: Digraph<T>, ds: seq<T>, rank: map<T, nat>, bound: nat)
    requires IsRank(g, rank)
    ensures ChildrenPerDestination(g, ds, [], rank, bound) == 0
    decreases |ds|
  {
    if ds != [] {
      ChildrenPerDestinationZero(g, ds[..|ds| - 1], rank, bound);
    }
  }

  /** From a vertex that is no destination, every walk goes on through a child. */
  lemma {:induction false} PerDestinationChildren<T(!new)>(g: Digraph<T>, ds: seq<T>, v: T, rank: map<T, nat>)
    requires IsRank(g, rank) && v !in ds
    ensures forall c :: c in Children(g, v) ==> RankOf(rank, c) < RankOf(rank, v)
    ensures PerDestination(g, ds, v, rank) == ChildrenPerDestination(g, ds, Children(g, v), rank, RankOf(rank, v))
    decreases |ds|
  {
    ChildRanksLower(g, rank, v);
    if ds != [] {
      PerDestinationChildren(g, ds[..|ds| - 1], v, rank);
    }
  }

  /** From a vertex without children the only walk is the vertex itself. */
  lemma {:induction false} PerDestinationBarren<T(!new)>(g: Digraph<T>, ds: seq<T>, v: T, rank: map<T, nat>)
    requires IsRank(g, rank) && NoDuplicates(ds) && Children(g, v) == []
    ensures PerDestination(g, ds, v, rank) == if v in ds then 1 else 0
    decreases |ds|
  {
    if ds != [] {
      var init, d := ds[..|ds| - 1], ds[|ds| - 1];
      assert ds == init + [d];
      assert NoDuplicates(init) && d !in init;
      PerDestinationBarren(g, init, v, rank);
      assert ChildrenCount(g, {d}, [], rank, RankOf(rank, v)) == 0;
    }
  }

  /** With the sinks as destinations, the walks from `v` to each sink in turn add up to the
      walks from `v` that stop at the first sink. */
  lemma {:induction false} SinksPathCount<T(!new)>(g: Digraph<T>, ds: seq<T>, v: T, rank: map<T, nat>)
    requires IsRank(g, rank) && NoDuplicates(ds) && forall x :: x in ds <==> IsSink(g, x)
    ensures PerDestination(g, ds, v, rank) == PathCount(g, (set d | d in ds), v, rank)
    decreases RankOf(rank, v), |Children(g, v)| + 1
  {
    if v in ds {
      PerDestinationBarren(g, ds, v, rank);
    } else {
      var cs := Children(g, v);
      PerDestinationChildren(g, ds, v, rank);
      ChildrenBySum(g, ds, cs, rank, RankOf(rank, v));
      SinksChildrenCount(g, ds, cs, rank, RankOf(rank, v));
    }
  }

  lemma {:induction false} SinksChildrenCount<T(!new)>(g: Digraph<T>, ds: seq<T>, cs: seq<T>, rank: map<T, nat>, bound: nat)
    requires IsRank(g, rank) && NoDuplicates(ds) && forall x :: x in ds <==> IsSink(g, x)
    requires forall c :: c in cs ==> RankOf(rank, c) < bound
    ensures SumPerDestination(g, ds, cs, rank) == ChildrenCount(g, (set d | d in ds), cs, rank, bound)
    decreases bound, |cs|
  {
    if cs != [] {
      SinksChildrenCount(g, ds, cs[..|cs| - 1], rank, bound);
      SinksPathCount(g, ds, cs[|cs| - 1], rank);
    }
  }

  /** With the sinks as destinations (the default overloads), `countPaths` counts exactly the
      paths the enumerator lists for the same sources. */
  lemma {:induction false} CountingMatchesListing<T(!new)>(g: Digraph<T>, sources: seq<T>, ds: seq<T>, rank: map<T, nat>)
    requires IsRank(g, rank) && NoDuplicates(ds) && forall x :: x in ds <==> IsSink(g, x)
    ensures DestinationsCount(g, sources, ds, rank) == SourcesPathCount(g, (set d | d in ds), sources, rank)
    decreases |sources|
  {
    DestinationsBySource(g, sources, ds, rank);
    if sources != [] {
      var init := sources[..|sources| - 1];
      CountingMatchesListing(g, init, ds, rank);
      DestinationsBySource(g, init, ds, rank);
      SinksPathCount(g, ds, sources[|sources| - 1], rank);
    }
  }
}
