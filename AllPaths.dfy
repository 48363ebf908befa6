/** Every path from a set of sources to the first destination met on a dag, by backtracking
    (AllPaths.java). The one-pass count of `countPaths` is in module `PathCounting`. */
module PathEnumeration {
  import opened Wrappers
  import opened Digraphs
  import CycleDetection
  import TopologicalOrdering

  /** The finish rank of `v`, or 0 for a vertex the rank does not list (one without children). */
  function RankOf<T(==,!new)>(rank: map<T, nat>, v: T): nat
  {
    if v in rank then rank[v] else 0
  }

  /** Under a finish rank, every child ranks below its parent. */
  lemma ChildRanksLower<T(!new)>(g: Digraph<T>, rank: map<T, nat>, v: T)
    requires IsRank(g, rank)
    ensures forall c :: c in Children(g, v) ==> RankOf(rank, c) < RankOf(rank, v)
  {
    forall c | c in Children(g, v)
      ensures RankOf(rank, c) < RankOf(rank, v)
    {
      assert Edge(g, v, c);
    }
  }

  /** `q` is a walk that stops at the first destination it meets. */
  ghost predicate FirstHit<T(!new)>(g: Digraph<T>, dests: set<T>, q: seq<T>)
  {
    IsWalk(g, q) && q[|q| - 1] in dests && forall i :: 0 <= i < |q| - 1 ==> q[i] !in dests
  }

  /** The paths `dfs(dag, v, path)` adds, in order, when the working path holds `prefix`:
      the path itself at a destination, else those of each child in turn. */
  ghost function Enumerate<T(!new)>(g: Digraph<T>, dests: set<T>, prefix: seq<T>, v: T, rank: map<T, nat>): seq<seq<T>>
    requires IsRank(g, rank)
    decreases RankOf(rank, v), |Children(g, v)| + 1
  {
    if v in dests then [prefix + [v]]
    else
      ChildRanksLower(g, rank, v);
      EnumerateChildren(g, dests, prefix + [v], Children(g, v), rank, RankOf(rank, v))
  }

  /** The paths of the children `cs` of a vertex ranked `bound`, one child after another. */
  ghost function EnumerateChildren<T(!new)>(g: Digraph<T>, dests: set<T>, prefix: seq<T>, cs: seq<T>,
                                            rank: map<T, nat>, bound: nat): seq<seq<T>>
    requires IsRank(g, rank) && forall c :: c in cs ==> RankOf(rank, c) < bound
    decreases bound, |cs|
  {
    if cs == [] then []
    else EnumerateChildren(g, dests, prefix, cs[..|cs| - 1], rank, bound) +
         Enumerate(g, dests, prefix, cs[|cs| - 1], rank)
  }

  /** The paths the constructor collects: those of each source in turn, from an empty path. */
  ghost function FromSources<T(!new)>(g: Digraph<T>, dests: set<T>, sources: seq<T>, rank: map<T, nat>): seq<seq<T>>
    requires IsRank(g, rank)
  {
    if sources == [] then []
    else FromSources(g, dests, sources[..|sources| - 1], rank) + Enumerate(g, dests, [], sources[|sources| - 1], rank)
  }

  /** The number of walks from `v` that stop at the first destination. */
  ghost function PathCount<T(!new)>(g: Digraph<T>, dests: set<T>, v: T, rank: map<T, nat>): nat
    requires IsRank(g, rank)
    decreases RankOf(rank, v), |Children(g, v)| + 1
  {
    if v in dests then 1
    else
      ChildRanksLower(g, rank, v);
      ChildrenCount(g, dests, Children(g, v), rank, RankOf(rank, v))
  }

  ghost function ChildrenCount<T(!new)>(g: Digraph<T>, dests: set<T>, cs: seq<T>, rank: map<T, nat>, bound: nat): nat
    requires IsRank(g, rank) && forall c :: c in cs ==> RankOf(rank, c) < bound
    decreases bound, |cs|
  {
    if cs == [] then 0
    else ChildrenCount(g, dests, cs[..|cs| - 1], rank, bound) + PathCount(g, dests, cs[|cs| - 1], rank)
  }

  /** The number of first-hit walks summed over the sources, a repeated source counting again. */
  ghost function SourcesPathCount<T(!new)>(g: Digraph<T>, dests: set<T>, sources: seq<T>, rank: map<T, nat>): nat
    requires IsRank(g, rank)
  {
    if sources == [] then 0
    else SourcesPathCount(g, dests, sources[..|sources| - 1], rank) + PathCount(g, dests, sources[|sources| - 1], rank)
  }

  /** A path of the children's list is a path of one of the children. */
  lemma {:induction false} EnumerateChildrenMember<T(!new)>(g: Digraph<T>, dests: set<T>, prefix: seq<T>, cs: seq<T>,
                                                           rank: map<T, nat>, bound: nat, p: seq<T>)
    requires IsRank(g, rank) && forall c :: c in cs ==> RankOf(rank, c) < bound
    ensures p in EnumerateChildren(g, dests, prefix, cs, rank, bound) <==>
            exists k :: 0 <= k < |cs| && p in Enumerate(g, dests, prefix, cs[k], rank)
    decreases |cs|
  {
    if cs != [] {
      var init := cs[..|cs| - 1];
      EnumerateChildrenMember(g, dests, prefix, init, rank, bound, p);
      if exists k :: 0 <= k < |cs| && p in Enumerate(g, dests, prefix, cs[k], rank) {
        var k :| 0 <= k < |cs| && p in Enumerate(g, dests, prefix, cs[k], rank);
        if k < |cs| - 1 {
          assert cs[k] == init[k];
        }
      }
      if exists k :: 0 <= k < |init| && p in Enumerate(g, dests, prefix, init[k], rank) {
        var k :| 0 <= k < |init| && p in Enumerate(g, dests, prefix, init[k], rank);
        assert init[k] == cs[k];
      }
    }
  }

  /** A walk that stops at the first destination stays one when a non-destination parent is put in front. */
  lemma FirstHitPrepend<T(!new)>(g: Digraph<T>, dests: set<T>, v: T, q: seq<T>)
    requires FirstHit(g, dests, q) && v !in dests && Edge(g, v, q[0])
    ensures FirstHit(g, dests, [v] + q)
  {
    var w := [v] + q;
    forall i | 0 <= i < |w| - 1
      ensures Edge(g, w[i], w[i + 1]) && w[i] !in dests
    {
      if i > 0 {
        assert w[i] == q[i - 1] && w[i + 1] == q[i];
      }
    }
  }

  /** Every path found from `v` is the working path followed by a walk from `v`
      that stops at the first destination. */
  lemma {:induction false} EnumerateSound<T(!new)>(g: Digraph<T>, dests: set<T>, prefix: seq<T>, v: T,
                                                  rank: map<T, nat>, p: seq<T>)
    requires IsRank(g, rank) && p in Enumerate(g, dests, prefix, v, rank)
    ensures |p| > |prefix| && p[..|prefix|] == prefix && p[|prefix|] == v && FirstHit(g, dests, p[|prefix|..])
    decreases RankOf(rank, v)
  {
    if v !in dests {
      var cs := Children(g, v);
      ChildRanksLower(g, rank, v);
      EnumerateChildrenMember(g, dests, prefix + [v], cs, rank, RankOf(rank, v), p);
      var k :| 0 <= k < |cs| && p in Enumerate(g, dests, prefix + [v], cs[k], rank);
      EnumerateSound(g, dests, prefix + [v], cs[k], rank, p);
      var rest := p[|prefix| + 1..];
      assert p[|prefix|..] == [v] + rest;
      assert Edge(g, v, rest[0]);
      FirstHitPrepend(g, dests, v, rest);
      assert p[..|prefix|] == (prefix + [v])[..|prefix|];
    }
  }

  /** Every walk from `v` that stops at the first destination is found, after the working path. */
  lemma {:induction false} EnumerateComplete<T(!new)>(g: Digraph<T>, dests: set<T>, prefix: seq<T>, q: seq<T>,
                                                     rank: map<T, nat>)
    requires IsRank(g, rank) && FirstHit(g, dests, q)
    ensures prefix + q in Enumerate(g, dests, prefix, q[0], rank)
    decreases |q|
  {
    var v := q[0];
    if |q| > 1 {
      assert v !in dests;
      var rest := q[1..];
      assert Edge(g, v, rest[0]);
      assert FirstHit(g, dests, rest) by {
        forall i | 0 <= i < |rest| - 1
          ensures Edge(g, rest[i], rest[i + 1]) && rest[i] !in dests
        {
          assert rest[i] == q[i + 1] && rest[i + 1] == q[i + 2];
        }
      }
      EnumerateComplete(g, dests, prefix + [v], rest, rank);
      assert prefix + q == (prefix + [v]) + rest;
      var cs := Children(g, v);
      var k :| 0 <= k < |cs| && cs[k] == rest[0];
      ChildRanksLower(g, rank, v);
      EnumerateChildrenMember(g, dests, prefix + [v], cs, rank, RankOf(rank, v), prefix + q);
    } else {
      assert q == [v];
    }
  }

  /** `dfs` finds one path per first-hit walk, whatever the working path. */
  lemma {:induction false} EnumerateCount<T(!new)>(g: Digraph<T>, dests: set<T>, prefix: seq<T>, v: T, rank: map<T, nat>)
    requires IsRank(g, rank)
    ensures |Enumerate(g, dests, prefix, v, rank)| == PathCount(g, dests, v, rank)
    decreases RankOf(rank, v), |Children(g, v)| + 1
  {
    if v !in dests {
      ChildRanksLower(g, rank, v);
      EnumerateChildrenCount(g, dests, prefix + [v], Children(g, v), rank, RankOf(rank, v));
    }
  }

  lemma {:induction false} EnumerateChildrenCount<T(!new)>(g: Digraph<T>, dests: set<T>, prefix: seq<T>, cs: seq<T>,
                                                          rank: map<T, nat>, bound: nat)
    requires IsRank(g, rank) && forall c :: c in cs ==> RankOf(rank, c) < bound
    ensures |EnumerateChildren(g, dests, prefix, cs, rank, bound)| == ChildrenCount(g, dests, cs, rank, bound)
    decreases bound, |cs|
  {
    if cs != [] {
      EnumerateChildrenCount(g, dests, prefix, cs[..|cs| - 1], rank, bound);
      EnumerateCount(g, dests, prefix, cs[|cs| - 1], rank);
    }
  }

  /** The constructor collects one path per source and first-hit walk from it. */
  lemma {:induction false} FromSourcesCount<T(!new)>(g: Digraph<T>, dests: set<T>, sources: seq<T>, rank: map<T, nat>)
    requires IsRank(g, rank)
    ensures |FromSources(g, dests, sources, rank)| == SourcesPathCount(g, dests, sources, rank)
    decreases |sources|
  {
    if sources != [] {
      FromSourcesCount(g, dests, sources[..|sources| - 1], rank);
      EnumerateCount(g, dests, [], sources[|sources| - 1], rank);
    }
  }

  /** The paths collected from the sources are exactly the first-hit walks that start at a source. */
  lemma FromSourcesExact<T(!new)>(g: Digraph<T>, dests: set<T>, sources: seq<T>, rank: map<T, nat>, p: seq<T>)
    requires IsRank(g, rank)
    ensures p in FromSources(g, dests, sources, rank) <==> p != [] && p[0] in sources && FirstHit(g, dests, p)
    decreases |sources|
  {
    if sources != [] {
      var init, s := sources[..|sources| - 1], sources[|sources| - 1];
      FromSourcesExact(g, dests, init, rank, p);
      assert forall x :: x in sources <==> x in init || x == s by {
        assert sources == init + [s];
      }
      if p in Enumerate(g, dests, [], s, rank) {
        EnumerateSound(g, dests, [], s, rank, p);
        assert p[0..] == p;
      }
      if p != [] && p[0] == s && FirstHit(g, dests, p) {
        EnumerateComplete(g, dests, [], p, rank);
        assert [] + p == p;
      }
    }
  }

  /** The number of ways the edge lists spell the walk `q`: the product, over its steps,
      of how often the next vertex is listed among the children of the one before. */
  ghost function Ways<T(!new)>(g: Digraph<T>, q: seq<T>): nat
    decreases |q|
  {
    if |q| <= 1 then 1 else multiset(Children(g, q[0]))[q[1]] * Ways(g, q[1..])
  }

  /** How often `paths()` holds `p`: once per occurrence of its start among the sources
      and per way of spelling it, when it is a walk that stops at the first destination. */
  ghost function Copies<T(!new)>(g: Digraph<T>, dests: set<T>, sources: seq<T>, p: seq<T>): nat
  {
    if p != [] && FirstHit(g, dests, p) then multiset(sources)[p[0]] * Ways(g, p) else 0
  }

  /** `m` for every listing of `x` in `cs`, summed from the front: how a loop over `cs`
      that finds `m` things at each `x` adds up. */
  function ListingsTimes<T(==)>(cs: seq<T>, x: T, m: nat): nat
  {
    if cs == [] then 0 else ListingsTimes(cs[..|cs| - 1], x, m) + (if cs[|cs| - 1] == x then m else 0)
  }

  /** The sum is the number of listings of `x` times `m`. */
  lemma {:induction false} ListingsTimesIsProduct<T>(cs: seq<T>, x: T, m: nat)
    ensures ListingsTimes(cs, x, m) == multiset(cs)[x] * m
    decreases |cs|
  {
    if cs != [] {
      var init, c := cs[..|cs| - 1], cs[|cs| - 1];
      ListingsTimesIsProduct(init, x, m);
      assert cs == init + [c];
      assert multiset(cs) == multiset(init) + multiset{c};
      assert multiset(cs)[x] == multiset(init)[x] + (if c == x then 1 else 0);
    }
  }

  /** The ways to spell `q` as a walk that stops at the first destination, following the
      shape of `dfs`: a destination ends the walk, anything else needs a listed next vertex. */
  ghost function Spellings<T(!new)>(g: Digraph<T>, dests: set<T>, q: seq<T>): nat
    decreases |q|
  {
    if q == [] then 0
    else if q[0] in dests then (if |q| == 1 then 1 else 0)
    else if |q| == 1 then 0
    else ListingsTimes(Children(g, q[0]), q[1], Spellings(g, dests, q[1..]))
  }

  /** A first-hit walk of two or more vertices starts with an edge out of a non-destination,
      and its tail is again a first-hit walk. */
  lemma FirstHitTail<T(!new)>(g: Digraph<T>, dests: set<T>, q: seq<T>)
    requires FirstHit(g, dests, q) && |q| > 1
    ensures q[0] !in dests && Edge(g, q[0], q[1]) && FirstHit(g, dests, q[1..])
  {
    var rest := q[1..];
    forall i | 0 <= i < |rest| - 1
      ensures Edge(g, rest[i], rest[i + 1]) && rest[i] !in dests
    {
      assert rest[i] == q[i + 1] && rest[i + 1] == q[i + 2];
    }
  }

  /** The spellings of `q` are nonzero exactly for first-hit walks, and then they are its `Ways`. */
  lemma {:induction false} SpellingsOfFirstHit<T(!new)>(g: Digraph<T>, dests: set<T>, q: seq<T>)
    ensures Spellings(g, dests, q) == if q != [] && FirstHit(g, dests, q) then Ways(g, q) else 0
    decreases |q|
  {
    if |q| > 1 && q[0] !in dests {
      var rest := q[1..];
      SpellingsOfFirstHit(g, dests, rest);
      ListingsTimesIsProduct(Children(g, q[0]), q[1], Spellings(g, dests, rest));
      if FirstHit(g, dests, q) {
        FirstHitTail(g, dests, q);
      }
      if FirstHit(g, dests, rest) && rest[0] in Children(g, q[0]) {
        assert [q[0]] + rest == q;
        FirstHitPrepend(g, dests, q[0], rest);
      }
    } else if |q| > 1 {
      assert !FirstHit(g, dests, q);
    }
  }

  /** How often `dfs` finds `p` from `v` after the working path `prefix`: the spellings of the
      rest of `p`, when `p` extends `prefix` by a walk from `v`. */
  lemma {:induction false} EnumerateMultiplicity<T(!new)>(g: Digraph<T>, dests: set<T>, prefix: seq<T>, v: T,
                                                         rank: map<T, nat>, p: seq<T>)
    requires IsRank(g, rank)
    ensures multiset(Enumerate(g, dests, prefix, v, rank))[p] ==
            if |p| > |prefix| && p[..|prefix|] == prefix && p[|prefix|] == v then Spellings(g, dests, p[|prefix|..]) else 0
    decreases RankOf(rank, v), |Children(g, v)| + 1
  {
    if v in dests {
      SpellingsAtDestination(g, dests, prefix, v, p);
    } else {
      ChildRanksLower(g, rank, v);
      EnumerateChildrenMultiplicity(g, dests, prefix + [v], Children(g, v), rank, RankOf(rank, v), p);
      SpellingsStep(g, dests, prefix, v, p);
    }
  }

  /** At a destination the only spelling after `prefix` is `prefix + [v]` itself. */
  lemma SpellingsAtDestination<T(!new)>(g: Digraph<T>, dests: set<T>, prefix: seq<T>, v: T, p: seq<T>)
    requires v in dests
    ensures (if |p| > |prefix| && p[..|prefix|] == prefix && p[|prefix|] == v then Spellings(g, dests, p[|prefix|..]) else 0) ==
            multiset([prefix + [v]])[p]
  {
    var n := |prefix|;
    if |p| == n + 1 {
      assert p == p[..n] + [p[n]] && p[n..] == [p[n]];
    }
  }

  /** Past a non-destination `v`, the spellings after `prefix` are those after `prefix + [v]`,
      tallied over the listings of the next vertex among `v`'s children. */
  lemma SpellingsStep<T(!new)>(g: Digraph<T>, dests: set<T>, prefix: seq<T>, v: T, p: seq<T>)
    requires v !in dests
    ensures (if |p| > |prefix| && p[..|prefix|] == prefix && p[|prefix|] == v then Spellings(g, dests, p[|prefix|..]) else 0) ==
            (if |p| > |prefix| + 1 && p[..|prefix| + 1] == prefix + [v]
             then ListingsTimes(Children(g, v), p[|prefix| + 1], Spellings(g, dests, p[|prefix| + 1..])) else 0)
  {
    var n := |prefix|;
    if |p| > n {
      assert p[..n + 1] == p[..n] + [p[n]];
    }
    if |p| > n + 1 {
      assert p[n..][1..] == p[n + 1..];
    }
  }

  /** How often the children's loop finds `p`: the spellings of the rest of `p` from a child,
      counted once per listing of that child. */
  lemma {:induction false} EnumerateChildrenMultiplicity<T(!new)>(g: Digraph<T>, dests: set<T>, prefix: seq<T>,
                                                                 cs: seq<T>, rank: map<T, nat>, bound: nat, p: seq<T>)
    requires IsRank(g, rank) && forall c :: c in cs ==> RankOf(rank, c) < bound
    ensures multiset(EnumerateChildren(g, dests, prefix, cs, rank, bound))[p] ==
            if |p| > |prefix| && p[..|prefix|] == prefix then ListingsTimes(cs, p[|prefix|], Spellings(g, dests, p[|prefix|..])) else 0
    decreases bound, |cs|
  {
    if cs != [] {
      var init, c := cs[..|cs| - 1], cs[|cs| - 1];
      EnumerateChildrenMultiplicity(g, dests, prefix, init, rank, bound, p);
      EnumerateMultiplicity(g, dests, prefix, c, rank, p);
      assert multiset(EnumerateChildren(g, dests, prefix, cs, rank, bound)) ==
             multiset(EnumerateChildren(g, dests, prefix, init, rank, bound)) + multiset(Enumerate(g, dests, prefix, c, rank));
    }
  }

  /** The constructor's list holds each path once per listing of its start among the sources
      and per spelling. */
  lemma {:induction false} FromSourcesSpellings<T(!new)>(g: Digraph<T>, dests: set<T>, sources: seq<T>,
                                                        rank: map<T, nat>, p: seq<T>)
    requires IsRank(g, rank)
    ensures multiset(FromSources(g, dests, sources, rank))[p] ==
            if p != [] then ListingsTimes(sources, p[0], Spellings(g, dests, p)) else 0
    decreases |sources|
  {
    if sources != [] {
      var init, s := sources[..|sources| - 1], sources[|sources| - 1];
      FromSourcesSpellings(g, dests, init, rank, p);
      EnumerateMultiplicity(g, dests, [], s, rank, p);
      assert multiset(FromSources(g, dests, sources, rank)) ==
             multiset(FromSources(g, dests, init, rank)) + multiset(Enumerate(g, dests, [], s, rank));
      if p != [] {
        assert p[0..] == p && p[..0] == [];
      }
    }
  }

  /** The constructor's list holds each path as often as `Copies` says. */
  lemma FromSourcesMultiplicity<T(!new)>(g: Digraph<T>, dests: set<T>, sources: seq<T>, rank: map<T, nat>, p: seq<T>)
    requires IsRank(g, rank)
    ensures multiset(FromSources(g, dests, sources, rank))[p] == Copies(g, dests, sources, p)
  {
    FromSourcesSpellings(g, dests, sources, rank, p);
    SpellingsOfFirstHit(g, dests, p);
    if p != [] {
      ListingsTimesIsProduct(sources, p[0], Spellings(g, dests, p));
    }
  }

  class AllPaths<T(==,!new)> {
    const dag: Digraph<T>
    const destinations: set<T>
    /** The sources the constructor searched from, in order. */
    ghost const sources: seq<T>
    /** A finish rank of `dag`; it exists since the digraph passed the cycle check. */
    ghost const rank: map<T, nat>
    /** The paths found so far (the list builder). */
    var paths: seq<seq<T>>
    /** The working path of the backtracking search. */
    var path: seq<T>

    ghost predicate Valid()
    {
      IsRank(dag, rank)
    }

    /** The state after construction: every source searched, the working path empty. */
    ghost predicate Built()
      reads this
    {
      Valid() && path == [] && paths == FromSources(dag, destinations, sources, rank)
    }

    /** `new AllPaths(dag, sources, destinations)`: the cycle check, then `dfs` from every source.
        A digraph with a cycle is refused with the walk found. */
    static method Create(dag: Digraph<T>, sources: seq<T>, destinations: seq<T>) returns (r: Result<AllPaths<T>, seq<T>>)
      ensures r.Failure? <==> !Acyclic(dag)
      ensures r.Failure? ==> IsClosedWalk(dag, r.error)
      ensures r.Success? ==> fresh(r.value) && r.value.Built() && r.value.dag == dag &&
                             r.value.sources == sources && r.value.destinations == (set d | d in destinations)
    {
      var finder := new CycleDetection.Cycle(dag);
      if finder.HasCycle() {
        return Failure(finder.Witness());
      }
      var enumerator := new AllPaths(dag, sources, destinations, finder.rank);
      return Success(enumerator);
    }

    /** The part of the constructor after the cycle check. */
    constructor (dag: Digraph<T>, sources: seq<T>, destinations: seq<T>, ghost rank: map<T, nat>)
      requires IsRank(dag, rank)
      ensures Built() && this.dag == dag && this.rank == rank && this.sources == sources
      ensures this.destinations == (set d | d in destinations)
    {
      this.dag, this.rank, this.sources := dag, rank, sources;
      this.destinations := set d | d in destinations;
      paths, path := [], [];
      new;
      for k := 0 to |sources|
        invariant Valid() && path == []
        invariant paths == FromSources(dag, this.destinations, sources[..k], rank)
      {
        Dfs(sources[k]);
        assert sources[..k + 1][..k] == sources[..k];
      }
      assert sources[..|sources|] == sources;
    }

    /** The backtracking `dfs`: extend the working path by `parent`, record it at a destination
        or else search from every child in turn, then drop `parent` again. */
    method Dfs(parent: T)
      requires Valid()
      modifies this
      ensures path == old(path)
      ensures paths == old(paths) + Enumerate(dag, destinations, old(path), parent, rank)
      decreases RankOf(rank, parent)
    {
      path := path + [parent];
      if parent in destinations {
        paths := paths + [path];
      } else {
        var children := Children(dag, parent);
        ChildRanksLower(dag, rank, parent);
        for i := 0 to |children|
          invariant path == old(path) + [parent]
          invariant paths == old(paths) +
            EnumerateChildren(dag, destinations, old(path) + [parent], children[..i], rank, RankOf(rank, parent))
        {
          Dfs(children[i]);
          assert children[..i + 1][..i] == children[..i];
        }
        assert children[..|children|] == children;
      }
      path := path[..|path| - 1];
    }

    /** `paths()`: exactly the walks from a source that stop at the first destination,
        one per source occurrence and walk. */
    function Paths(): (ps: seq<seq<T>>)
      reads this
      requires Built()
      ensures forall p :: p in ps <==> p != [] && p[0] in sources && FirstHit(dag, destinations, p)
      ensures |ps| == SourcesPathCount(dag, destinations, sources, rank)
      ensures forall p :: multiset(ps)[p] == Copies(dag, destinations, sources, p)
    {
      forall p
        ensures multiset(paths)[p] == Copies(dag, destinations, sources, p)
      {
        FromSourcesMultiplicity(dag, destinations, sources, rank, p);
      }
      FromSourcesCount(dag, destinations, sources, rank);
      forall p
        ensures p in paths <==> p != [] && p[0] in sources && FirstHit(dag, destinations, p)
      {
        FromSourcesExact(dag, destinations, sources, rank, p);
      }
      paths
    }
  }
}
