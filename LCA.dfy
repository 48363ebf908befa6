/** Least common ancestor on a digraph: one breadth-first search per query vertex, kept in a memo,
    and the common vertex whose two distances add up to the least (LCA.java). */
module LowestCommonAncestor {
  import opened Wrappers
  import opened Digraphs
  import opened BreadthFirstPaths

  /** `x` is reachable from both `v` and `w`. */
  ghost predicate Common<T(!new)>(g: Digraph<T>, v: T, w: T, x: T)
  {
    Reachable(g, v, x) && Reachable(g, w, x)
  }

  /** The fewest edges on a walk from `v` to `x`. */
  ghost function Dist<T(!new)>(g: Digraph<T>, v: T, x: T): (n: nat)
    requires Reachable(g, v, x)
    ensures ShortestFromAny(g, [v], x, n)
  {
    FromAnyIffFromOne(g, [v], x);
    var p :| WalkFromAny(g, [v], p, x);
    ShortestExists(g, [v], x, p);
    var n :| ShortestFromAny(g, [v], x, n);
    n
  }

  /** The summed distance from `v` and from `w` to `x`, or `Infinity` unless `x` is reachable from both. */
  ghost function Score<T(!new)>(g: Digraph<T>, v: T, w: T, x: T): (d: Distance)
    ensures d.Finite? <==> Common(g, v, w, x)
  {
    if Common(g, v, w, x) then Finite(Dist(g, v, x) + Dist(g, w, x)) else Infinity
  }

  /** The score of each vertex of `s`, in order. */
  ghost function Scores<T(!new)>(g: Digraph<T>, v: T, w: T, s: seq<T>): (ds: seq<Distance>)
    ensures |ds| == |s|
  {
    if s == [] then [] else [Score(g, v, w, s[0])] + Scores(g, v, w, s[1..])
  }

  /** The `i`-th score is the score of the `i`-th vertex. */
  lemma {:induction false} ScoresAt<T(!new)>(g: Digraph<T>, v: T, w: T, s: seq<T>, i: int)
    requires 0 <= i < |s|
    ensures Scores(g, v, w, s)[i] == Score(g, v, w, s[i])
    decreases i
  {
    if i > 0 {
      ScoresAt(g, v, w, s[1..], i - 1);
    }
  }

  /** `a` is strictly less than `b`, with `Infinity` above every finite distance. */
  predicate Below(a: Distance, b: Distance)
  {
    a.Finite? && (b.Infinity? || a.hops < b.hops)
  }

  /** `best` is the least of `ds`, or `Infinity` when `ds` holds no finite distance. */
  predicate IsMinimum(ds: seq<Distance>, best: Distance)
  {
    (best.Infinity? || best in ds) && forall i :: 0 <= i < |ds| ==> !Below(ds[i], best)
  }

  /** `ds[k]` is finite and the least of `ds`, and no earlier entry is as small. */
  predicate IsFirstMinimum(ds: seq<Distance>, k: int)
  {
    0 <= k < |ds| && ds[k].Finite? &&
    (forall j :: 0 <= j < |ds| ==> !Below(ds[j], ds[k])) &&
    (forall j :: 0 <= j < k ==> Below(ds[k], ds[j]))
  }

  /** `a` is the first vertex of `s` with the least summed distance, or `None` when no vertex of
      `s` is reachable from both `v` and `w`. */
  ghost predicate FirstMinimumIn<T(!new)>(g: Digraph<T>, v: T, w: T, s: seq<T>, a: Option<T>)
  {
    var ds := Scores(g, v, w, s);
    (a.None? <==> forall i :: 0 <= i < |ds| ==> ds[i].Infinity?) &&
    (a.Some? ==> exists k :: IsFirstMinimum(ds, k) && s[k] == a.value)
  }

  /** The scores do not depend on the order of the two query vertices. */
  lemma {:induction false} ScoresSymmetric<T(!new)>(g: Digraph<T>, v: T, w: T, s: seq<T>)
    ensures Scores(g, v, w, s) == Scores(g, w, v, s)
  {
    if s != [] {
      assert Score(g, v, w, s[0]) == Score(g, w, v, s[0]);
      ScoresSymmetric(g, v, w, s[1..]);
    }
  }

  /** `length(v, w)` and `length(w, v)` are held to the same minimum. */
  lemma LengthSymmetric<T(!new)>(g: Digraph<T>, v: T, w: T, s: seq<T>, d: Distance)
    ensures IsMinimum(Scores(g, v, w, s), d) <==> IsMinimum(Scores(g, w, v, s), d)
  {
    ScoresSymmetric(g, v, w, s);
  }

  /** `ancestor(v, w)` and `ancestor(w, v)` are held to the same first minimum. */
  lemma AncestorSymmetric<T(!new)>(g: Digraph<T>, v: T, w: T, s: seq<T>, a: Option<T>)
    ensures FirstMinimumIn(g, v, w, s, a) <==> FirstMinimumIn(g, w, v, s, a)
  {
    ScoresSymmetric(g, v, w, s);
  }

  /** There is only one least distance. */
  lemma MinimumUnique(ds: seq<Distance>, a: Distance, b: Distance)
    requires IsMinimum(ds, a) && IsMinimum(ds, b)
    ensures a == b
  {
  }

  /** There is only one first least entry. */
  lemma FirstMinimumUnique(ds: seq<Distance>, k: int, l: int)
    requires IsFirstMinimum(ds, k) && IsFirstMinimum(ds, l)
    ensures k == l
  {
  }

  /** Scanning one more entry: a strictly smaller entry becomes the minimum. */
  lemma MinimumStep(ds: seq<Distance>, best: Distance, d: Distance)
    requires IsMinimum(ds, best)
    ensures IsMinimum(ds + [d], if Below(d, best) then d else best)
  {
  }

  /** An entry strictly below the minimum is strictly below every entry. */
  lemma BelowMinimum(ds: seq<Distance>, n: int, best: Distance, d: Distance)
    requires 0 <= n <= |ds| && IsMinimum(ds[..n], best) && Below(d, best)
    ensures forall j :: 0 <= j < n ==> Below(d, ds[j])
  {
    assert forall j :: 0 <= j < n ==> ds[..n][j] == ds[j];
  }

  /** The end of the scan of `ancestor`: the minimum and the index where it first appeared. */
  lemma FirstMinimumFound(ds: seq<Distance>, best: Distance, at: int)
    requires IsMinimum(ds, best)
    requires best.Finite? ==> 0 <= at < |ds| && ds[at] == best && forall j :: 0 <= j < at ==> Below(best, ds[j])
    ensures best.Infinity? <==> forall i :: 0 <= i < |ds| ==> ds[i].Infinity?
    ensures best.Finite? ==> IsFirstMinimum(ds, at)
  {
  }

  /** The first least entry holds the least distance, and exists exactly when some entry is finite. */
  lemma FirstMinimumAttains(ds: seq<Distance>, best: Distance)
    requires IsMinimum(ds, best)
    ensures best.Infinity? <==> forall i :: 0 <= i < |ds| ==> ds[i].Infinity?
    ensures forall k :: IsFirstMinimum(ds, k) ==> ds[k] == best
  {
  }

  /** What the least summed distance means for the vertices of `s`: `Infinity` when none is
      reachable from both, and otherwise attained by one and at most that of every other. */
  lemma LengthMeaning<T(!new)>(g: Digraph<T>, v: T, w: T, s: seq<T>, best: Distance)
    requires IsMinimum(Scores(g, v, w, s), best)
    ensures best.Infinity? <==> forall x :: x in s ==> !Common(g, v, w, x)
    ensures best.Finite? ==> exists x :: x in s && Common(g, v, w, x) && best.hops == Dist(g, v, x) + Dist(g, w, x)
    ensures best.Finite? ==> forall x :: x in s && Common(g, v, w, x) ==> best.hops <= Dist(g, v, x) + Dist(g, w, x)
  {
    var ds := Scores(g, v, w, s);
    forall i | 0 <= i < |s|
      ensures ds[i] == Score(g, v, w, s[i])
    {
      ScoresAt(g, v, w, s, i);
    }
    if best.Finite? {
      var i :| 0 <= i < |ds| && ds[i] == best;
      assert s[i] in s;
    }
  }

  /** What the first minimal common vertex means: it is reachable from both query vertices, and its
      summed distance is at most that of every vertex of `s` reachable from both. */
  lemma AncestorMeaning<T(!new)>(g: Digraph<T>, v: T, w: T, s: seq<T>, a: T)
    requires FirstMinimumIn(g, v, w, s, Some(a))
    ensures Common(g, v, w, a) && a in s
    ensures forall x :: x in s && Common(g, v, w, x) ==> Dist(g, v, a) + Dist(g, w, a) <= Dist(g, v, x) + Dist(g, w, x)
  {
    var ds := Scores(g, v, w, s);
    forall i | 0 <= i < |s|
      ensures ds[i] == Score(g, v, w, s[i])
    {
      ScoresAt(g, v, w, s, i);
    }
    var k :| IsFirstMinimum(ds, k) && s[k] == a;
  }

  /** A vertex reached from the ancestors of both halves is reached from every vertex of either. */
  lemma HalvesReach<T(!new)>(g: Digraph<T>, front: seq<T>, back: seq<T>, l: T, m: T, a: T)
    requires forall x :: x in front ==> Reachable(g, x, l)
    requires forall x :: x in back ==> Reachable(g, x, m)
    requires Reachable(g, l, a) && Reachable(g, m, a)
    ensures forall x :: x in front + back ==> Reachable(g, x, a)
  {
    forall x | x in front + back
      ensures Reachable(g, x, a)
    {
      if x in front {
        ReachableTrans(g, x, l, a);
      } else {
        ReachableTrans(g, x, m, a);
      }
    }
  }

  /** At most one answer is the first minimum. */
  lemma FirstMinimumInUnique<T(!new)>(g: Digraph<T>, v: T, w: T, s: seq<T>, a: Option<T>, b: Option<T>)
    requires FirstMinimumIn(g, v, w, s, a) && FirstMinimumIn(g, v, w, s, b)
    ensures a == b
  {
    var ds := Scores(g, v, w, s);
    if a.Some? && b.Some? {
      var k :| IsFirstMinimum(ds, k) && s[k] == a.value;
      var l :| IsFirstMinimum(ds, l) && s[l] == b.value;
      FirstMinimumUnique(ds, k, l);
    }
  }

  /** The answer of `ancestor(v, w)`: the one value that is the first minimum. */
  ghost function PairAnswer<T(!new)>(g: Digraph<T>, v: T, w: T, s: seq<T>): Option<T>
  {
    if exists a :: FirstMinimumIn(g, v, w, s, a) then
      var a :| FirstMinimumIn(g, v, w, s, a); a
    else None
  }

  lemma PairAnswerIs<T(!new)>(g: Digraph<T>, v: T, w: T, s: seq<T>, a: Option<T>)
    requires FirstMinimumIn(g, v, w, s, a)
    ensures PairAnswer(g, v, w, s) == a
  {
    FirstMinimumInUnique(g, v, w, s, PairAnswer(g, v, w, s), a);
  }

  /** The answer of `ancestor(vs)` over the scan order `s`: absence, the element, the pairwise
      answer, or `ancestor(l, m)` of the answers `l`, `m` of the halves `[0, n/2)` and `[n/2, n)`.
      A failing half's failure is passed on, and a half without an answer is the failure. */
  ghost function ListAnswer<T(!new)>(g: Digraph<T>, s: seq<T>, vs: seq<T>): Result<Option<T>, seq<T>>
    decreases |vs|
  {
    if |vs| == 0 then Success(None)
    else if |vs| == 1 then Success(Some(vs[0]))
    else if |vs| == 2 then Success(PairAnswer(g, vs[0], vs[1], s))
    else
      var front, back := vs[..|vs| / 2], vs[|vs| / 2..];
      var left, right := ListAnswer(g, s, front), ListAnswer(g, s, back);
      if left.Failure? then left
      else if right.Failure? then right
      else if left.value.None? then Failure(front)
      else if right.value.None? then Failure(back)
      else Success(PairAnswer(g, left.value.value, right.value.value, s))
  }

  /** `e` is a contiguous run of at least two vertices of `vs` that has no answer of its own. */
  ghost predicate UnansweredRun<T(!new)>(g: Digraph<T>, s: seq<T>, vs: seq<T>, e: seq<T>)
  {
    exists i, j :: 0 <= i && i + 2 <= j <= |vs| && e == vs[i..j] && ListAnswer(g, s, vs[i..j]) == Success(None)
  }

  /** A run of a contiguous part of `vs` is a run of `vs`. */
  lemma RunWidens<T(!new)>(g: Digraph<T>, s: seq<T>, vs: seq<T>, k: nat, part: seq<T>, e: seq<T>)
    requires k + |part| <= |vs| && part == vs[k..k + |part|] && UnansweredRun(g, s, part, e)
    ensures UnansweredRun(g, s, vs, e)
  {
    var i, j :| 0 <= i && i + 2 <= j <= |part| && e == part[i..j] && ListAnswer(g, s, part[i..j]) == Success(None);
    forall t | 0 <= t < j - i
      ensures part[i..j][t] == vs[k + i..k + j][t]
    {
      assert part[i + t] == vs[k + i + t];
    }
    assert part[i..j] == vs[k + i..k + j];
  }

  /** A failure only arises above two vertices, and carries a contiguous run of at least two
      listed vertices that has no answer of its own. */
  lemma {:induction false} ListFailure<T(!new)>(g: Digraph<T>, s: seq<T>, vs: seq<T>)
    ensures ListAnswer(g, s, vs).Failure? ==> |vs| > 2 && UnansweredRun(g, s, vs, ListAnswer(g, s, vs).error)
    decreases |vs|
  {
    if |vs| > 2 {
      var h := |vs| / 2;
      var front, back := vs[..h], vs[h..];
      var r, left, right := ListAnswer(g, s, vs), ListAnswer(g, s, front), ListAnswer(g, s, back);
      if left.Failure? {
        ListFailure(g, s, front);
        assert r == left;
        RunWidens(g, s, vs, 0, front, r.error);
      } else if right.Failure? {
        ListFailure(g, s, back);
        assert r == right;
        RunWidens(g, s, vs, h, back, r.error);
      } else if left.value.None? {
        assert r == Failure(front) && vs[0..h] == front;
      } else if right.value.None? {
        assert r == Failure(back) && vs[h..|vs|] == back;
      }
    }
  }

  class LCA<T(==,!new)> {
    /** The private copy of the digraph. */
    const digraph: Digraph<T>
    /** The keys and values of the copy, in the set's fixed iteration order. */
    const vertices: seq<T>
    /** The memo `bfsMap`: a finished search from each vertex queried so far. */
    var bfsMap: map<T, BFS<T>>

    /** `b` is a finished search of the copy from `v` alone. */
    ghost predicate Rooted(b: BFS<T>, v: T)
      reads b
    {
      b.digraph == digraph && b.sources == [v] && b.Done()
    }

    ghost predicate Valid()
      reads this, bfsMap.Values
    {
      NoDuplicates(vertices) && (forall x :: x in vertices <==> x in Vertices(digraph)) &&
      forall v :: v in bfsMap ==> Rooted(bfsMap[v], v)
    }

    /** `new LCA(digraph)`: a copy with every parallel edge kept once, and its vertex set. */
    constructor (g: Digraph<T>)
      ensures Valid() && bfsMap == map[]
      ensures forall u, v :: Edge(digraph, u, v) <==> Edge(g, u, v)
      ensures forall u :: NoDuplicates(Children(digraph, u))
    {
      var copy := Collapse(g);
      var order := ListSet(Vertices(copy));
      digraph, vertices, bfsMap := copy, order, map[];
    }

    /** `getBFS(vertex)`: the memoised search from `vertex`, run on first use. */
    method GetBFS(vertex: T) returns (b: BFS<T>)
      requires Valid()
      modifies this
      ensures Valid() && Rooted(b, vertex)
      ensures vertex in old(bfsMap) ==> b == old(bfsMap)[vertex]
      ensures bfsMap == old(bfsMap)[vertex := b]
    {
      if vertex in bfsMap {
        b := bfsMap[vertex];
      } else {
        b := new BFS(digraph, [vertex]);
        bfsMap := bfsMap[vertex := b];
      }
    }

    /** What the memoised searches answer, in terms of the copy. */
    lemma QueryMeaning(b: BFS<T>, v: T, x: T)
      requires Rooted(b, v)
      ensures b.HasPathTo(x) <==> Reachable(digraph, v, x)
      ensures Reachable(digraph, v, x) ==> b.DistTo(x) == Finite(Dist(digraph, v, x))
    {
      FromAnyIffFromOne(digraph, [v], x);
      assert v in [v];
      if Reachable(digraph, v, x) {
        ShortestUnique(digraph, [v], x, b.DistTo(x).hops, Dist(digraph, v, x));
      }
    }

    /** The summed distance the two searches give to the `i`-th vertex: finite when both reach it. */
    function SearchScore(bfsV: BFS<T>, bfsW: BFS<T>, ghost v: T, ghost w: T, i: int): (d: Distance)
      reads bfsV, bfsW
      requires Rooted(bfsV, v) && Rooted(bfsW, w) && 0 <= i < |vertices|
      ensures d == Scores(digraph, v, w, vertices)[i]
    {
      var x := vertices[i];
      QueryMeaning(bfsV, v, x);
      QueryMeaning(bfsW, w, x);
      ScoresAt(digraph, v, w, vertices, i);
      if bfsV.HasPathTo(x) && bfsW.HasPathTo(x)
      then Finite(bfsV.DistTo(x).hops + bfsW.DistTo(x).hops)
      else Infinity
    }

    /** `length(v, w)`: the least summed distance to a common vertex, or -1 when there is none. */
    method Length(v: T, w: T) returns (len: int)
      requires Valid()
      modifies this
      ensures Valid() && len >= -1
      ensures IsMinimum(Scores(digraph, v, w, vertices), if len == -1 then Infinity else Finite(len))
    {
      var bfsV := GetBFS(v);
      var bfsW := GetBFS(w);
      var minimum := MinimumLength(bfsV, bfsW, v, w);
      len := if minimum.Infinity? then -1 else minimum.hops;
    }

    /** The scan of `length`: every vertex both searches reach is a candidate, and a strictly
        smaller sum replaces the minimum found so far. */
    method MinimumLength(bfsV: BFS<T>, bfsW: BFS<T>, ghost v: T, ghost w: T) returns (minimum: Distance)
      requires Rooted(bfsV, v) && Rooted(bfsW, w)
      ensures IsMinimum(Scores(digraph, v, w, vertices), minimum)
    {
      ghost var ds := Scores(digraph, v, w, vertices);
      minimum := Infinity;
      for i := 0 to |vertices|
        invariant IsMinimum(ds[..i], minimum)
      {
        var score := SearchScore(bfsV, bfsW, v, w, i);
        MinimumStep(ds[..i], minimum, score);
        assert ds[..i + 1] == ds[..i] + [score];
        if score.Finite? {
          var length := score.hops;
          if minimum.Infinity? || minimum.hops > length {
            minimum := Finite(length);
          }
        }
      }
      assert ds[..|vertices|] == ds;
    }

    /** `ancestor(v, w)`: the first vertex in scan order with the least summed distance,
        or `None` (null) when no vertex is reachable from both. */
    method Ancestor(v: T, w: T) returns (a: Option<T>)
      requires Valid()
      modifies this
      ensures Valid() && FirstMinimumIn(digraph, v, w, vertices, a)
    {
      var bfsV := GetBFS(v);
      var bfsW := GetBFS(w);
      a := FirstAncestor(bfsV, bfsW, v, w);
    }

    /** The scan of `ancestor`: as in `length`, remembering the vertex of each new minimum. */
    method FirstAncestor(bfsV: BFS<T>, bfsW: BFS<T>, ghost v: T, ghost w: T) returns (ancestor: Option<T>)
      requires Rooted(bfsV, v) && Rooted(bfsW, w)
      ensures FirstMinimumIn(digraph, v, w, vertices, ancestor)
    {
      ghost var ds := Scores(digraph, v, w, vertices);
      var minimum := Infinity;
      ancestor := None;
      ghost var at := 0;
      for i := 0 to |vertices|
        invariant IsMinimum(ds[..i], minimum)
        invariant ancestor.None? <==> minimum.Infinity?
        invariant ancestor.Some? ==> 0 <= at < i && ds[at] == minimum && vertices[at] == ancestor.value &&
                                     forall j :: 0 <= j < at ==> Below(minimum, ds[j])
      {
        var vertex := vertices[i];
        var score := SearchScore(bfsV, bfsW, v, w, i);
        MinimumStep(ds[..i], minimum, score);
        assert ds[..i + 1] == ds[..i] + [score];
        if score.Finite? {
          var length := score.hops;
          if minimum.Infinity? || minimum.hops > length {
            assert Below(score, minimum);
            BelowMinimum(ds, i, minimum, score);
            minimum, ancestor, at := score, Some(vertex), i;
          }
        }
      }
      assert ds[..|vertices|] == ds;
      FirstMinimumFound(ds, minimum, at);
      if ancestor.Some? {
        assert IsFirstMinimum(ds, at) && vertices[at] == ancestor.value;
      }
    }

    /** `ancestor(vertices)`: no ancestor for no vertex, the vertex itself for one, `ancestor(v, w)`
        for two, and otherwise the halves combined. */
    method AncestorOfList(vs: seq<T>) returns (r: Result<Option<T>, seq<T>>)
      requires Valid()
      modifies this
      ensures Valid()
      ensures |vs| == 0 ==> r == Success(None)
      ensures |vs| == 1 ==> r == Success(Some(vs[0]))
      ensures |vs| == 2 ==> r.Success? && FirstMinimumIn(digraph, vs[0], vs[1], vertices, r.value)
      ensures r == ListAnswer(digraph, vertices, vs)
      ensures r.Failure? ==> |vs| > 2 && UnansweredRun(digraph, vertices, vs, r.error)
      ensures r.Success? && r.value.Some? ==> forall x :: x in vs ==> Reachable(digraph, x, r.value.value)
      decreases |vs|, 1
    {
      if |vs| == 0 {
        r := Success(None);
      } else if |vs| == 1 {
        ReachableRefl(digraph, vs[0]);
        r := Success(Some(vs[0]));
      } else if |vs| == 2 {
        var a := Ancestor(vs[0], vs[1]);
        PairAnswerIs(digraph, vs[0], vs[1], vertices, a);
        if a.Some? {
          AncestorMeaning(digraph, vs[0], vs[1], vertices, a.value);
        }
        r := Success(a);
      } else {
        r := AncestorOfHalves(vs);
      }
    }

    /** The default case of `ancestor(vertices)`: `ancestor(v, w)` of the ancestors of the two
        halves. A half without an ancestor (null) makes that call fail on its null vertex;
        `Failure` carries that half. */
    method AncestorOfHalves(vs: seq<T>) returns (r: Result<Option<T>, seq<T>>)
      requires Valid() && |vs| > 2
      modifies this
      ensures Valid()
      ensures r == ListAnswer(digraph, vertices, vs)
      ensures r.Failure? ==> UnansweredRun(digraph, vertices, vs, r.error)
      ensures r.Success? && r.value.Some? ==> forall x :: x in vs ==> Reachable(digraph, x, r.value.value)
      decreases |vs|, 0
    {
      ListFailure(digraph, vertices, vs);
      var n := |vs|;
      var front, back := vs[..n / 2], vs[n / 2..];
      var left := AncestorOfList(front);
      if left.Failure? {
        return left;
      }
      var right := AncestorOfList(back);
      if right.Failure? {
        return right;
      }
      if left.value.None? {
        return Failure(front);
      }
      if right.value.None? {
        return Failure(back);
      }
      var l, m := left.value.value, right.value.value;
      var a := Ancestor(l, m);
      PairAnswerIs(digraph, l, m, vertices, a);
      if a.Some? {
        AncestorMeaning(digraph, l, m, vertices, a.value);
        assert vs == front + back;
        HalvesReach(digraph, front, back, l, m, a.value);
      }
      r := Success(a);
    }

    /** `distTo(descendant, ancestor)`: the fewest edges from `descendant` to `ancestor`, or
        `Infinity` (`Integer.MAX_VALUE`) when there is no walk. */
    method DistTo(descendant: T, ancestor: T) returns (d: Distance)
      requires Valid()
      modifies this
      ensures Valid()
      ensures d.Infinity? <==> !Reachable(digraph, descendant, ancestor)
      ensures d.Finite? ==> Reachable(digraph, descendant, ancestor) && d.hops == Dist(digraph, descendant, ancestor)
    {
      var b := GetBFS(descendant);
      QueryMeaning(b, descendant, ancestor);
      d := b.DistTo(ancestor);
    }

    /** `hasPathTo(descendant, ancestor)`: some walk leads from `descendant` to `ancestor`. */
    method HasPathTo(descendant: T, ancestor: T) returns (b: bool)
      requires Valid()
      modifies this
      ensures Valid()
      ensures b <==> Reachable(digraph, descendant, ancestor)
    {
      var bfs := GetBFS(descendant);
      QueryMeaning(bfs, descendant, ancestor);
      b := bfs.HasPathTo(ancestor);
    }

    /** `pathTo(descendant, ancestor)`: a shortest walk from `descendant` to `ancestor`, or the
        empty sequence when there is none. */
    method PathTo(descendant: T, ancestor: T) returns (path: seq<T>)
      requires Valid()
      modifies this
      ensures Valid()
      ensures path == [] <==> !Reachable(digraph, descendant, ancestor)
      ensures path != [] ==> WalkFromTo(digraph, path, descendant, ancestor) &&
                             |path| == Dist(digraph, descendant, ancestor) + 1
    {
      var bfs := GetBFS(descendant);
      QueryMeaning(bfs, descendant, ancestor);
      path := bfs.PathTo(ancestor);
    }
  }
}
