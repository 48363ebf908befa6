/** Topological sort as reverse depth-first postorder (TopologicalSort.java). */
module TopologicalOrdering {
  import opened Wrappers
  import opened Digraphs
  import CycleDetection

  /** Every edge between entries of `s` goes forward. */
  ghost predicate EdgesForward<T(!new)>(g: Digraph<T>, s: seq<T>)
  {
    forall i, j :: 0 <= i < |s| && 0 <= j < |s| && Edge(g, s[i], s[j]) ==> i < j
  }

  /** `s` lists every vertex exactly once, and every edge goes forward. */
  ghost predicate IsTopologicalOrder<T(!new)>(g: Digraph<T>, s: seq<T>)
  {
    NoDuplicates(s) && (forall v :: v in s <==> v in Vertices(g)) && EdgesForward(g, s)
  }

  /** Entry `i` of the recursion stack is a child of entry `i - 1`. */
  ghost predicate StackEdge<T(!new)>(g: Digraph<T>, s: seq<T>, i: nat)
    requires 0 < i < |s|
  {
    Edge(g, s[i - 1], s[i])
  }

  ghost predicate StackWalk<T(!new)>(g: Digraph<T>, s: seq<T>)
  {
    forall i :: 0 < i < |s| ==> StackEdge(g, s, i)
  }

  /** In a dag, no child of the top of the stack is on the stack. */
  lemma NoBackEdge<T(!new)>(g: Digraph<T>, s: seq<T>, c: T)
    requires Acyclic(g) && StackWalk(g, s) && s != [] && Edge(g, s[|s| - 1], c)
    ensures c !in s
  {
    if c in s {
      var j :| 0 <= j < |s| && s[j] == c;
      var w := s[j..] + [c];
      forall k | 0 <= k < |w| - 1
        ensures Edge(g, w[k], w[k + 1])
      {
        if k < |s| - 1 - j {
          assert StackEdge(g, s, j + k + 1);
        }
      }
      assert IsClosedWalk(g, w);
    }
  }

  lemma StackPush<T(!new)>(g: Digraph<T>, s: seq<T>, v: T)
    requires StackWalk(g, s) && (s != [] ==> Edge(g, s[|s| - 1], v))
    ensures StackWalk(g, s + [v])
  {
    var t := s + [v];
    forall i | 0 < i < |t|
      ensures StackEdge(g, t, i)
    {
      if i < |s| {
        assert StackEdge(g, s, i);
      }
    }
  }

  lemma StackPop<T(!new)>(g: Digraph<T>, s: seq<T>)
    requires StackWalk(g, s) && s != []
    ensures StackWalk(g, s[..|s| - 1])
  {
    var t := s[..|s| - 1];
    forall i | 0 < i < |t|
      ensures StackEdge(g, t, i)
    {
      assert StackEdge(g, s, i);
    }
  }

  /** Prepending a vertex that is new and whose children are all listed keeps every edge forward. */
  lemma PrependFinished<T(!new)>(g: Digraph<T>, order: seq<T>, v: T)
    requires EdgesForward(g, order) && v !in order
    requires forall c :: c in Children(g, v) ==> c in order
    requires forall u, c :: u in order && c in Children(g, u) ==> c in order
    ensures EdgesForward(g, [v] + order)
  {
    var t := [v] + order;
    forall i, j | 0 <= i < |t| && 0 <= j < |t| && Edge(g, t[i], t[j])
      ensures i < j
    {
      if i > 0 {
        assert t[i] == order[i - 1];
      }
      if j > 0 {
        assert t[j] == order[j - 1];
      }
    }
  }

  /** A topological order is a witness that the digraph has no directed cycle. */
  lemma {:induction false} TopologicalImpliesAcyclic<T(!new)>(g: Digraph<T>, s: seq<T>)
    requires IsTopologicalOrder(g, s)
    ensures Acyclic(g)
  {
    var rank := map i | 0 <= i < |s| :: s[i] := |s| - 1 - i;
    forall u, c | u in rank && c in Children(g, u)
      ensures c in rank && rank[c] < rank[u]
    {
      var i :| 0 <= i < |s| && s[i] == u;
      assert c in Vertices(g);
      var j :| 0 <= j < |s| && s[j] == c;
      assert rank[u] == |s| - 1 - i && rank[c] == |s| - 1 - j;
    }
    forall v | v in Vertices(g)
      ensures v in rank
    {
      var i :| 0 <= i < |s| && s[i] == v;
    }
    assert IsRank(g, rank);
    RankedIsAcyclic(g, rank);
  }

  /** A vertex reachable from `a` by at least one edge comes after `a`. */
  lemma {:induction false} ReachableComesLater<T(!new)>(g: Digraph<T>, s: seq<T>, p: seq<T>, i: nat, j: nat)
    requires IsTopologicalOrder(g, s) && IsWalk(g, p) && |p| >= 2
    requires i < |s| && j < |s| && s[i] == p[0] && s[j] == p[|p| - 1]
    ensures i < j
    decreases |p|
  {
    assert Edge(g, p[0], p[1]);
    assert p[1] in Vertices(g);
    var k :| 0 <= k < |s| && s[k] == p[1];
    if |p| > 2 {
      assert IsWalk(g, p[1..]);
      ReachableComesLater(g, s, p[1..], k, j);
    }
  }

  class TopologicalSort<T(==,!new)> {
    const dag: Digraph<T>
    var marked: set<T>
    /** The deque; `push` puts a vertex in front. */
    var order: seq<T>
    /** The recursion stack, outermost call first. */
    ghost var stack: seq<T>
    /** The vertices of `order`, as a set. */
    ghost var done: set<T>

    /** Marked vertices are finished (in `order`) or active (on the stack), never both;
        finished vertices have finished children and every edge among them goes forward. */
    ghost predicate Valid()
      reads this
    {
      Acyclic(dag) && marked <= Vertices(dag) &&
      NoDuplicates(order) && NoDuplicates(stack) &&
      (forall v :: v in order <==> v in done) &&
      (forall v :: v in marked <==> v in done || v in stack) &&
      (forall v :: v in stack ==> v !in done) &&
      StackWalk(dag, stack) &&
      (forall u, c :: u in done && c in Children(dag, u) ==> c in done) &&
      EdgesForward(dag, order)
    }

    /** `new TopologicalSort(dag)`: the cycle check, then `dfs` from every unmarked vertex.
        A digraph with a cycle is refused with the walk found. */
    static method Create(dag: Digraph<T>) returns (r: Result<TopologicalSort<T>, seq<T>>)
      ensures r.Failure? <==> !Acyclic(dag)
      ensures r.Failure? ==> IsClosedWalk(dag, r.error)
      ensures r.Success? ==> fresh(r.value) && r.value.dag == dag && IsTopologicalOrder(dag, r.value.order)
    {
      var finder := new CycleDetection.Cycle(dag);
      if finder.HasCycle() {
        return Failure(finder.Witness());
      }
      var sorter := new TopologicalSort(dag);
      return Success(sorter);
    }

    /** The part of the constructor after the cycle check. */
    constructor (dag: Digraph<T>)
      requires Acyclic(dag)
      ensures this.dag == dag && IsTopologicalOrder(dag, order) && stack == []
    {
      this.dag := dag;
      marked, order, stack, done := {}, [], [], {};
      new;
      var open := Vertices(dag);
      while open != {}
        invariant Valid() && stack == [] && open <= Vertices(dag)
        invariant Vertices(dag) - open <= marked
        decreases open
      {
        var vertex :| vertex in open;
        if vertex !in marked {
          SubsetCardinality(marked, Vertices(dag));
          Visit(vertex);
        }
        open := open - {vertex};
      }
    }

    /** The recursive `dfs`: mark, visit the unmarked children, then push the vertex in front. */
    method Visit(vertex: T)
      requires Valid() && vertex in Vertices(dag) && vertex !in marked
      requires stack != [] ==> Edge(dag, stack[|stack| - 1], vertex)
      modifies this
      ensures Valid() && old(marked) + {vertex} <= marked && stack == old(stack)
      ensures vertex in done && old(done) <= done
      decreases |Vertices(dag)| - |marked|, 0
    {
      Enter(vertex);
      SubsetCardinality(marked, Vertices(dag));
      VisitChildren(vertex);
      Finish(vertex);
    }

    /** The loop of `dfs` over the children of `vertex`, which is on top of the stack. */
    method VisitChildren(vertex: T)
      requires Valid() && stack != [] && stack[|stack| - 1] == vertex
      modifies this
      ensures Valid() && old(marked) <= marked && stack == old(stack)
      ensures old(done) <= done
      ensures forall c :: c in Children(dag, vertex) ==> c in done
      decreases |Vertices(dag)| - |marked|, 2
    {
      var children := Children(dag, vertex);
      var i := 0;
      while i < |children|
        invariant 0 <= i <= |children|
        invariant Valid() && old(marked) <= marked && stack == old(stack)
        invariant old(done) <= done
        invariant forall j :: 0 <= j < i ==> children[j] in done
      {
        SubsetCardinality(old(marked), marked);
        SubsetCardinality(marked, Vertices(dag));
        VisitChild(vertex, children[i]);
        i := i + 1;
      }
    }

    /** One turn of the loop in `dfs`: descend into `progeny` unless it is marked,
        in which case it is already finished since the digraph is acyclic. */
    method VisitChild(vertex: T, progeny: T)
      requires Valid() && stack != [] && stack[|stack| - 1] == vertex && Edge(dag, vertex, progeny)
      modifies this
      ensures Valid() && old(marked) <= marked && stack == old(stack) && progeny in done
      ensures old(done) <= done
      decreases |Vertices(dag)| - |marked|, 1
    {
      if progeny !in marked {
        Visit(progeny);
      } else {
        NoBackEdge(dag, stack, progeny);
      }
    }

    /** `marked.add(vertex)`, and the call enters the stack. */
    method Enter(vertex: T)
      requires Valid() && vertex in Vertices(dag) && vertex !in marked
      requires stack != [] ==> Edge(dag, stack[|stack| - 1], vertex)
      modifies this
      ensures Valid() && marked == old(marked) + {vertex} && order == old(order) && done == old(done)
      ensures stack == old(stack) + [vertex]
    {
      StackPush(dag, stack, vertex);
      marked := marked + {vertex};
      stack := stack + [vertex];
    }

    /** `order.push(vertex)` once every child is finished, and the call leaves the stack. */
    method Finish(vertex: T)
      requires Valid() && stack != [] && stack[|stack| - 1] == vertex
      requires forall c :: c in Children(dag, vertex) ==> c in done
      modifies this
      ensures Valid() && marked == old(marked) && order == [vertex] + old(order)
      ensures done == old(done) + {vertex}
      ensures stack == old(stack)[..|old(stack)| - 1]
    {
      PrependFinished(dag, order, vertex);
      StackPop(dag, stack);
      ghost var s := stack;
      assert forall v :: v in s[..|s| - 1] ==> v in s && v != vertex by {
        forall v | v in s[..|s| - 1]
          ensures v in s && v != vertex
        {
          var k :| 0 <= k < |s| - 1 && s[k] == v;
          assert s[k] != s[|s| - 1];
        }
      }
      assert s == s[..|s| - 1] + [vertex];
      order := [vertex] + order;
      stack := stack[..|stack| - 1];
      done := done + {vertex};
    }

    /** `iterator()`: the order computed at construction. */
    function Order(): (s: seq<T>)
      reads this
      requires IsTopologicalOrder(dag, order)
      ensures IsTopologicalOrder(dag, s)
      ensures forall u, v, i, j ::
        (0 <= i < |s| && 0 <= j < |s| && s[i] == u && s[j] == v && u != v && Reachable(dag, u, v)) ==> i < j
    {
      forall u, v, i, j | 0 <= i < |order| && 0 <= j < |order| && order[i] == u && order[j] == v &&
                           u != v && Reachable(dag, u, v)
        ensures i < j
      {
        var p :| WalkFromTo(dag, p, u, v);
        ReachableComesLater(dag, order, p, i, j);
      }
      order
    }
  }
}
