/** Cycle detection by depth-first search with on-stack flags (Cycle.java). */
module CycleDetection {
  import opened Digraphs

  /** Consecutive stack entries are tree edges: each was discovered from the one below it. */
  ghost predicate TreePath<T(!new)>(g: Digraph<T>, edgeTo: map<T, T>, s: seq<T>)
  {
    forall i :: 0 < i < |s| ==> TreeEdge(g, edgeTo, s, i)
  }

  /** Entry `i` of the stack was discovered from entry `i - 1` along an edge. */
  ghost predicate TreeEdge<T(!new)>(g: Digraph<T>, edgeTo: map<T, T>, s: seq<T>, i: nat)
    requires 0 < i < |s|
  {
    DiscoveredFrom(edgeTo, s[i], s[i - 1]) && Edge(g, s[i - 1], s[i])
  }

  lemma TreePathPush<T(!new)>(g: Digraph<T>, edgeTo: map<T, T>, s: seq<T>, v: T)
    requires TreePath(g, edgeTo, s)
    requires s != [] ==> DiscoveredFrom(edgeTo, v, s[|s| - 1]) && Edge(g, s[|s| - 1], v)
    ensures TreePath(g, edgeTo, s + [v])
  {
    var t := s + [v];
    forall i | 0 < i < |t|
      ensures TreeEdge(g, edgeTo, t, i)
    {
      if i < |s| {
        assert TreeEdge(g, edgeTo, s, i);
      }
    }
  }

  lemma TreePathPop<T(!new)>(g: Digraph<T>, edgeTo: map<T, T>, s: seq<T>)
    requires TreePath(g, edgeTo, s) && s != []
    ensures TreePath(g, edgeTo, s[..|s| - 1])
  {
    var t := s[..|s| - 1];
    forall i | 0 < i < |t|
      ensures TreeEdge(g, edgeTo, t, i)
    {
      assert TreeEdge(g, edgeTo, s, i);
    }
  }

  /** Linking a vertex that is not on the stack leaves the stack's links alone. */
  lemma TreePathRelink<T(!new)>(g: Digraph<T>, edgeTo: map<T, T>, s: seq<T>, x: T, y: T)
    requires TreePath(g, edgeTo, s) && x !in s
    ensures TreePath(g, edgeTo[x := y], s)
  {
    var e := edgeTo[x := y];
    forall i | 0 < i < |s|
      ensures TreeEdge(g, e, s, i)
    {
      assert TreeEdge(g, edgeTo, s, i);
    }
  }

  /** Without duplicates, dropping the top removes exactly the top. */
  lemma PopMembership<T(!new)>(s: seq<T>)
    requires NoDuplicates(s) && s != []
    ensures NoDuplicates(s[..|s| - 1])
    ensures forall v :: v in s[..|s| - 1] <==> v in s && v != s[|s| - 1]
  {
    var n := |s| - 1;
    forall v | v in s[..n]
      ensures v != s[n]
    {
      var k :| 0 <= k < n && s[k] == v;
      assert s[k] != s[n];
    }
    assert forall v :: v in s && v != s[n] ==> v in s[..n] by {
      assert s == s[..n] + [s[n]];
    }
  }

  /** Ranks below `finished`, and every ranked vertex's children ranked lower. */
  ghost predicate FinishRanks<T(!new)>(g: Digraph<T>, rank: map<T, nat>, finished: nat)
  {
    (forall v :: v in rank ==> rank[v] < finished) &&
    (forall u, c :: u in rank && c in Children(g, u) ==> c in rank && rank[c] < rank[u])
  }

  /** Finishing a vertex whose children are all finished keeps the ranks consistent. */
  lemma FinishOne<T(!new)>(g: Digraph<T>, rank: map<T, nat>, finished: nat, v: T)
    requires FinishRanks(g, rank, finished)
    requires v !in rank && forall c :: c in Children(g, v) ==> c in rank
    ensures FinishRanks(g, rank[v := finished], finished + 1)
  {
  }

  ghost predicate DiscoveredFrom<T(!new)>(edgeTo: map<T, T>, child: T, parent: T)
  {
    child in edgeTo && edgeTo[child] == parent
  }

  /** A back edge from the top of the stack to the entry at `j` closes the cycle
      top, s[j], ..., top, whose inner steps are tree edges. */
  lemma BackEdgeClosesCycle<T(!new)>(g: Digraph<T>, edgeTo: map<T, T>, s: seq<T>, j: nat)
    requires TreePath(g, edgeTo, s) && j < |s| && Edge(g, s[|s| - 1], s[j])
    ensures IsClosedWalk(g, [s[|s| - 1]] + s[j..])
    ensures var w := [s[|s| - 1]] + s[j..];
      forall k :: 1 <= k < |w| - 1 ==> DiscoveredFrom(edgeTo, w[k + 1], w[k])
  {
    var w := [s[|s| - 1]] + s[j..];
    forall k | 1 <= k < |w| - 1
      ensures DiscoveredFrom(edgeTo, w[k + 1], w[k]) && Edge(g, w[k], w[k + 1])
    {
      assert w[k] == s[j + k - 1] && w[k + 1] == s[j + k];
      assert TreeEdge(g, edgeTo, s, j + k);
    }
    assert Edge(g, w[0], w[1]);
  }

  /** The loop of `dfs` that turns the back edge `parent -> child` into a witness: it follows the
      tree links from `parent` up to `child`, then puts `child` and `parent` in front. */
  method WalkBack<T(==,!new)>(g: Digraph<T>, edgeTo: map<T, T>, ghost s: seq<T>, parent: T, child: T)
    returns (walk: seq<T>)
    requires TreePath(g, edgeTo, s) && NoDuplicates(s) && s != [] && s[|s| - 1] == parent
    requires child in s && Edge(g, parent, child)
    ensures IsClosedWalk(g, walk)
    ensures walk[0] == parent && walk[1] == child && walk[|walk| - 1] == parent
    ensures forall k :: 1 <= k < |walk| - 1 ==> DiscoveredFrom(edgeTo, walk[k + 1], walk[k])
    ensures parent == child ==> walk == [parent, parent]
  {
    walk := [];
    var inbred := parent;
    ghost var j := |s| - 1;
    while inbred != child
      invariant 0 <= j < |s| && inbred == s[j]
      invariant child in s[..j + 1]
      invariant walk == s[j + 1..]
      decreases j
    {
      assert child in s[..j];
      assert j >= 1;
      assert TreeEdge(g, edgeTo, s, j);
      walk := [inbred] + walk;
      inbred := edgeTo[inbred];
      j := j - 1;
    }
    walk := [child] + walk;
    walk := [parent] + walk;
    assert walk == [parent] + s[j..];
    BackEdgeClosesCycle(g, edgeTo, s, j);
  }

  /** While no cycle is found: the on-stack vertices form a tree path along `edgeTo`,
      and every finished vertex has only finished children, all finished before it. */
  ghost predicate SearchingIn<T(!new)>(g: Digraph<T>, marked: set<T>, onStack: set<T>, edgeTo: map<T, T>,
                                       stack: seq<T>, rank: map<T, nat>, finished: nat)
  {
    NoDuplicates(stack) &&
    (forall i :: 0 <= i < |stack| ==> stack[i] in marked) &&
    (forall v :: v in onStack <==> v in stack) &&
    TreePath(g, edgeTo, stack) &&
    (forall v :: v in rank <==> v in marked && v !in onStack) &&
    FinishRanks(g, rank, finished)
  }

  /** Taking the top off the stack once its children are finished, and ranking it next. */
  lemma PopKeepsSearching<T(!new)>(g: Digraph<T>, marked: set<T>, onStack: set<T>, edgeTo: map<T, T>,
                                   stack: seq<T>, rank: map<T, nat>, finished: nat)
    requires SearchingIn(g, marked, onStack, edgeTo, stack, rank, finished) && stack != []
    requires forall c :: c in Children(g, stack[|stack| - 1]) ==> c in rank
    ensures var top := stack[|stack| - 1];
      SearchingIn(g, marked, onStack - {top}, edgeTo, stack[..|stack| - 1], rank[top := finished], finished + 1)
  {
    var top := stack[|stack| - 1];
    PopMembership(stack);
    TreePathPop(g, edgeTo, stack);
    FinishOne(g, rank, finished, top);
  }

  class Cycle<T(==,!new)> {
    const digraph: Digraph<T>
    var marked: set<T>
    var onStack: set<T>
    var edgeTo: map<T, T>
    /** The walk; empty while no cycle has been found. */
    var cycle: seq<T>
    /** The recursion stack, outermost call first. */
    ghost var stack: seq<T>
    /** Finish rank of every vertex whose `dfs` call has returned. */
    ghost var rank: map<T, nat>
    /** The next finish rank to hand out. */
    ghost var finished: nat

    ghost predicate Valid()
      reads this
    {
      marked <= Vertices(digraph) &&
      ((cycle == [] && Searching()) || (cycle != [] && IsClosedWalk(digraph, cycle)))
    }

    /** While no cycle is found: the on-stack vertices form a tree path along `edgeTo`,
        and every finished vertex has only finished children, all finished before it. */
    ghost predicate Searching()
      reads this
    {
      SearchingIn(digraph, marked, onStack, edgeTo, stack, rank, finished)
    }

    /** The state after construction: every vertex of keys and values is marked,
        and without a walk the finish ranks cover the digraph. */
    ghost predicate Done()
      reads this
    {
      Valid() && marked == Vertices(digraph) && (cycle == [] ==> IsRank(digraph, rank))
    }

    constructor (g: Digraph<T>)
      ensures digraph == g && Done()
    {
      digraph := g;
      marked, onStack, edgeTo, cycle := {}, {}, map[], [];
      stack, rank, finished := [], map[], 0;
      new;
      var open := Vertices(g);
      while open != {}
        invariant Valid() && open <= Vertices(g)
        invariant Vertices(g) - open <= marked
        invariant cycle == [] ==> stack == []
        decreases open
      {
        var vertex :| vertex in open;
        if vertex !in marked {
          Visit(vertex);
        }
        open := open - {vertex};
      }
    }

    /** The recursive `dfs`: put `parent` on the stack, look at its children until a
        walk exists, and take `parent` off the stack unless it stopped early. */
    method Visit(parent: T)
      requires Valid() && parent in Vertices(digraph) && parent !in marked
      requires cycle == [] && stack != [] ==>
        parent in edgeTo && edgeTo[parent] == stack[|stack| - 1] && Edge(digraph, stack[|stack| - 1], parent)
      modifies this
      ensures Valid() && old(marked) + {parent} <= marked
      ensures old(cycle) != [] ==> cycle == old(cycle)
      ensures cycle == [] ==> stack == old(stack) && parent in rank && old(rank).Keys <= rank.Keys
      decreases |Vertices(digraph)| - |marked|, 0
    {
      SetOnStack(parent);
      SubsetCardinality(marked, Vertices(digraph));
      var completed := VisitChildren(parent);
      if completed {
        ClearOnStack(parent);
      }
    }

    /** The loop of `dfs` over the children of `parent`, which is on top of the stack;
        it returns early (`completed` false) when it finds a walk before a child. */
    method VisitChildren(parent: T) returns (completed: bool)
      requires Valid() && parent in marked
      requires cycle == [] ==> stack != [] && stack[|stack| - 1] == parent
      modifies this
      ensures Valid() && old(marked) <= marked
      ensures old(cycle) != [] ==> cycle == old(cycle)
      ensures cycle == [] ==> stack == old(stack) && old(rank).Keys <= rank.Keys
      ensures cycle == [] ==> completed && forall c :: c in Children(digraph, parent) ==> c in rank
      decreases |Vertices(digraph)| - |marked|, 2
    {
      completed := false;
      var children := Children(digraph, parent);
      var i := 0;
      while i < |children|
        invariant 0 <= i <= |children|
        invariant Valid() && old(marked) <= marked
        invariant old(cycle) != [] ==> cycle == old(cycle)
        invariant cycle == [] ==> stack == old(stack) && old(rank).Keys <= rank.Keys
        invariant cycle == [] ==> forall j :: 0 <= j < i ==> children[j] in rank
      {
        if cycle != [] {
          return;
        }
        SubsetCardinality(old(marked), marked);
        SubsetCardinality(marked, Vertices(digraph));
        ghost var before := rank;
        VisitChild(parent, children[i]);
        if cycle == [] {
          forall j | 0 <= j <= i
            ensures children[j] in rank
          {
            if j < i {
              assert children[j] in before.Keys;
            }
          }
        }
        i := i + 1;
      }
      completed := true;
    }

    /** One turn of the loop in `dfs`: descend into an unmarked child, or record the
        walk when the child is on the stack. */
    method VisitChild(parent: T, child: T)
      requires Valid() && cycle == [] && stack != [] && stack[|stack| - 1] == parent
      requires Edge(digraph, parent, child)
      modifies this
      ensures Valid() && old(marked) <= marked
      ensures cycle == [] ==> stack == old(stack) && child in rank && old(rank).Keys <= rank.Keys
      decreases |Vertices(digraph)| - |marked|, 1
    {
      if child !in marked {
        SetEdgeTo(child, parent);
        Visit(child);
      } else if child in onStack {
        RecordCycle(parent, child);
      }
    }

    /** `setOnStack` and `setMarked` on `parent`. */
    method SetOnStack(parent: T)
      requires Valid() && parent in Vertices(digraph) && parent !in marked
      requires cycle == [] && stack != [] ==>
        parent in edgeTo && edgeTo[parent] == stack[|stack| - 1] && Edge(digraph, stack[|stack| - 1], parent)
      modifies this
      ensures Valid() && marked == old(marked) + {parent} && onStack == old(onStack) + {parent}
      ensures cycle == old(cycle) && edgeTo == old(edgeTo) && rank == old(rank)
      ensures cycle == [] ==> stack == old(stack) + [parent]
    {
      if cycle == [] {
        TreePathPush(digraph, edgeTo, stack, parent);
      }
      onStack := onStack + {parent};
      marked := marked + {parent};
      stack := stack + [parent];
    }

    /** `clearOnStack` on a finished `parent`, which receives the next finish rank. */
    method ClearOnStack(parent: T)
      requires Valid() && parent in marked
      requires cycle == [] ==> stack != [] && stack[|stack| - 1] == parent &&
                               forall c :: c in Children(digraph, parent) ==> c in rank
      modifies this
      ensures Valid() && marked == old(marked) && cycle == old(cycle)
      ensures cycle == [] ==> stack == old(stack)[..|old(stack)| - 1]
      ensures rank.Keys == old(rank).Keys + {parent}
    {
      if cycle == [] {
        PopFinished(parent);
      } else {
        onStack := onStack - {parent};
        if |stack| > 0 {
          stack := stack[..|stack| - 1];
        }
        rank := rank[parent := finished];
        finished := finished + 1;
      }
    }

    /** `clearOnStack` while no cycle is known: the finished top of the stack gets the next rank. */
    method PopFinished(parent: T)
      requires Valid() && cycle == [] && stack != [] && stack[|stack| - 1] == parent
      requires forall c :: c in Children(digraph, parent) ==> c in rank
      modifies this
      ensures Valid() && marked == old(marked) && cycle == old(cycle)
      ensures stack == old(stack)[..|old(stack)| - 1]
      ensures rank.Keys == old(rank).Keys + {parent}
    {
      var onStack', stack', rank' := onStack - {parent}, stack[..|stack| - 1], rank[parent := finished];
      PopKeepsSearching(digraph, marked, onStack, edgeTo, stack, rank, finished);
      assert SearchingIn(digraph, marked, onStack', edgeTo, stack', rank', finished + 1);
      onStack, stack, rank, finished := onStack', stack', rank', finished + 1;
    }

    /** `setEdgeTo` on a child that is about to be visited. */
    method SetEdgeTo(child: T, parent: T)
      requires Valid() && child !in marked
      modifies this
      ensures Valid() && edgeTo == old(edgeTo)[child := parent]
      ensures marked == old(marked) && onStack == old(onStack) && cycle == old(cycle)
      ensures stack == old(stack) && rank == old(rank)
    {
      if cycle == [] {
        TreePathRelink(digraph, edgeTo, stack, child, parent);
      }
      edgeTo := edgeTo[child := parent];
    }

    /** The back edge `parent -> child` closes a cycle: walk the tree links from `parent` up to
        `child`, then put `child` and `parent` in front. */
    method RecordCycle(parent: T, child: T)
      requires Valid() && cycle == [] && stack != [] && stack[|stack| - 1] == parent
      requires child in onStack && Edge(digraph, parent, child)
      modifies this
      ensures Valid() && cycle != []
      ensures cycle[0] == parent && cycle[1] == child && cycle[|cycle| - 1] == parent
      ensures forall k :: 1 <= k < |cycle| - 1 ==> DiscoveredFrom(edgeTo, cycle[k + 1], cycle[k])
      ensures parent == child ==> cycle == [parent, parent]
      ensures marked == old(marked) && onStack == old(onStack) && edgeTo == old(edgeTo)
    {
      cycle := WalkBack(digraph, edgeTo, stack, parent, child);
    }

    /** `hasCycle()`: a walk was recorded exactly when the digraph has a directed cycle. */
    function HasCycle(): (b: bool)
      reads this
      requires Done()
      ensures b <==> !Acyclic(digraph)
    {
      if cycle == [] then RankedIsAcyclic(digraph, rank); false
      else true
    }

    /** `cycle()`: empty for an acyclic digraph, else a closed walk of the digraph. */
    function Witness(): (w: seq<T>)
      reads this
      requires Done()
      ensures w == [] <==> Acyclic(digraph)
      ensures w != [] ==> IsClosedWalk(digraph, w)
    {
      if cycle == [] then RankedIsAcyclic(digraph, rank); cycle
      else cycle
    }
  }
}
