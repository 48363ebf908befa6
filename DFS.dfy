/** Single-source reachability by recursive depth-first search (DFS.java). */
module Reachability {
  import opened Digraphs

  class DFS<T(==,!new)> {
    const digraph: Digraph<T>
    const source: T
    var marked: set<T>
    var count: nat

    /** Every vertex the search can ever mark. */
    ghost function Universe(): set<T>
    {
      Vertices(digraph) + {source}
    }

    /** The search never counts a vertex twice and marks only what the source reaches. */
    ghost predicate Valid()
      reads this
    {
      marked <= Universe() && count == |marked| &&
      forall v :: v in marked ==> Reachable(digraph, source, v)
    }

    /** Every marked vertex not on the recursion stack has all its children marked. */
    ghost predicate ClosedExcept(stack: set<T>)
      reads this
    {
      forall u, c :: u in marked && u !in stack && c in Children(digraph, u) ==> c in marked
    }

    /** The finished search: exactly the vertices reachable from the source are marked. */
    ghost predicate MarksReachable()
      reads this
    {
      forall v :: v in marked <==> Reachable(digraph, source, v)
    }

    constructor (g: Digraph<T>, s: T)
      ensures digraph == g && source == s
      ensures Valid() && MarksReachable() && source in marked
    {
      digraph, source := g, s;
      marked, count := {}, 0;
      new;
      ReachableRefl(g, s);
      Visit(s, {});
      forall v | Reachable(digraph, source, v)
        ensures v in marked
      {
        ClosedContainsReachable(digraph, marked, source, v);
      }
    }

    /** The recursive `dfs`: count and mark `parent`, then descend into every unmarked child. */
    method Visit(parent: T, ghost stack: set<T>)
      requires Valid() && ClosedExcept(stack)
      requires parent in Universe() && parent !in marked && Reachable(digraph, source, parent)
      modifies this
      ensures Valid() && ClosedExcept(stack)
      ensures old(marked) + {parent} <= marked
      decreases |Universe()| - |marked|, 0
    {
      SetMarked(parent, stack);
      SubsetCardinality(marked, Universe());
      VisitChildren(parent, stack);
    }

    /** `count++` and `marked.add(parent)`. */
    method SetMarked(parent: T, ghost stack: set<T>)
      requires Valid() && ClosedExcept(stack)
      requires parent in Universe() && parent !in marked && Reachable(digraph, source, parent)
      modifies this
      ensures Valid() && ClosedExcept(stack + {parent}) && marked == old(marked) + {parent}
    {
      count := count + 1;
      marked := marked + {parent};
    }

    /** The loop of `dfs` over the children of the marked `parent`. */
    method VisitChildren(parent: T, ghost stack: set<T>)
      requires Valid() && ClosedExcept(stack + {parent}) && parent in marked
      modifies this
      ensures Valid() && ClosedExcept(stack) && old(marked) <= marked
      decreases |Universe()| - |marked|, 2
    {
      var children := Children(digraph, parent);
      for i := 0 to |children|
        invariant Valid() && ClosedExcept(stack + {parent})
        invariant old(marked) <= marked
        invariant forall j :: 0 <= j < i ==> children[j] in marked
      {
        assert Edge(digraph, parent, children[i]);
        SubsetCardinality(old(marked), marked);
        SubsetCardinality(marked, Universe());
        VisitChild(parent, children[i], stack);
      }
    }

    /** One turn of the loop in `dfs`: descend into `child` unless it is marked. */
    method VisitChild(parent: T, child: T, ghost stack: set<T>)
      requires Valid() && ClosedExcept(stack + {parent}) && parent in marked
      requires Edge(digraph, parent, child)
      modifies this
      ensures Valid() && ClosedExcept(stack + {parent})
      ensures child in marked && forall v :: v in old(marked) ==> v in marked
      decreases |Universe()| - |marked|, 1
    {
      if child !in marked {
        ReachableStep(digraph, source, parent, child);
        SubsetCardinality(marked, Universe());
        Visit(child, stack + {parent});
      }
    }

    /** `marked(v)`: whether `v` is reachable from the source. */
    function Marked(v: T): (b: bool)
      reads this
      requires Valid() && MarksReachable()
      ensures b <==> Reachable(digraph, source, v)
    {
      v in marked
    }

    /** `count()`: the number of vertices reachable from the source, the source included. */
    function Count(): (n: nat)
      reads this
      requires Valid() && MarksReachable()
      ensures n == |set v | v in Universe() && Reachable(digraph, source, v)|
      ensures n >= 1
    {
      assert marked == set v | v in Universe() && Reachable(digraph, source, v);
      ReachableRefl(digraph, source);
      count
    }
  }
}
