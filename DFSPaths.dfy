/** Single-source depth-first search that remembers, for each vertex, the edge it was discovered by (DFSPaths.java). */
module DepthFirstPaths {
  import opened Digraphs

  class DFSPaths<T(==,!new)> {
    const digraph: Digraph<T>
    const source: T
    var marked: set<T>
    var edgeTo: map<T, T>
    /** Number of tree edges between the source and a marked vertex; it bounds the walk back along `edgeTo`. */
    ghost var depth: map<T, nat>

    ghost function Universe(): set<T>
    {
      Vertices(digraph) + {source}
    }

    /** A marked vertex other than the source hangs off a marked vertex by an edge of the digraph. */
    ghost predicate Linked(v: T)
      reads this
    {
      v in depth &&
      if v == source then depth[v] == 0
      else v in edgeTo && edgeTo[v] in marked && edgeTo[v] in depth &&
           Edge(digraph, edgeTo[v], v) && depth[v] == depth[edgeTo[v]] + 1
    }

    ghost predicate Valid()
      reads this
    {
      marked <= Universe() && depth.Keys == marked &&
      (marked != {} ==> source in marked) &&
      forall v {:trigger Linked(v)} :: v in marked ==> Linked(v)
    }

    ghost predicate ClosedExcept(stack: set<T>)
      reads this
    {
      forall u, c :: u in marked && u !in stack && c in Children(digraph, u) ==> c in marked
    }

    constructor (g: Digraph<T>, s: T)
      ensures digraph == g && source == s
      ensures Valid() && source in marked && ClosedUnder(digraph, marked)
    {
      digraph, source := g, s;
      marked, edgeTo, depth := {}, map[], map[];
      new;
      Visit(s, {});
    }

    /** The recursive `dfs`: mark `parent`, then link every unmarked child to it and descend. */
    method Visit(parent: T, ghost stack: set<T>)
      requires Valid() && ClosedExcept(stack)
      requires parent in Universe() && parent !in marked
      requires marked == {} ==> parent == source
      requires marked != {} ==> parent != source && parent in edgeTo && edgeTo[parent] in marked &&
                                Edge(digraph, edgeTo[parent], parent)
      modifies this
      ensures Valid() && ClosedExcept(stack)
      ensures old(marked) + {parent} <= marked
      ensures forall v :: v in old(marked) && v in old(edgeTo) ==> v in edgeTo && edgeTo[v] == old(edgeTo)[v]
      decreases |Universe()| - |marked|, 0
    {
      SetMarked(parent);
      SubsetCardinality(marked, Universe());
      VisitChildren(parent, stack);
    }

    /** The loop of `dfs` over the children of the freshly marked `parent`. */
    method VisitChildren(parent: T, ghost stack: set<T>)
      requires Valid() && ClosedExcept(stack + {parent}) && parent in marked
      modifies this
      ensures Valid() && ClosedExcept(stack) && old(marked) <= marked
      ensures forall v :: v in old(marked) && v in old(edgeTo) ==> v in edgeTo && edgeTo[v] == old(edgeTo)[v]
      decreases |Universe()| - |marked|, 2
    {
      var children := Children(digraph, parent);
      for i := 0 to |children|
        invariant Valid() && ClosedExcept(stack + {parent}) && old(marked) <= marked
        invariant forall v :: v in old(marked) && v in old(edgeTo) ==> v in edgeTo && edgeTo[v] == old(edgeTo)[v]
        invariant forall j :: 0 <= j < i ==> children[j] in marked
      {
        assert Edge(digraph, parent, children[i]);
        SubsetCardinality(old(marked), marked);
        SubsetCardinality(marked, Universe());
        VisitChild(parent, children[i], stack);
      }
    }

    /** One turn of the loop: an unmarked `child` is linked to `parent` and visited. */
    method VisitChild(parent: T, child: T, ghost stack: set<T>)
      requires Valid() && ClosedExcept(stack + {parent}) && parent in marked && Edge(digraph, parent, child)
      modifies this
      ensures Valid() && ClosedExcept(stack + {parent}) && child in marked
      ensures forall v :: v in old(marked) ==> v in marked
      ensures forall v :: v in old(marked) && v in old(edgeTo) ==> v in edgeTo && edgeTo[v] == old(edgeTo)[v]
      decreases |Universe()| - |marked|, 1
    {
      if !HasPathTo(child) {
        SetEdgeTo(child, parent);
        Visit(child, stack + {parent});
      }
    }

    /** Marks `parent`, one edge deeper than the vertex it was discovered from. */
    method SetMarked(parent: T)
      requires Valid() && parent in Universe() && parent !in marked
      requires marked == {} ==> parent == source
      requires marked != {} ==> parent != source && parent in edgeTo && edgeTo[parent] in marked &&
                                Edge(digraph, edgeTo[parent], parent)
      modifies this
      ensures Valid() && marked == old(marked) + {parent} && edgeTo == old(edgeTo)
    {
      if parent != source {
        assert Linked(edgeTo[parent]);
      }
      depth := depth[parent := if parent == source then 0 else depth[edgeTo[parent]] + 1];
      marked := marked + {parent};
      assert Linked(parent);
      forall v | v in old(marked)
        ensures Linked(v)
      {
        assert old(Linked(v));
      }
    }

    /** Records that the unmarked `child` is discovered from `parent`. */
    method SetEdgeTo(child: T, parent: T)
      requires Valid() && child !in marked
      modifies this
      ensures Valid() && marked == old(marked) && edgeTo == old(edgeTo)[child := parent]
    {
      edgeTo := edgeTo[child := parent];
      forall v | v in marked
        ensures Linked(v)
      {
        assert old(Linked(v));
      }
    }

    /** `hasPathTo(v)`: whether the search reached `v`. */
    function HasPathTo(v: T): (b: bool)
      reads this
      ensures b <==> v in marked
    {
      v in marked
    }

    /** After construction, the marked vertices are exactly those reachable from the source. */
    lemma MarksReachable(v: T)
      requires Valid() && source in marked && ClosedUnder(digraph, marked)
      ensures HasPathTo(v) <==> Reachable(digraph, source, v)
    {
      if Reachable(digraph, source, v) {
        ClosedContainsReachable(digraph, marked, source, v);
      }
      if v in marked {
        var p := PathBack(v);
      }
    }

    /** The walk from the source down the tree links to a marked vertex. */
    lemma PathBack(v: T) returns (p: seq<T>)
      requires Valid() && v in marked
      ensures WalkFromTo(digraph, p, source, v) && |p| == depth[v] + 1
      decreases depth[v]
    {
      assert Linked(v);
      if v == source {
        p := [v];
      } else {
        var q := PathBack(edgeTo[v]);
        p := q + [v];
        assert forall i :: 0 <= i < |q| - 1 ==> p[i] == q[i];
      }
    }

    /** `pathTo(v)`: empty when `v` was not reached, else the tree walk from the source to `v`. */
    method PathTo(v: T) returns (path: seq<T>)
      requires Valid() && source in marked && ClosedUnder(digraph, marked)
      ensures path == [] <==> !Reachable(digraph, source, v)
      ensures path != [] ==> WalkFromTo(digraph, path, source, v)
    {
      MarksReachable(v);
      if !HasPathTo(v) {
        return [];
      }
      path := [];
      var x := v;
      while x != source
        invariant x in marked
        invariant WalkFromTo(digraph, [x] + path, x, v)
        decreases depth[x]
      {
        assert Linked(x);
        path := [x] + path;
        x := edgeTo[x];
        WalkPrepend(digraph, x, path);
      }
      path := [source] + path;
    }
  }
}
