/** The transitive closure of a digraph: reachability answered by one memoised depth-first
    search per ancestor, and the closure relation built once and cached (TransitiveClosure.java). */
module Closure {
  import opened Wrappers
  import opened Digraphs
  import opened Reachability

  /** `(a, b)` belongs to the closure: two distinct vertices with a walk from `a` to `b`. */
  ghost predicate InClosure<T(!new)>(g: Digraph<T>, a: T, b: T)
  {
    a in Vertices(g) && b in Vertices(g) && a != b && Reachable(g, a, b)
  }

  /** The closure is transitive wherever its two ends differ. */
  lemma ClosureTransitive<T(!new)>(g: Digraph<T>, a: T, b: T, c: T)
    requires InClosure(g, a, b) && InClosure(g, b, c) && a != c
    ensures InClosure(g, a, c)
  {
    ReachableTrans(g, a, b, c);
  }

  /** The closure of the private copy is the closure of the caller's digraph. */
  lemma ClosureOfCopy<T(!new)>(g: Digraph<T>, a: T, b: T)
    ensures InClosure(Collapse(g), a, b) <==> InClosure(g, a, b)
  {
    var h := Collapse(g);
    SameReachability(g, h, a, b);
    if a != b && Reachable(g, a, b) {
      ReachedIsVertex(g, a, b);
      ReachedIsVertex(h, a, b);
    }
  }

  class TransitiveClosure<T(==,!new)> {
    /** The private copy of the digraph. */
    const digraph: Digraph<T>
    /** The memo `dfsMap`: a finished search from each ancestor queried so far. */
    var dfsMap: map<T, DFS<T>>
    /** The cached closure, as its set of (ancestor, descendant) entries; `None` until built. */
    var closure: Option<set<(T, T)>>

    /** `d` is a finished search of the copy from `v`. */
    ghost predicate Searched(d: DFS<T>, v: T)
      reads d
    {
      d.digraph == digraph && d.source == v && d.Valid() && d.MarksReachable()
    }

    ghost predicate Valid()
      reads this, dfsMap.Values
    {
      (forall v :: v in dfsMap ==> Searched(dfsMap[v], v)) &&
      (closure.Some? ==> forall a, b :: (a, b) in closure.value <==> InClosure(digraph, a, b))
    }

    /** `new TransitiveClosure(digraph)`: a copy with every parallel edge kept once. */
    constructor (g: Digraph<T>)
      ensures Valid() && dfsMap == map[] && closure == None
      ensures forall u, v :: Edge(digraph, u, v) <==> Edge(g, u, v)
    {
      digraph, dfsMap, closure := Collapse(g), map[], None;
    }

    /** `getDFS(vertex)`: the memoised search from `vertex`, run on first use. */
    method GetDFS(vertex: T) returns (d: DFS<T>)
      requires Valid()
      modifies this
      ensures Valid() && Searched(d, vertex) && closure == old(closure)
      ensures vertex in old(dfsMap) ==> d == old(dfsMap)[vertex]
      ensures dfsMap == old(dfsMap)[vertex := d]
    {
      if vertex in dfsMap {
        d := dfsMap[vertex];
      } else {
        d := new DFS(digraph, vertex);
        dfsMap := dfsMap[vertex := d];
      }
    }

    /** `reachable(ancestor, descendant)`: a walk leads from `ancestor` to `descendant`;
        every vertex reaches itself, as the search marks its source. */
    method Reachable(ancestor: T, descendant: T) returns (b: bool)
      requires Valid()
      modifies this
      ensures Valid() && closure == old(closure)
      ensures b <==> Digraphs.Reachable(digraph, ancestor, descendant)
    {
      var d := GetDFS(ancestor);
      b := d.Marked(descendant);
    }

    /** `closure()`: every pair of distinct vertices with a walk from the first to the second,
        built on the first call and returned unchanged by every later one. */
    method Closure() returns (r: set<(T, T)>)
      requires Valid()
      modifies this
      ensures Valid() && closure == Some(r)
      ensures old(closure).Some? ==> r == old(closure).value
      ensures forall a, b :: (a, b) in r <==> InClosure(digraph, a, b)
    {
      if closure.Some? {
        return closure.value;
      }
      var vertices := ListSet(Vertices(digraph));
      var builder: set<(T, T)> := {};
      for i := 0 to |vertices|
        invariant Valid() && closure == None
        invariant forall a, b :: (a, b) in builder <==> a in vertices[..i] && InClosure(digraph, a, b)
      {
        var ancestor := vertices[i];
        for j := 0 to |vertices|
          invariant Valid() && closure == None
          invariant forall a, b :: (a, b) in builder <==>
                      (a in vertices[..i] && InClosure(digraph, a, b)) ||
                      (a == ancestor && b in vertices[..j] && InClosure(digraph, a, b))
        {
          var descendant := vertices[j];
          if ancestor != descendant {
            var reach := Reachable(ancestor, descendant);
            if reach {
              builder := builder + {(ancestor, descendant)};
            }
          }
          assert vertices[..j + 1] == vertices[..j] + [descendant];
        }
        assert vertices[..i + 1] == vertices[..i] + [ancestor];
      }
      assert vertices[..|vertices|] == vertices;
      closure := Some(builder);
      r := builder;
    }
  }
}
