# Verified model of a multimap digraph library

The library is a set of classical algorithms over a directed graph given as a multimap: each vertex maps to an ordered list of children, and a list may repeat a child.

The vertices of a digraph are its keys together with every listed child. The algorithms are:

- cycle detection with a witness cycle (`Cycle`);
- topological sort, which refuses a digraph with a cycle (`TopologicalSort`);
- single-source reachability with a count (`DFS`);
- a multi-source shortest-path tree (`BFS`);
- a single-source search that remembers some path (`DFSPaths`);
- enumeration of every path from a set of sources to the first destination met (`AllPaths`), and `countPaths`, which counts, in one topological pass, the walks from the sources to each destination; this equals the number of listed paths when the destinations are sinks;
- the "lowest common ancestor" of two or more vertices (`LCA`);
- transitive closure and transitive reduction with memoised searches (`TransitiveClosure`, `TransitiveReduction`).

This Dafny project models each class on its own terms:

- The multimap is `map<T, seq<T>>` (module `Digraphs`). `HashMultimap.create` copies are the same map with each child list deduplicated (`Collapse`).
- Reachability is the existence of a walk.
- Each search is a class whose fields are the Java fields or node flags (`marked`, `onStack`, `edgeTo`, `distTo`, the cycle deque, the order deque, the memo maps).
- Each recursive `dfs` and each loop is a method proved against ghost invariants: recursion stacks, finish ranks and tree depths.
- A thrown `IllegalArgumentException` becomes a `Failure` carrying the closed walk that was found.
- `Integer.MAX_VALUE` distances become `Distance.Infinity`, and a `null` result becomes `Option.None`.

Modules, one file each:

- `Wrappers`: `Option` and `Result`.
- `Digraphs`: the digraph, walks, reachability, acyclicity and finish ranks.
- `CycleDetection`: Cycle.java.
- `TopologicalOrdering`: TopologicalSort.java.
- `Reachability`: DFS.java.
- `BreadthFirstPaths`: BFS.java.
- `DepthFirstPaths`: DFSPaths.java.
- `PathEnumeration`: the backtracking part of AllPaths.java.
- `PathCounting`: `getSinks`, `getSources` and `countPaths` of AllPaths.java.
- `LowestCommonAncestor`: LCA.java.
- `Closure`: TransitiveClosure.java.
- `Reduction`: TransitiveReduction.java.

For the digraph {A→B, A→C, B→D, C→D}, `ancestor(B, C)` is D with length 2: both searches run forward along edges, so the answer is a vertex that both query vertices reach. `Common(g, v, w, x)` means that both `v` and `w` reach `x`.

## Model

| member | source | states |
|---|---|---|
| Digraphs.Vertices | src/main/java/net/graph/Cycle.java:24 | both ends of every edge are vertices (the set is the keys together with every listed child) |
| Digraphs.Collapse | src/main/java/net/graph/LCA.java:24 | the copy has exactly the edges of the caller's multimap, lists each child once, and has no key without children |
| Digraphs.SameReachability | src/main/java/net/graph/TransitiveClosure.java:21 | two multimaps with the same edges have the same reachability, so the deduplicated copy answers as the caller's digraph would |
| Digraphs.ListSet | src/main/java/net/graph/TransitiveClosure.java:40-43 | iterating a vertex set visits each of its members exactly once |
| Digraphs.RankedIsAcyclic | src/main/java/net/graph/Cycle.java:82-105 | finish ranks that strictly decrease along every edge rule out every closed walk, which is why a search without a back edge proves acyclicity |
| CycleDetection.Cycle.constructor | src/main/java/net/graph/Cycle.java:22-30 | afterwards every vertex of keys and values is marked, including sinks that are never keys; without a witness the finish ranks decrease along every edge |
| CycleDetection.Cycle.Visit | src/main/java/net/graph/Cycle.java:82-105 | `dfs(parent)` marks `parent` and never unmarks; a witness once recorded is never changed; without one, `parent` finishes with a rank and the stack is restored |
| CycleDetection.Cycle.VisitChildren | src/main/java/net/graph/Cycle.java:86-102 | the child loop returns as soon as a witness exists; otherwise every child of `parent` has finished |
| CycleDetection.Cycle.VisitChild | src/main/java/net/graph/Cycle.java:90-100 | an unmarked child is linked to `parent` and searched; unless a witness appears, the child has finished afterwards |
| CycleDetection.Cycle.SetOnStack | src/main/java/net/graph/Cycle.java:84-85 | `parent` becomes marked and goes on the stack; nothing else changes |
| CycleDetection.Cycle.ClearOnStack | src/main/java/net/graph/Cycle.java:104 | the finished `parent` leaves the stack and gets the next finish rank; marks and witness are unchanged |
| CycleDetection.Cycle.SetEdgeTo | src/main/java/net/graph/Cycle.java:92 | records the tree link of an unmarked child; nothing else changes |
| CycleDetection.Cycle.RecordCycle | src/main/java/net/graph/Cycle.java:94-100 | a back edge to an on-stack child records a closed walk: it starts and ends at `parent`, its second vertex is `child`, and each later step follows an `edgeTo` link; a self-loop gives `[v, v]` |
| CycleDetection.WalkBack | src/main/java/net/graph/Cycle.java:95-99 | the push loop builds that closed walk from the stack's tree path |
| CycleDetection.BackEdgeClosesCycle | src/main/java/net/graph/Cycle.java:94-99 | an edge from the top of the stack to a vertex on the stack closes a walk of the digraph whose inner steps are tree links |
| CycleDetection.Cycle.HasCycle | src/main/java/net/graph/Cycle.java:111-113 | true exactly when the digraph has a closed walk |
| CycleDetection.Cycle.Witness | src/main/java/net/graph/Cycle.java:115-117 | empty exactly when the digraph is acyclic; otherwise a closed walk of the digraph |
| TopologicalOrdering.TopologicalSort.Create | src/main/java/net/graph/TopologicalSort.java:21-36 | refused, carrying a closed walk, exactly when the digraph has a cycle; otherwise the order lists every vertex of keys and values once, with every edge pointing forward |
| TopologicalOrdering.TopologicalSort.constructor | src/main/java/net/graph/TopologicalSort.java:26-35 | for an acyclic digraph, the search from every unmarked vertex yields a topological order |
| TopologicalOrdering.TopologicalSort.Visit | src/main/java/net/graph/TopologicalSort.java:38-46 | `dfs(vertex)` finishes `vertex` (puts it in the order) and leaves the recursion stack as it was |
| TopologicalOrdering.TopologicalSort.VisitChildren | src/main/java/net/graph/TopologicalSort.java:40-44 | after the child loop, every child of the vertex is in the order, duplicate edges included |
| TopologicalOrdering.TopologicalSort.VisitChild | src/main/java/net/graph/TopologicalSort.java:41-43 | an unmarked child is searched; a marked child is already finished |
| TopologicalOrdering.TopologicalSort.Enter | src/main/java/net/graph/TopologicalSort.java:39 | `marked.add` puts the vertex on the recursion stack and leaves the order alone |
| TopologicalOrdering.TopologicalSort.Finish | src/main/java/net/graph/TopologicalSort.java:45 | `order.push` puts the vertex in front of the order and takes it off the stack |
| TopologicalOrdering.PrependFinished | src/main/java/net/graph/TopologicalSort.java:45 | pushing a vertex whose children are all in the order keeps every edge pointing forward |
| TopologicalOrdering.NoBackEdge | src/main/java/net/graph/TopologicalSort.java:40-43 | in an acyclic digraph, no child of the top of the stack is on the stack, so a marked child is finished |
| TopologicalOrdering.TopologicalImpliesAcyclic | src/main/java/net/graph/TopologicalSort.java:21-36 | a digraph that has a topological order has no closed walk |
| TopologicalOrdering.ReachableComesLater | src/main/java/net/graph/TopologicalSort.java:49-51 | in a topological order, a vertex comes before every other vertex it reaches |
| TopologicalOrdering.TopologicalSort.Order | src/main/java/net/graph/TopologicalSort.java:49-51 | iteration yields a topological order in which each vertex precedes every distinct vertex it reaches |
| Reachability.DFS.constructor | src/main/java/net/graph/DFS.java:18-22 | the source is marked, and the marked set is exactly the set of vertices the source reaches |
| Reachability.DFS.Visit | src/main/java/net/graph/DFS.java:24-32 | `dfs(parent)` marks `parent`, marks only reachable vertices, and keeps `count` equal to the number marked |
| Reachability.DFS.SetMarked | src/main/java/net/graph/DFS.java:25-26 | `count++` and `marked.add` add exactly one new vertex |
| Reachability.DFS.VisitChildren | src/main/java/net/graph/DFS.java:27-31 | after the child loop every child of `parent` is marked |
| Reachability.DFS.VisitChild | src/main/java/net/graph/DFS.java:28-30 | a child is searched only while unmarked, and is marked afterwards |
| Reachability.DFS.Marked | src/main/java/net/graph/DFS.java:34-36 | true exactly when the source reaches the vertex by a walk of length zero or more |
| Reachability.DFS.Count | src/main/java/net/graph/DFS.java:38-41 | the number of vertices the source reaches, at least 1 |
| BreadthFirstPaths.FromAnyIffFromOne | src/main/java/net/graph/BFS.java:26-28 | a vertex is reachable from the source collection exactly when some one source reaches it |
| BreadthFirstPaths.ShortestExists | src/main/java/net/graph/BFS.java:81-93 | every vertex reachable from the sources has a least hop count |
| BreadthFirstPaths.ShortestUnique | src/main/java/net/graph/BFS.java:104-106 | helper: that least hop count is unique |
| BreadthFirstPaths.BFS.constructor | src/main/java/net/graph/BFS.java:22-28 | after the search, a vertex is marked exactly when a source reaches it, and `distTo` is its least hop count from any source |
| BreadthFirstPaths.BFS.Bfs | src/main/java/net/graph/BFS.java:76-94 | draining the queue ends in that finished state |
| BreadthFirstPaths.BFS.MarkSources | src/main/java/net/graph/BFS.java:77-81 | every source is marked at distance 0, and the queue holds the sources |
| BreadthFirstPaths.BFS.Dequeue | src/main/java/net/graph/BFS.java:82-93 | one dequeue and relaxation keeps the queue's distances banded and nondecreasing; the marked set only grows, and otherwise the queue shrinks; every vertex marked before keeps its `distTo` and `edgeTo`; the new queue is the old tail followed by newly marked vertices one hop past the head |
| BreadthFirstPaths.BFS.RelaxChildren | src/main/java/net/graph/BFS.java:84-92 | after the child loop every child of the dequeued vertex is marked; every vertex marked before keeps its `distTo` and `edgeTo`; the queue is the old tail followed by newly marked vertices at one more hop than the dequeued vertex |
| BreadthFirstPaths.BFS.RelaxNext | src/main/java/net/graph/BFS.java:84-91 | one turn of the child loop: the current child and all before it are marked, earlier distances and links survive, and the queue only gains vertices one hop past the dequeued vertex |
| BreadthFirstPaths.BFS.RelaxChild | src/main/java/net/graph/BFS.java:85-91 | the child is marked afterwards; an already marked child leaves `marked`, `edgeTo`, `distTo` and the queue untouched; an unmarked one is appended to the queue one hop past the parent; no earlier distance or link of a marked vertex changes |
| BreadthFirstPaths.BFS.Discover | src/main/java/net/graph/BFS.java:86-90 | the first discoverer wins: the child gains `edgeTo = parent` and `distTo = distTo(parent) + 1`, and no other vertex's distance changes |
| BreadthFirstPaths.BFS.SetEdgeTo | src/main/java/net/graph/BFS.java:88 | only the unmarked child's link changes |
| BreadthFirstPaths.BFS.MarkChild | src/main/java/net/graph/BFS.java:87-89 | marks the child one hop beyond its parent; the earlier distances are unchanged |
| BreadthFirstPaths.BFS.TreeEdgeShortens | src/main/java/net/graph/BFS.java:85-90 | a marked non-source vertex has a marked `edgeTo` with an edge to it, one hop nearer a source |
| BreadthFirstPaths.BFS.MarksShortest | src/main/java/net/graph/BFS.java:81-93 | marked exactly when some source reaches the vertex, and then `distTo` is its least hop count |
| BreadthFirstPaths.BFS.PathBack | src/main/java/net/graph/BFS.java:114-117 | following `edgeTo` links from a marked vertex reaches a source in `distTo` steps |
| BreadthFirstPaths.BFS.HasPathTo | src/main/java/net/graph/BFS.java:100-102 | true exactly when some source reaches the vertex |
| BreadthFirstPaths.BFS.DistTo | src/main/java/net/graph/BFS.java:104-106 | `Infinity` exactly for unreached vertices; otherwise the least hop count from any source |
| BreadthFirstPaths.BFS.PathTo | src/main/java/net/graph/BFS.java:108-120 | empty exactly when no source reaches the vertex; otherwise a walk from a source to the vertex with `distTo + 1` vertices |
| DepthFirstPaths.DFSPaths.constructor | src/main/java/net/graph/DFSPaths.java:19-22 | the source is marked, and the marked set is closed under edges |
| DepthFirstPaths.DFSPaths.Visit | src/main/java/net/graph/DFSPaths.java:61-69 | `dfs(parent)` marks `parent`; a link recorded for a marked vertex is never overwritten |
| DepthFirstPaths.DFSPaths.VisitChildren | src/main/java/net/graph/DFSPaths.java:63-68 | after the child loop every child is marked, and earlier links are kept |
| DepthFirstPaths.DFSPaths.VisitChild | src/main/java/net/graph/DFSPaths.java:64-67 | an unmarked child is linked to `parent` and searched; the child is marked afterwards |
| DepthFirstPaths.DFSPaths.SetMarked | src/main/java/net/graph/DFSPaths.java:62 | marks exactly one vertex; the links are unchanged |
| DepthFirstPaths.DFSPaths.SetEdgeTo | src/main/java/net/graph/DFSPaths.java:65 | links a still unmarked child; the marks are unchanged |
| DepthFirstPaths.DFSPaths.HasPathTo | src/main/java/net/graph/DFSPaths.java:71-73 | reads the mark, so it can be asked in the middle of the search; its meaning after construction, reachability from the source, is what `MarksReachable` states |
| DepthFirstPaths.DFSPaths.MarksReachable | src/main/java/net/graph/DFSPaths.java:61-73 | after construction, `hasPathTo(v)` holds exactly when the source reaches `v` |
| DepthFirstPaths.DFSPaths.PathBack | src/main/java/net/graph/DFSPaths.java:80-83 | following `edgeTo` links from a marked vertex leads back to the source along edges |
| DepthFirstPaths.DFSPaths.PathTo | src/main/java/net/graph/DFSPaths.java:75-86 | empty exactly when the source does not reach the vertex; otherwise a walk from the source to it |
| PathEnumeration.AllPaths.Create | src/main/java/net/graph/AllPaths.java:28-38 | refused, carrying a closed walk, exactly when the digraph has a cycle; otherwise every source has been searched |
| PathEnumeration.AllPaths.constructor | src/main/java/net/graph/AllPaths.java:33-37 | the collected paths are those of each source in turn, and the working path is empty again |
| PathEnumeration.AllPaths.Dfs | src/main/java/net/graph/AllPaths.java:92-103 | the working path after the call equals the one before (backtracking), and exactly the paths of `parent` are appended |
| PathEnumeration.AllPaths.Paths | src/main/java/net/graph/AllPaths.java:105-107 | exactly the walks that start at a source and stop at their first destination; each such walk occurs as often as its start is listed among the sources times, for each step, how often the next vertex is listed among the children (`Copies`) |
| PathEnumeration.EnumerateSound | src/main/java/net/graph/AllPaths.java:92-103 | every emitted path extends the working path by a walk from `parent` that ends at a destination and meets none before |
| PathEnumeration.EnumerateComplete | src/main/java/net/graph/AllPaths.java:92-103 | every such walk is emitted |
| PathEnumeration.EnumerateChildrenMember | src/main/java/net/graph/AllPaths.java:97-100 | the child loop emits exactly the paths of the children |
| PathEnumeration.EnumerateCount | src/main/java/net/graph/AllPaths.java:92-103 | the number of emitted paths is the recursive path count |
| PathEnumeration.FromSourcesExact | src/main/java/net/graph/AllPaths.java:35-37 | the constructor's paths are exactly the walks from a source to their first destination |
| PathEnumeration.ListingsTimesIsProduct | src/main/java/net/graph/AllPaths.java:97-100 | a loop over a list that finds `m` paths at each listing of `x` finds `m` times the number of listings of `x` |
| PathEnumeration.SpellingsOfFirstHit | src/main/java/net/graph/AllPaths.java:92-103 | the ways `dfs` can reach a walk are nonzero exactly for walks that stop at their first destination, and then they are the product of the edge listings along it |
| PathEnumeration.SpellingsAtDestination | src/main/java/net/graph/AllPaths.java:94-96 | helper: at a destination only the working path plus that vertex is recorded |
| PathEnumeration.SpellingsStep | src/main/java/net/graph/AllPaths.java:97-100 | helper: past a non-destination, the ways after the working path are the children's ways after the longer working path |
| PathEnumeration.EnumerateMultiplicity | src/main/java/net/graph/AllPaths.java:92-103 | `dfs(v)` emits a path as often as the rest of it, after the working path, can be spelled as a first-hit walk from `v` |
| PathEnumeration.EnumerateChildrenMultiplicity | src/main/java/net/graph/AllPaths.java:97-100 | the child loop emits a path once per listing of its next vertex among the children, times that child's ways |
| PathEnumeration.FromSourcesMultiplicity | src/main/java/net/graph/AllPaths.java:35-37 | the constructor's list holds each path exactly `Copies` times |
| PathEnumeration.FromSourcesCount | src/main/java/net/graph/AllPaths.java:35-37 | their number is the sum of the sources' path counts |
| PathCounting.GetSinks | src/main/java/net/graph/AllPaths.java:56-64 | refused exactly for a cyclic digraph; otherwise every vertex without children, exactly once |
| PathCounting.Put | src/main/java/net/graph/AllPaths.java:53 | a put into the set multimap adds exactly the one edge and keeps each child list free of repeats |
| PathCounting.Invert | src/main/java/net/graph/AllPaths.java:53 | the inverted multimap has every edge turned around and no others |
| PathCounting.InvertedAlike | src/main/java/net/graph/AllPaths.java:52-54 | inversion is symmetric, keeps the vertex set, and keeps acyclicity in both directions |
| PathCounting.ReverseClosedWalk | src/main/java/net/graph/AllPaths.java:52-54 | a closed walk of the inverted digraph, read backwards, is a closed walk of the original |
| PathCounting.GetSources | src/main/java/net/graph/AllPaths.java:52-54 | refused exactly for a cyclic digraph; otherwise every vertex without parents, exactly once |
| PathCounting.CountPaths | src/main/java/net/graph/AllPaths.java:66-78 | refused exactly for a cyclic digraph; otherwise the sum over the destinations of the walks from each source occurrence (duplicate sources, destinations and edges add up) |
| PathCounting.Propagate | src/main/java/net/graph/AllPaths.java:70-74 | the outer loop over the topological order |
| PathCounting.PassOn | src/main/java/net/graph/AllPaths.java:71-73 | the inner loop adds the parent's count to each child once per listed edge |
| PathCounting.SumCounts | src/main/java/net/graph/AllPaths.java:75-77 | the sum of the destinations' counts |
| PathCounting.PotentialStep | src/main/java/net/graph/AllPaths.java:71-73 | handing a vertex's count to its children keeps the total number of walks still to be counted |
| PathCounting.PotentialKept | src/main/java/net/graph/AllPaths.java:70-74 | that total is kept through any prefix of the topological order |
| PathCounting.InitialPotential | src/main/java/net/graph/AllPaths.java:69 | the seeded counter accounts for every walk from the sources |
| PathCounting.TallyCounts | src/main/java/net/graph/AllPaths.java:69-74 | after the pass, the count of a vertex is the number of walks from the sources to it |
| PathCounting.TallyTotal | src/main/java/net/graph/AllPaths.java:66-78 | the returned sum is the number of walks from the sources to the destinations |
| PathCounting.FirstHitSingle | src/main/java/net/graph/AllPaths.java:94-99 | in a dag, a walk stopping at the first hit of a single destination is any walk ending there |
| PathCounting.CountingMatchesListing | src/main/java/net/graph/AllPaths.java:84-86 | with the sinks as destinations, `countPaths` equals the number of paths `AllPaths` emits |
| LowestCommonAncestor.Score | src/main/java/net/graph/LCA.java:40-41 | a vertex scores a finite summed distance exactly when both query vertices reach it |
| LowestCommonAncestor.ScoresSymmetric | src/main/java/net/graph/LCA.java:34-69 | swapping the two query vertices leaves every score, and so `length` and `ancestor`, unchanged |
| LowestCommonAncestor.LengthSymmetric | src/main/java/net/graph/LCA.java:34-51 | a value is the minimum score for `(v, w)` exactly when it is the minimum score for `(w, v)`, so `length` is symmetric |
| LowestCommonAncestor.AncestorSymmetric | src/main/java/net/graph/LCA.java:53-69 | an answer is the first minimum for `(v, w)` exactly when it is the first minimum for `(w, v)`, so `ancestor` is symmetric |
| LowestCommonAncestor.MinimumUnique | src/main/java/net/graph/LCA.java:38-50 | helper: the minimum `length` computes is unique |
| LowestCommonAncestor.FirstMinimumUnique | src/main/java/net/graph/LCA.java:57-68 | helper: the first vertex attaining the minimum is unique |
| LowestCommonAncestor.MinimumStep | src/main/java/net/graph/LCA.java:42-44 | helper: the strict update keeps the running minimum of the vertices scanned so far |
| LowestCommonAncestor.FirstMinimumFound | src/main/java/net/graph/LCA.java:62-65 | helper: the strict update keeps the first vertex that attains the running minimum |
| LowestCommonAncestor.FirstMinimumAttains | src/main/java/net/graph/LCA.java:57-67 | helper: the vertex `ancestor` picks attains the minimum that `length` returns; it is absent exactly when every score is infinite |
| LowestCommonAncestor.LengthMeaning | src/main/java/net/graph/LCA.java:38-50 | no finite minimum exactly when no vertex is reached from both; otherwise the least sum of shortest distances over the common vertices, and attained |
| LowestCommonAncestor.AncestorMeaning | src/main/java/net/graph/LCA.java:57-68 | the chosen vertex is reached from both, and its sum of shortest distances is minimal among the common vertices |
| LowestCommonAncestor.HalvesReach | src/main/java/net/graph/LCA.java:81 | a vertex reached from both halves' answers is reached from every vertex of the list |
| LowestCommonAncestor.LCA.constructor | src/main/java/net/graph/LCA.java:23-26 | the copy has exactly the caller's edges with each child once, and the vertex list holds each vertex once |
| LowestCommonAncestor.LCA.GetBFS | src/main/java/net/graph/LCA.java:30-32 | returns the memoised search rooted at the vertex, or runs and stores a new one |
| LowestCommonAncestor.LCA.QueryMeaning | src/main/java/net/graph/LCA.java:40-41 | a search rooted at `v` answers `hasPathTo` as reachability from `v` and `distTo` as the shortest distance from `v` |
| LowestCommonAncestor.LCA.SearchScore | src/main/java/net/graph/LCA.java:40-41 | the two searches' answers give the score of each vertex |
| LowestCommonAncestor.LCA.Length | src/main/java/net/graph/LCA.java:34-51 | -1 exactly when no vertex is reached from both; otherwise the minimum summed distance |
| LowestCommonAncestor.LCA.MinimumLength | src/main/java/net/graph/LCA.java:38-46 | the scan finds the minimum score |
| LowestCommonAncestor.LCA.Ancestor | src/main/java/net/graph/LCA.java:53-69 | absent exactly when no vertex is reached from both; otherwise the first vertex, in scan order, with the minimum summed distance |
| LowestCommonAncestor.LCA.FirstAncestor | src/main/java/net/graph/LCA.java:57-67 | the scan finds the first vertex with the minimum score |
| LowestCommonAncestor.LCA.AncestorOfList | src/main/java/net/graph/LCA.java:71-83 | the result is `ListAnswer` of the list: sizes 0, 1 and 2 give absence, the element and the pairwise answer, and larger lists give `ancestor(l, m)` of the answers of the halves `[0, n/2)` and `[n/2, n)`; a present answer is reached from every listed vertex; a failure only arises above size 2 and carries a contiguous run of at least two listed vertices that has no answer |
| LowestCommonAncestor.LCA.AncestorOfHalves | src/main/java/net/graph/LCA.java:81 | the result is `ListAnswer` of the list: `ancestor(l, m)` of the halves' answers, a half's failure passed on, or a failure carrying the half without an answer; a present answer is reached from every listed vertex |
| LowestCommonAncestor.ListFailure | src/main/java/net/graph/LCA.java:71-83 | `ancestor(list)` fails only above two vertices, and then on a contiguous run of at least two listed vertices whose own answer is absent |
| LowestCommonAncestor.RunWidens | src/main/java/net/graph/LCA.java:81 | a run without an answer inside one half is such a run of the whole list |
| LowestCommonAncestor.FirstMinimumInUnique | src/main/java/net/graph/LCA.java:53-69 | helper: at most one answer is the first vertex with the minimum score, so `ancestor(v, w)` is determined |
| LowestCommonAncestor.PairAnswerIs | src/main/java/net/graph/LCA.java:53-69 | helper: the answer `ancestor(v, w)` computes is the pairwise answer `ListAnswer` uses |
| LowestCommonAncestor.LCA.DistTo | src/main/java/net/graph/LCA.java:85-87 | `Infinity` exactly when `descendant` does not reach `ancestor`; otherwise the shortest distance |
| LowestCommonAncestor.LCA.HasPathTo | src/main/java/net/graph/LCA.java:89-91 | true exactly when `descendant` reaches `ancestor` |
| LowestCommonAncestor.LCA.PathTo | src/main/java/net/graph/LCA.java:93-95 | empty exactly when there is no walk; otherwise a shortest walk from `descendant` to `ancestor` |
| Closure.ClosureTransitive | src/main/java/net/graph/TransitiveClosure.java:40-48 | the closure is transitive wherever the two ends differ |
| Closure.ClosureOfCopy | src/main/java/net/graph/TransitiveClosure.java:21 | the closure of the private copy is the closure of the caller's digraph |
| Closure.TransitiveClosure.constructor | src/main/java/net/graph/TransitiveClosure.java:20-22 | the copy has exactly the caller's edges; nothing is cached yet |
| Closure.TransitiveClosure.GetDFS | src/main/java/net/graph/TransitiveClosure.java:26-28 | returns the memoised finished search from the vertex, or runs and stores one |
| Closure.TransitiveClosure.Reachable | src/main/java/net/graph/TransitiveClosure.java:30-32 | true exactly when a walk leads from `ancestor` to `descendant`, including `reachable(a, a)` |
| Closure.TransitiveClosure.Closure | src/main/java/net/graph/TransitiveClosure.java:36-55 | `(a, b)` is in the closure exactly when both are vertices, `a != b` and `a` reaches `b`; later calls return the cached value unchanged |
| Reduction.RemoveEdge | src/main/java/net/graph/TransitiveReduction.java:46 | `digraph.remove(a, d)` removes exactly the edge `a -> d` |
| Reduction.BypassSurvives | src/main/java/net/graph/TransitiveReduction.java:43-46 | in an acyclic digraph, removing `a -> d` keeps the walks from `a` through `l` to `d` |
| Reduction.RemoveBypassed | src/main/java/net/graph/TransitiveReduction.java:41-48 | removing a bypassed edge from an acyclic digraph keeps reachability, acyclicity and the vertex set |
| Reduction.CutBeforeAll | src/main/java/net/graph/TransitiveReduction.java:41-51 | after the loops over every lineage, the edges targeted are exactly the redundant ones |
| Reduction.TriangleReduction | src/main/java/net/graph/TransitiveReduction.java:41-48 | {1→2, 1→3, 2→3} is acyclic, and its non-redundant edges are exactly 1→2 and 2→3 |
| Reduction.TransitiveReduction.constructor | src/main/java/net/graph/TransitiveReduction.java:20-22 | the private copy has exactly the caller's edges; nothing is cached yet |
| Reduction.TransitiveReduction.GetDFS | src/main/java/net/graph/TransitiveReduction.java:26-28 | returns the memoised search, or runs a new one on the copy as it currently is |
| Reduction.TransitiveReduction.Reachable | src/main/java/net/graph/TransitiveReduction.java:30-32 | answers reachability in the copy the search ran on, which for an acyclic input is reachability in the input |
| Reduction.TransitiveReduction.Remove | src/main/java/net/graph/TransitiveReduction.java:46 | the copy loses the edge `ancestor -> descendant` and nothing else |
| Reduction.TransitiveReduction.RemoveBypassedEdges | src/main/java/net/graph/TransitiveReduction.java:44-48 | for an acyclic input, the inner loop removes exactly the edges from `ancestor` to descendants that `lineage` reaches |
| Reduction.TransitiveReduction.Reduction | src/main/java/net/graph/TransitiveReduction.java:36-58 | the result is a subgraph of the input without parallel edges; for an acyclic input it keeps exactly the non-redundant edges, has the same reachability and the same vertices; later calls return the cached value unchanged |

## Left out

- Concurrency: `Maps.newConcurrentMap`, `computeIfAbsent` and the `synchronized` double-checked locking become sequential memo maps and an `Option` field that is filled once.
- Hash iteration order: the order in which a set, a hash multimap or the vertex union is iterated is an arbitrary fixed sequence. No property depends on which order it is, so the model does not pin down which cycle, topological order or tie-winning ancestor comes out.
- CycleDetection.Cycle.Witness: states that a closed walk is found, not which one, because that depends on hash order.
- TopologicalOrdering.TopologicalSort.Order: states that the order is topological, not which of the valid orders it is, because that depends on hash order.
- Exception messages, `Joiner` formatting and every `toString`: only the failure and the closed walk it reports are modelled.
- `getNode` inserts a node on every read; the model reads with a default instead, which answers the same.
- Reference equality (`inbred != child`, `x != source`) is modelled as value equality.
- The `Integer.MAX_VALUE` distance sentinel is `Distance.Infinity`.
- LowestCommonAncestor.LCA.Length: does not model `int` overflow of the summed distance, because distances are unbounded integers.
- PathCounting.CountPaths: does not model overflow of the `Multiset` counts or of the `long` sum, because counts are unbounded naturals.
- LowestCommonAncestor.LCA.AncestorOfList: for more than two vertices, the answer is the halves combined (`ListAnswer`), which is reached from every listed vertex but need not have the least summed distance from them. The halving is not optimal; the code promises no more.
- LowestCommonAncestor.LCA.AncestorOfList: a half without an answer makes Java pass `null` on, and the concurrent map then rejects it as a null key. The model returns `Failure` with that half.
- Recursion depth and stack overflow are not modelled.
- The convenience overloads are not separate members: the single-source constructors of `BFS` and `AllPaths`, `AllPaths(dag)`, and the two-vertex and default overloads of `countPaths`. They call the general form with one-element lists, or with the sources and sinks that `GetSources` and `GetSinks` compute.
- TopologicalSort and AllPaths construction is split into `Create`, which runs the cycle check and returns `Failure` where Java throws, and a constructor that requires acyclic input.
- `GetSources` reports a cycle as found in the inverted multimap. The model states that this walk, read backwards, is a closed walk of the input.
- `closure()` returns the closure as its set of pairs, not as an `ImmutableSetMultimap`.
- Reduction.TransitiveReduction.Reduction: for a cyclic input, states only that the result is a subgraph of the input with no repeated child. Each search runs on the copy as edited so far, and the model follows that, but it states nothing about which edges a cyclic input keeps. Iterating the live key-set view while removing edges may raise `ConcurrentModificationException` in Java; that is not modelled.
- `HashMultimap` copies are maps to deduplicated child lists (`Collapse`), not sets, so `SetLike` states that no list repeats a child.
