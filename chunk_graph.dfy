/**
 * The chunk graph as a value: each chunk's child chunks and the set of root
 * chunks (initial chunks and chunks without parents). The merge in index.js
 * is a depth-first search over this graph that never enters a root; this
 * module defines what it reaches and proves the facts its termination and
 * completeness rest on.
 */
module ChunkGraph {
  import opened Seqs

  /** Each node's children, in order, and which nodes are roots. */
  datatype Graph<T(!new)> = Graph(succ: map<T, seq<T>>, roots: set<T>)

  /** Every child of a node is itself a node of the graph. */
  ghost predicate Closed<T(!new)>(g: Graph<T>) {
    forall n, k :: n in g.succ && k in g.succ[n] ==> k in g.succ
  }

  /** p follows child edges, and every node after the first is not a root. */
  ghost predicate NonRootPath<T(!new)>(g: Graph<T>, p: seq<T>) {
    && |p| >= 2
    && (forall i :: 0 <= i < |p| - 1 ==> p[i] in g.succ && p[i + 1] in g.succ[p[i]])
    && (forall i :: 1 <= i < |p| ==> p[i] !in g.roots)
  }

  /** d can be reached from r in one or more steps, through non-root nodes only. */
  ghost predicate Reaches<T(!new)>(g: Graph<T>, r: T, d: T) {
    exists p :: NonRootPath(g, p) && p[0] == r && p[|p| - 1] == d
  }

  /** Every non-root child of n is in s. */
  ghost predicate ChildrenIn<T(!new)>(g: Graph<T>, n: T, s: set<T>) {
    n in g.succ && forall k :: k in g.succ[n] && k !in g.roots ==> k in s
  }

  /**
   * The state of the search from `root`: the visited nodes are distinct
   * non-root nodes that root reaches, the nodes still being expanded (the
   * stack) are among them, and every other visited node has all its non-root
   * children visited.
   */
  ghost predicate SearchState<T(!new)>(g: Graph<T>, root: T, visited: seq<T>, stack: set<T>) {
    && NoDup(visited)
    && (forall d :: d in visited ==> d in g.succ && d !in g.roots && Reaches(g, root, d))
    && stack <= Elems(visited)
    && (forall d :: d in visited && d !in stack ==> ChildrenIn(g, d, Elems(visited)))
  }

  /**
   * Visiting a new node that root reaches, and putting it on the stack while
   * its children are searched, keeps the search state.
   */
  lemma SearchPush<T(!new)>(g: Graph<T>, root: T, visited: seq<T>, stack: set<T>, d: T)
    requires SearchState(g, root, visited, stack)
    requires d !in visited && d in g.succ && d !in g.roots && Reaches(g, root, d)
    ensures SearchState(g, root, visited + [d], stack + {d})
  {
    var v := visited + [d];
    assert Elems(v) == Elems(visited) + {d};
    forall i, j | 0 <= i < j < |v| ensures v[i] != v[j] {
      if j == |visited| {
        assert v[i] == visited[i];
      }
    }
  }

  /** Once all non-root children of a node on the stack are visited, it can leave the stack. */
  lemma SearchPop<T(!new)>(g: Graph<T>, root: T, visited: seq<T>, stack: set<T>, d: T)
    requires SearchState(g, root, visited, stack + {d})
    requires ChildrenIn(g, d, Elems(visited))
    ensures SearchState(g, root, visited, stack)
  {
  }

  /** A non-root child of r is reached from r. */
  lemma ReachesChild<T(!new)>(g: Graph<T>, r: T, k: T)
    requires r in g.succ && k in g.succ[r] && k !in g.roots
    ensures Reaches(g, r, k)
  {
    var p := [r, k];
    assert NonRootPath(g, p);
  }

  /** A non-root child of a node that r reaches is reached from r too. */
  lemma ReachesStep<T(!new)>(g: Graph<T>, r: T, d: T, k: T)
    requires Reaches(g, r, d) && d in g.succ && k in g.succ[d] && k !in g.roots
    ensures Reaches(g, r, k)
  {
    var p :| NonRootPath(g, p) && p[0] == r && p[|p| - 1] == d;
    var q := p + [k];
    assert forall i :: 0 <= i < |p| ==> q[i] == p[i];
    assert NonRootPath(g, q);
  }

  lemma {:induction false} PathStaysIn<T(!new)>(g: Graph<T>, s: set<T>, p: seq<T>, i: nat)
    requires NonRootPath(g, p) && ChildrenIn(g, p[0], s)
    requires forall n :: n in s ==> ChildrenIn(g, n, s)
    requires 1 <= i < |p|
    ensures p[i] in s
    decreases i
  {
    if i > 1 {
      PathStaysIn(g, s, p, i - 1);
    }
  }

  /**
   * A set that holds the non-root children of r and of each of its own
   * members holds every node that r reaches.
   */
  lemma ClosedSetHoldsReachable<T(!new)>(g: Graph<T>, r: T, s: set<T>)
    requires ChildrenIn(g, r, s)
    requires forall n :: n in s ==> ChildrenIn(g, n, s)
    ensures forall d :: Reaches(g, r, d) ==> d in s
  {
    forall d | Reaches(g, r, d) ensures d in s {
      var p :| NonRootPath(g, p) && p[0] == r && p[|p| - 1] == d;
      PathStaysIn(g, s, p, |p| - 1);
    }
  }

  /**
   * When the search from root has finished (nothing left on the stack) and
   * every non-root child of root was visited, the visited nodes are exactly
   * the nodes root reaches.
   */
  lemma FinishedSearchIsReachableSet<T(!new)>(g: Graph<T>, root: T, visited: seq<T>)
    requires SearchState(g, root, visited, {})
    requires ChildrenIn(g, root, Elems(visited))
    ensures forall d :: d in visited <==> Reaches(g, root, d)
  {
    ClosedSetHoldsReachable(g, root, Elems(visited));
  }
}
