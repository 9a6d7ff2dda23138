/** Reachability in a graph that is given by its successor function. A path is a list of nodes,
    and a node reaches another when there is a path between them. A depth-first walk is described by
    its visited nodes and by the nodes whose visit is still open: the successors of every other
    visited node are visited. When no visit is open, the visited nodes are the reachable ones. The
    walks over types, type facts and configs are all proved with these lemmas. */
module Graphs {

  ghost predicate IsPath<T(!new)>(succ: T -> set<T>, p: seq<T>, from: T, to: T) {
    && p != [] && p[0] == from && p[|p| - 1] == to
    && forall i :: 0 <= i < |p| - 1 ==> p[i + 1] in succ(p[i])
  }

  ghost predicate Reaches<T(!new)>(succ: T -> set<T>, from: T, to: T) {
    exists p :: IsPath(succ, p, from, to)
  }

  ghost predicate IsClosed<T(!new)>(succ: T -> set<T>, nodes: set<T>) {
    forall n <- nodes :: succ(n) <= nodes
  }

  lemma ReachesSelf<T(!new)>(succ: T -> set<T>, a: T)
    ensures Reaches(succ, a, a)
  {
    assert IsPath(succ, [a], a, a);
  }

  lemma ReachesNext<T(!new)>(succ: T -> set<T>, a: T, b: T, c: T)
    requires Reaches(succ, a, b) && c in succ(b)
    ensures Reaches(succ, a, c)
  {
    var p :| IsPath(succ, p, a, b);
    assert IsPath(succ, p + [c], a, c);
  }

  /** A closed set that holds a node holds everything the node reaches. */
  lemma ClosedHoldsReachable<T(!new)>(succ: T -> set<T>, nodes: set<T>, a: T, b: T)
    requires IsClosed(succ, nodes) && a in nodes && Reaches(succ, a, b)
    ensures b in nodes
  {
    var p :| IsPath(succ, p, a, b);
    for i := 0 to |p| - 1
      invariant p[i] in nodes
    {
    }
  }

  /** The state of a depth-first walk: the successors of every visited node are visited, except
      for the nodes whose visit is still open. */
  ghost predicate Explored<T(!new)>(succ: T -> set<T>, visited: set<T>, open: set<T>) {
    forall n <- visited :: n !in open ==> succ(n) <= visited
  }

  ghost predicate ReachedFrom<T(!new)>(succ: T -> set<T>, roots: set<T>, n: T) {
    exists root <- roots :: Reaches(succ, root, n)
  }

  /** The nodes of a set that some root reaches. */
  ghost function Reachable<T(!new)>(succ: T -> set<T>, universe: set<T>, roots: set<T>): set<T> {
    set n | n in universe && ReachedFrom(succ, roots, n)
  }

  lemma ReachableIsClosed<T(!new)>(succ: T -> set<T>, universe: set<T>, roots: set<T>)
    requires IsClosed(succ, universe) && roots <= universe
    ensures IsClosed(succ, Reachable(succ, universe, roots)) && roots <= Reachable(succ, universe, roots)
    ensures forall n :: n in Reachable(succ, universe, roots) <==> ReachedFrom(succ, roots, n)
  {
    forall root | root in roots
      ensures root in Reachable(succ, universe, roots)
    {
      ReachesSelf(succ, root);
    }
    forall n, m | n in Reachable(succ, universe, roots) && m in succ(n)
      ensures m in Reachable(succ, universe, roots)
    {
      var root :| root in roots && Reaches(succ, root, n);
      ReachesNext(succ, root, n, m);
    }
    forall n | ReachedFrom(succ, roots, n)
      ensures n in universe
    {
      var root :| root in roots && Reaches(succ, root, n);
      ClosedHoldsReachable(succ, universe, root, n);
    }
  }

  /** A walk that is finished has visited every node that its roots reach. */
  lemma ExploredIsReachable<T(!new)>(succ: T -> set<T>, universe: set<T>, roots: set<T>, visited: set<T>)
    requires IsClosed(succ, universe) && roots <= universe
    requires Explored(succ, visited, {}) && roots <= visited <= Reachable(succ, universe, roots)
    ensures visited == Reachable(succ, universe, roots)
  {
    forall n | n in Reachable(succ, universe, roots)
      ensures n in visited
    {
      var root :| root in roots && Reaches(succ, root, n);
      ClosedHoldsReachable(succ, visited, root, n);
    }
  }
}
