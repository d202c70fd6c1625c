/** Reachability in a finite directed graph, as the closure loops of the engines are judged by it. */
module Graph {

  type Edges = set<(nat, nat)>

  ghost predicate IsPath(edges: Edges, path: seq<nat>) {
    |path| > 0 && forall k :: 0 <= k < |path| - 1 ==> (path[k], path[k + 1]) in edges
  }

  ghost predicate Reaches(edges: Edges, from: nat, to: nat) {
    exists path :: IsPath(edges, path) && path[0] == from && path[|path| - 1] == to
  }

  lemma ReachesSelf(edges: Edges, n: nat)
    ensures Reaches(edges, n, n)
  {
    assert IsPath(edges, [n]);
  }

  lemma ReachesBefore(edges: Edges, from: nat, via: nat, to: nat)
    requires (from, via) in edges && Reaches(edges, via, to)
    ensures Reaches(edges, from, to)
  {
    var path :| IsPath(edges, path) && path[0] == via && path[|path| - 1] == to;
    var longer := [from] + path;
    assert forall k :: 0 < k < |longer| - 1 ==> (longer[k], longer[k + 1]) == (path[k - 1], path[k]);
    assert IsPath(edges, longer);
  }

  lemma ReachesAfter(edges: Edges, from: nat, via: nat, to: nat)
    requires Reaches(edges, from, via) && (via, to) in edges
    ensures Reaches(edges, from, to)
  {
    var path :| IsPath(edges, path) && path[0] == from && path[|path| - 1] == via;
    assert IsPath(edges, path + [to]);
  }

  /** A set that every edge leads into from its target back to its source holds everything that reaches it. */
  lemma {:induction false} PathStaysBackward(edges: Edges, closed: iset<nat>, path: seq<nat>)
    requires forall e :: e in edges && e.1 in closed ==> e.0 in closed
    requires IsPath(edges, path) && path[|path| - 1] in closed
    ensures path[0] in closed
  {
    if |path| > 1 {
      PathStaysBackward(edges, closed, path[1..]);
      assert (path[0], path[1]) in edges;
    }
  }

  lemma BackwardClosed(edges: Edges, closed: iset<nat>, from: nat, to: nat)
    requires forall e :: e in edges && e.1 in closed ==> e.0 in closed
    requires Reaches(edges, from, to) && to in closed
    ensures from in closed
  {
    var path :| IsPath(edges, path) && path[0] == from && path[|path| - 1] == to;
    PathStaysBackward(edges, closed, path);
  }

  lemma ForwardClosed(edges: Edges, closed: iset<nat>, from: nat, to: nat)
    requires forall e :: e in edges && e.0 in closed ==> e.1 in closed
    requires Reaches(edges, from, to) && from in closed
    ensures to in closed
  {
    if to !in closed {
      var outside := iset n | n !in closed;
      BackwardClosed(edges, outside, from, to);
    }
  }
}
