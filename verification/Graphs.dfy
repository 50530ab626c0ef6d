/** Directed graphs over numbered vertices, with paths and reachability. */
module Graphs {

  type Edges = set<(nat, nat)>

  /** A non-empty sequence of vertices, each joined to the next by an edge. */
  ghost predicate IsPath(edges: Edges, path: seq<nat>) {
    && |path| > 0
    && (|path| > 1 ==> IsPath(edges, path[..|path| - 1]) && (path[|path| - 2], path[|path| - 1]) in edges)
  }

  ghost predicate PathFromTo(edges: Edges, path: seq<nat>, from: nat, to: nat) {
    IsPath(edges, path) && path[0] == from && path[|path| - 1] == to
  }

  ghost predicate Reaches(edges: Edges, from: nat, to: nat) {
    exists path :: PathFromTo(edges, path, from, to)
  }

  /** Reachability by at least one edge. */
  ghost predicate ReachesByEdge(edges: Edges, from: nat, to: nat) {
    exists next {:trigger (from, next) in edges} :: (from, next) in edges && Reaches(edges, next, to)
  }

  lemma {:induction false} PathInMore(edges: Edges, more: Edges, path: seq<nat>)
    requires edges <= more && IsPath(edges, path)
    ensures IsPath(more, path)
    decreases |path|
  {
    if |path| > 1 {
      PathInMore(edges, more, path[..|path| - 1]);
    }
  }

  lemma ReachesSelf(edges: Edges, v: nat)
    ensures Reaches(edges, v, v)
  {
    assert PathFromTo(edges, [v], v, v);
  }

  lemma PathSnoc(edges: Edges, path: seq<nat>, from: nat, via: nat, to: nat)
    requires PathFromTo(edges, path, from, via) && (via, to) in edges
    ensures PathFromTo(edges, path + [to], from, to)
  {
    assert (path + [to])[..|path + [to]| - 1] == path;
  }

  lemma ReachesSnoc(edges: Edges, from: nat, via: nat, to: nat)
    requires Reaches(edges, from, via) && (via, to) in edges
    ensures Reaches(edges, from, to)
  {
    var path :| PathFromTo(edges, path, from, via);
    PathSnoc(edges, path, from, via, to);
  }

  lemma {:induction false} ReachesTransitive(edges: Edges, a: nat, b: nat, c: nat)
    requires Reaches(edges, a, b) && Reaches(edges, b, c)
    ensures Reaches(edges, a, c)
  {
    var path :| PathFromTo(edges, path, b, c);
    FollowPath(edges, a, b, path);
  }

  lemma {:induction false} FollowPath(edges: Edges, a: nat, b: nat, path: seq<nat>)
    requires Reaches(edges, a, b) && IsPath(edges, path) && path[0] == b
    ensures Reaches(edges, a, path[|path| - 1])
    decreases |path|
  {
    if |path| > 1 {
      FollowPath(edges, a, b, path[..|path| - 1]);
      ReachesSnoc(edges, a, path[|path| - 2], path[|path| - 1]);
    }
  }

  lemma ReachesCons(edges: Edges, from: nat, via: nat, to: nat)
    requires (from, via) in edges && Reaches(edges, via, to)
    ensures Reaches(edges, from, to)
  {
    ReachesSelf(edges, from);
    ReachesSnoc(edges, from, from, via);
    ReachesTransitive(edges, from, via, to);
  }

  /** A walk out of a region crosses its border along some edge. */
  lemma {:induction false} FirstCrossing(edges: Edges, region: set<nat>, from: nat, to: nat)
    returns (inside: nat, outside: nat)
    requires Reaches(edges, from, to) && from in region && to !in region
    ensures inside in region && outside !in region && (inside, outside) in edges
    ensures Reaches(edges, from, inside) && Reaches(edges, outside, to)
  {
    var path :| PathFromTo(edges, path, from, to);
    ReachesSelf(edges, to);
    inside, outside := FirstCrossingOnPath(edges, region, path, to);
  }

  lemma {:induction false} FirstCrossingOnPath(edges: Edges, region: set<nat>, path: seq<nat>, to: nat)
    returns (inside: nat, outside: nat)
    requires IsPath(edges, path) && path[0] in region && path[|path| - 1] !in region
    requires Reaches(edges, path[|path| - 1], to)
    ensures inside in region && outside !in region && (inside, outside) in edges
    ensures Reaches(edges, path[0], inside) && Reaches(edges, outside, to)
    decreases |path|
  {
    var front := path[..|path| - 1];
    if front[|front| - 1] in region {
      inside, outside := front[|front| - 1], path[|path| - 1];
      assert PathFromTo(edges, front, path[0], inside);
    } else {
      ReachesCons(edges, front[|front| - 1], path[|path| - 1], to);
      inside, outside := FirstCrossingOnPath(edges, region, front, to);
    }
  }

  /** A set closed under edges contains everything its members reach. */
  lemma {:induction false} ClosedContains(edges: Edges, region: set<nat>, from: nat, to: nat)
    requires from in region && Reaches(edges, from, to)
    requires forall a, b {:trigger (a, b) in edges} :: a in region && (a, b) in edges ==> b in region
    ensures to in region
  {
    if to !in region {
      var inside, outside := FirstCrossing(edges, region, from, to);
      assert false;
    }
  }

  lemma ReachesByEdgeIff(edges: Edges, from: nat, to: nat)
    requires from != to
    ensures ReachesByEdge(edges, from, to) <==> Reaches(edges, from, to)
  {
    if ReachesByEdge(edges, from, to) {
      var next :| (from, next) in edges && Reaches(edges, next, to);
      ReachesCons(edges, from, next, to);
    }
    if Reaches(edges, from, to) {
      var inside, outside := FirstCrossing(edges, {from}, from, to);
    }
  }

  // ----- Cycles -----

  /** A closed chain of at least one edge. */
  ghost predicate IsCycle(edges: Edges, cycle: seq<nat>) {
    |cycle| >= 2 && PathFromTo(edges, cycle, cycle[0], cycle[0])
  }

  ghost predicate Cyclic(edges: Edges) {
    exists v :: ReachesByEdge(edges, v, v)
  }

  lemma CycleIsCyclic(edges: Edges, cycle: seq<nat>)
    requires IsCycle(edges, cycle)
    ensures Cyclic(edges)
  {
    FirstEdge(edges, cycle);
    assert ReachesByEdge(edges, cycle[0], cycle[0]);
  }

  lemma {:induction false} FirstEdge(edges: Edges, path: seq<nat>)
    requires IsPath(edges, path) && |path| >= 2
    ensures (path[0], path[1]) in edges && Reaches(edges, path[1], path[|path| - 1])
    decreases |path|
  {
    if |path| == 2 {
      ReachesSelf(edges, path[1]);
    } else {
      FirstEdge(edges, path[..|path| - 1]);
      ReachesSnoc(edges, path[1], path[|path| - 2], path[|path| - 1]);
    }
  }

  lemma {:induction false} PathSuffix(edges: Edges, path: seq<nat>, i: nat)
    requires IsPath(edges, path) && i < |path|
    ensures IsPath(edges, path[i..])
    decreases |path|
  {
    if i < |path| - 1 {
      PathSuffix(edges, path[..|path| - 1], i);
      assert path[i..][..|path[i..]| - 1] == path[..|path| - 1][i..];
    }
  }

  /** Every vertex of the list leads only to vertices before it. */
  ghost predicate Ordered(edges: Edges, order: seq<nat>) {
    forall i, b {:trigger (order[i], b) in edges} :: 0 <= i < |order| && (order[i], b) in edges ==> b in order[..i]
  }

  lemma {:induction false} ReachesBefore(edges: Edges, order: seq<nat>, i: nat, path: seq<nat>)
    requires Ordered(edges, order) && i < |order| && IsPath(edges, path) && path[0] in order[..i]
    ensures path[|path| - 1] in order[..i]
    decreases |path|
  {
    if |path| > 1 {
      ReachesBefore(edges, order, i, path[..|path| - 1]);
      var j :| 0 <= j < i && order[j] == path[|path| - 2];
      assert (order[j], path[|path| - 1]) in edges;
    }
  }

  ghost predicate Distinct(s: seq<nat>) {
    forall i, j :: 0 <= i < j < |s| ==> s[i] != s[j]
  }

  /** An order in which everything comes after what it leads to has no cycle in it. */
  lemma OrderedIsAcyclic(edges: Edges, order: seq<nat>, v: nat)
    requires Ordered(edges, order) && Distinct(order) && v in order
    ensures !ReachesByEdge(edges, v, v)
  {
    if ReachesByEdge(edges, v, v) {
      var next :| (v, next) in edges && Reaches(edges, next, v);
      var path :| PathFromTo(edges, path, next, v);
      var i :| 0 <= i < |order| && order[i] == v;
      assert (order[i], next) in edges && v !in order[..i];
      ReachesBefore(edges, order, i, path);
    }
  }
}
