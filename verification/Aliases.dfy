/** The must-equal alias analysis: partitions stored as "smallest symbol of my class" labels. */
module Aliases {
  import opened Wrappers
  import opened Graphs
  import opened FlowGraphs
  import opened Dataflow
  import opened AliasSemantics

  /** The label of a symbol is the smallest symbol of its class. */
  type State = map<Symbol, nat>

  ghost predicate Leads(state: State, leader: nat) {
    leader in state && state[leader] == leader
  }

  ghost predicate Canonical(tracked: set<Symbol>, state: State) {
    && state.Keys == tracked
    && forall s {:trigger Leads(state, state[s])} :: s in state ==> Leads(state, state[s]) && state[s] <= s
  }

  ghost function RelationOf(state: State): Relation {
    set q {:trigger q in Pairs(state.Keys)} | q in Pairs(state.Keys) && SameClass(state, q.0, q.1)
  }

  /** Canonical labels make map equality the same as equality of partitions. */
  lemma CanonicalIsUnique(tracked: set<Symbol>, a: State, b: State)
    requires Canonical(tracked, a) && Canonical(tracked, b)
    ensures a == b <==> RelationOf(a) == RelationOf(b)
  {
    if RelationOf(a) == RelationOf(b) {
      forall s | s in tracked ensures a[s] == b[s] {
        assert Leads(a, a[s]) && Leads(b, b[s]);
        assert (s, a[s]) in RelationOf(a) && (s, b[s]) in RelationOf(b);
      }
    }
  }

  ghost predicate SameClass(state: State, x: Symbol, y: Symbol) {
    x in state && y in state && state[x] == state[y]
  }

  /** Do the labels before the event make x and y equal after it? */
  ghost predicate LabelsAgreeAfter(e: Event, state: State, x: Symbol, y: Symbol)
  {
    match e.source
    case Some(_) => SameClass(state, Origin(e, x), Origin(e, y))
    case None => x == y || (x != e.target && y != e.target && SameClass(state, x, y))
  }

  ghost predicate IsStep(tracked: set<Symbol>, e: Event, before: State, after: State)
    requires EventWithin(tracked, e)
  {
    && Canonical(tracked, before) && Canonical(tracked, after)
    && forall x, y :: x in tracked && y in tracked ==> (SameClass(after, x, y) <==> LabelsAgreeAfter(e, before, x, y))
  }

  lemma StepRelation(tracked: set<Symbol>, e: Event, before: State, after: State)
    requires EventWithin(tracked, e) && IsStep(tracked, e, before, after)
    ensures RelationOf(after) == Step(tracked, e, RelationOf(before))
  {
    forall q | q in Pairs(tracked) ensures q in RelationOf(after) <==> q in Step(tracked, e, RelationOf(before)) {
      if e.source.Some? { assert (Origin(e, q.0), Origin(e, q.1)) in Pairs(tracked); }
    }
  }

  /** Gives every symbol labelled `from`, except `kept`, the label `to`; map order does not matter. */
  method Relabel(state: State, kept: Symbol, from: nat, to: nat) returns (r: State)
    requires from != to
    ensures r.Keys == state.Keys
    ensures forall s :: s in state ==> r[s] == if s != kept && state[s] == from then to else state[s]
  {
    r := state;
    var todo := state.Keys;
    while todo != {}
      invariant todo <= state.Keys && r.Keys == state.Keys
      invariant forall s :: s in state ==>
        r[s] == if s !in todo && s != kept && state[s] == from then to else state[s]
      decreases todo
    {
      var s :| s in todo;
      todo := todo - {s};
      if s != kept && r[s] == from {
        r := r[s := to];
      }
    }
  }

  /** The smallest other symbol of the class, or 0 when there is none. */
  method Successor(state: State, symbol: Symbol, leader: nat) returns (replacement: nat)
    requires 0 !in state
    ensures replacement == 0 ==> forall s :: s in state && s != symbol ==> state[s] != leader
    ensures replacement != 0 ==>
      && replacement in state && replacement != symbol && state[replacement] == leader
      && forall s :: s in state && s != symbol && state[s] == leader ==> replacement <= s
  {
    replacement := 0;
    var todo := state.Keys;
    while todo != {}
      invariant todo <= state.Keys
      invariant replacement == 0 ==> forall s :: s in state && s !in todo && s != symbol ==> state[s] != leader
      invariant replacement != 0 ==>
        && replacement in state && replacement != symbol && state[replacement] == leader
        && forall s :: s in state && s !in todo && s != symbol && state[s] == leader ==> replacement <= s
      decreases todo
    {
      var s :| s in todo;
      todo := todo - {s};
      if s != symbol && state[s] == leader && (replacement == 0 || s < replacement) {
        replacement := s;
      }
    }
  }

  lemma DetachedIsStep(tracked: set<Symbol>, state: State, symbol: Symbol, replacement: nat, r: State)
    requires Canonical(tracked, state) && symbol in tracked && r.Keys == tracked
    requires forall s :: s in tracked ==>
      r[s] == if s == symbol then symbol else if state[s] == symbol then replacement else state[s]
    requires forall s :: s in tracked && s != symbol && state[s] == symbol ==>
      replacement in tracked && replacement != symbol && state[replacement] == symbol && replacement <= s
    ensures IsStep(tracked, Event(0, symbol, None), state, r)
  {
    forall s | s in r ensures Leads(r, r[s]) && r[s] <= s {
      assert Leads(state, state[s]);
    }
    forall x, y | x in tracked && y in tracked
      ensures SameClass(r, x, y) <==> LabelsAgreeAfter(Event(0, symbol, None), state, x, y)
    {
      assert Leads(state, state[x]) && Leads(state, state[y]);
    }
  }

  /** Splits a symbol off its class, passing the label on when the symbol was the smallest member. */
  method DetachAlias(state: State, symbol: Symbol, ghost tracked: set<Symbol>) returns (r: State)
    requires Canonical(tracked, state) && symbol in tracked && 0 !in tracked
    ensures IsStep(tracked, Event(0, symbol, None), state, r) && r[symbol] == symbol
  {
    var leader := state[symbol];
    r := state[symbol := symbol];
    if leader != symbol {
      assert forall s :: s in tracked ==> Leads(state, state[s]);
      DetachedIsStep(tracked, state, symbol, 0, r);
      return;
    }
    var replacement := Successor(r, symbol, leader);
    if replacement == 0 {
      DetachedIsStep(tracked, state, symbol, 0, r);
      return;
    }
    r := Relabel(r, symbol, leader, replacement);
    DetachedIsStep(tracked, state, symbol, replacement, r);
  }

  /** The events applied for a query at an offset; a negative offset applies them all. */
  function Before(events: seq<Event>, until: int): (r: seq<Event>)
    ensures until < 0 ==> r == events
  {
    if events == [] || (until >= 0 && events[0].offset > until) then []
    else [events[0]] + Before(events[1..], until)
  }

  /** They end before the first event that lies behind the offset. */
  lemma {:induction false} BeforeMeans(events: seq<Event>, until: int) returns (n: nat)
    ensures n <= |events| && Before(events, until) == events[..n]
    ensures forall i :: 0 <= i < n ==> until < 0 || events[i].offset <= until
    ensures n < |events| ==> 0 <= until < events[n].offset
    decreases |events|
  {
    n := 0;
    if events != [] && (until < 0 || events[0].offset <= until) {
      var rest := BeforeMeans(events[1..], until);
      n := rest + 1;
      assert events[..n] == [events[0]] + events[1..][..rest];
    }
  }

  lemma BeforeGrows(events: seq<Event>, i: nat, until: int)
    requires i < |events|
    ensures until >= 0 && events[i].offset > until ==> Before(events[i..], until) == []
    ensures !(until >= 0 && events[i].offset > until) ==>
      events[..i] + Before(events[i..], until) == events[..i + 1] + Before(events[i + 1..], until)
  {
    assert events[i..][1..] == events[i + 1..];
  }

  lemma ReplaySnoc(tracked: set<Symbol>, events: seq<Event>, i: nat, r: Relation)
    requires i < |events|
    ensures Replay(tracked, events[..i + 1], r) == Step(tracked, events[i], Replay(tracked, events[..i], r))
  {
    assert events[..i + 1][..i] == events[..i];
  }

  method ApplyAliasEvent(state: State, e: Event, ghost tracked: set<Symbol>) returns (r: State)
    requires Canonical(tracked, state) && EventWithin(tracked, e) && 0 !in tracked
    ensures IsStep(tracked, e, state, r)
  {
    if e.source == Some(e.target) {
      return state;
    }
    r := DetachAlias(state, e.target, tracked);
    if e.source == None {
      return;
    }
    ghost var detached := r;
    var leader := r[e.source.value];
    if e.target < leader {
      r := Relabel(r, 0, leader, e.target);
      leader := e.target;
    }
    r := r[e.target := leader];
    CopyAfterDetach(tracked, e, state, detached, r);
  }

  /** Joining the detached target to the class of its source, under the smaller of the two labels. */
  lemma CopyAfterDetach(tracked: set<Symbol>, e: Event, before: State, detached: State, after: State)
    requires EventWithin(tracked, e) && e.source.Some? && e.source.value != e.target
    requires IsStep(tracked, Event(0, e.target, None), before, detached) && detached[e.target] == e.target
    requires after.Keys == tracked
    requires var leader := detached[e.source.value];
      var shared := if e.target < leader then e.target else leader;
      forall s :: s in tracked ==> after[s] == if s == e.target || detached[s] == leader then shared else detached[s]
    ensures IsStep(tracked, e, before, after)
  {
    var forget := Event(0, e.target, None);
    forall s | s in after ensures Leads(after, after[s]) && after[s] <= s {
      assert Leads(detached, detached[s]) && Leads(detached, detached[e.source.value]);
    }
    forall x, y | x in tracked && y in tracked
      ensures SameClass(after, x, y) <==> LabelsAgreeAfter(e, before, x, y)
    {
      assert SameClass(detached, Origin(e, x), Origin(e, y)) <==>
             LabelsAgreeAfter(forget, before, Origin(e, x), Origin(e, y));
    }
  }

  method ApplyAliasEvents(state: State, events: seq<Event>, until: int, ghost tracked: set<Symbol>)
    returns (r: State)
    requires Canonical(tracked, state) && EventsWithin(tracked, events) && 0 !in tracked
    ensures Canonical(tracked, r)
    ensures RelationOf(r) == Replay(tracked, Before(events, until), RelationOf(state))
  {
    r := state;
    var i := 0;
    while i < |events|
      invariant i <= |events| && Canonical(tracked, r)
      invariant RelationOf(r) == Replay(tracked, events[..i], RelationOf(state))
      invariant Before(events, until) == events[..i] + Before(events[i..], until)
    {
      BeforeGrows(events, i, until);
      if until >= 0 && events[i].offset > until {
        break;
      }
      ghost var previous := r;
      r := ApplyAliasEvent(r, events[i], tracked);
      StepRelation(tracked, events[i], previous, r);
      ReplaySnoc(tracked, events, i, RelationOf(state));
      i := i + 1;
    }
    assert Before(events, until) == events[..i];
  }

  /** The coarsest partition that refines both: symbols stay together when both sides agree. */
  method IntersectAliasStates(left: State, right: State, ghost tracked: set<Symbol>) returns (r: State)
    requires Canonical(tracked, left) && Canonical(tracked, right) && 0 !in tracked
    ensures Canonical(tracked, r)
    ensures RelationOf(r) == RelationOf(left) * RelationOf(right)
  {
    var classes: map<(nat, nat), nat> := map[];
    var todo := left.Keys;
    while todo != {}
      invariant todo <= tracked
      invariant forall s :: s in tracked - todo ==>
        (left[s], right[s]) in classes && classes[(left[s], right[s])] <= s
      invariant forall key :: key in classes ==>
        classes[key] in tracked && key == (left[classes[key]], right[classes[key]])
      decreases todo
    {
      var s :| s in todo;
      todo := todo - {s};
      var key := (left[s], right[s]);
      if key !in classes || s < classes[key] {
        classes := classes[key := s];
      }
    }
    r := map s | s in left.Keys :: classes[(left[s], right[s])];
    forall q ensures q in RelationOf(r) <==> q in RelationOf(left) && q in RelationOf(right) {
      assert q in RelationOf(r) ==> q in Pairs(tracked);
      if q in Pairs(tracked) {
        assert SameClass(r, q.0, q.1) <==> SameClass(left, q.0, q.1) && SameClass(right, q.0, q.1);
      }
    }
  }

  ghost predicate AllCanonical(tracked: set<Symbol>, states: map<nat, State>) {
    forall b :: b in states ==> Canonical(tracked, states[b])
  }

  /** The meet of the published exit states of the given predecessors, if any has one. */
  method JoinedPredecessorAliases(preds: seq<nat>, aliasOut: map<nat, State>, ghost tracked: set<Symbol>)
    returns (r: State, found: bool)
    requires AllCanonical(tracked, aliasOut) && 0 !in tracked
    ensures found <==> exists p :: p in preds && p in aliasOut
    ensures found ==> Canonical(tracked, r)
    ensures found ==> forall q ::
      q in RelationOf(r) <==> forall p :: p in preds && p in aliasOut ==> q in RelationOf(aliasOut[p])
  {
    r := map[];
    found := false;
    for i := 0 to |preds|
      invariant found <==> exists p :: p in preds[..i] && p in aliasOut
      invariant found ==> Canonical(tracked, r)
      invariant found ==> forall q ::
        q in RelationOf(r) <==> forall p :: p in preds[..i] && p in aliasOut ==> q in RelationOf(aliasOut[p])
    {
      var p := preds[i];
      assert preds[..i + 1] == preds[..i] + [p];
      if p !in aliasOut {
        continue;
      }
      if !found {
        r := aliasOut[p];
        found := true;
      } else {
        r := IntersectAliasStates(r, aliasOut[p], tracked);
      }
    }
    assert preds[..|preds|] == preds;
  }

  // ----- The worklist -----

  ghost function Effect(flow: Flow, b: nat, r: Relation): Relation {
    Replay(flow.tracked, flow.EventsOf(b), r)
  }

  ghost function Relations(states: map<nat, State>): map<nat, Relation> {
    map b | b in states :: RelationOf(states[b])
  }

  ghost function Effects(flow: Flow, states: map<nat, State>): map<nat, Relation> {
    map b | b in states :: Effect(flow, b, RelationOf(states[b]))
  }

  ghost function Snapshot(flow: Flow, ins: map<nat, State>, outs: map<nat, State>, queue: seq<nat>): Progress<Pair> {
    Progress(Relations(ins), Effects(flow, ins), Relations(outs), queue)
  }

  lemma SnapshotUpdate(flow: Flow, states: map<nat, State>, b: nat, state: State)
    ensures Relations(states[b := state]) == Relations(states)[b := RelationOf(state)]
    ensures Effects(flow, states[b := state]) == Effects(flow, states)[b := Effect(flow, b, RelationOf(state))]
  {
  }

  lemma SnapshotFacts(flow: Flow, states: map<nat, State>)
    requires AllCanonical(flow.tracked, states)
    ensures Relations(states).Keys == Effects(flow, states).Keys == states.Keys
    ensures forall b :: b in states ==>
      && Relations(states)[b] == RelationOf(states[b]) <= Pairs(flow.tracked)
      && Effects(flow, states)[b] == Effect(flow, b, RelationOf(states[b]))
  {
  }

  /** Nothing that holds on every path has been given up. */
  ghost predicate KeepsCommon(flow: Flow, ins: map<nat, Relation>, outs: map<nat, Relation>) {
    && (forall b, q {:trigger OnEveryPath(flow, b, q)} :: b in ins && OnEveryPath(flow, b, q) ==> q in ins[b])
    && (forall b, q {:trigger AfterEveryPath(flow, b, q)} :: b in outs && AfterEveryPath(flow, b, q) ==> q in outs[b])
  }

  ghost predicate AfterEveryPath(flow: Flow, b: nat, q: Pair) {
    forall path {:trigger PathFromTo(flow.graph.EdgeSet(), path, 0, b)} ::
      PathFromTo(flow.graph.EdgeSet(), path, 0, b) ==> q in Effect(flow, b, RelationAlong(flow, path))
  }

  lemma EntryKeepsCommon(flow: Flow)
    requires flow.WellFormed()
    ensures KeepsCommon(flow, map[0 := Identity(flow.tracked)], map[])
  {
    assert PathFromTo(flow.graph.EdgeSet(), [0], 0, 0);
    assert RelationAlong(flow, [0]) == Identity(flow.tracked);
  }

  /** Distributivity at work: what survives every path into a block survives its events. */
  lemma PublishKeepsCommon(flow: Flow, ins: map<nat, Relation>, outs: map<nat, Relation>, b: nat)
    requires flow.WellFormed() && KeepsCommon(flow, ins, outs)
    requires Reaches(flow.graph.EdgeSet(), 0, b)
    requires b in ins && ins[b] <= Pairs(flow.tracked)
    ensures KeepsCommon(flow, ins, outs[b := Effect(flow, b, ins[b])])
  {
    forall q | AfterEveryPath(flow, b, q) ensures q in Effect(flow, b, ins[b]) {
      var known :| PathFromTo(flow.graph.EdgeSet(), known, 0, b);
      RelationAlongWithin(flow, known);
      ReplayWithin(flow.tracked, flow.EventsOf(b), RelationAlong(flow, known));
      var source := Trace(flow.EventsOf(b), q);
      ReplayIsTraceable(flow.tracked, flow.EventsOf(b), RelationAlong(flow, known), q);
      ReplayIsTraceable(flow.tracked, flow.EventsOf(b), ins[b], q);
      if source.From? {
        forall path | PathFromTo(flow.graph.EdgeSet(), path, 0, b)
          ensures source.pair in RelationAlong(flow, path)
        {
          RelationAlongWithin(flow, path);
          ReplayIsTraceable(flow.tracked, flow.EventsOf(b), RelationAlong(flow, path), q);
        }
        assert OnEveryPath(flow, b, source.pair);
      }
    }
  }

  lemma RelaxKeepsCommon(flow: Flow, ins: map<nat, Relation>, outs: map<nat, Relation>, next: nat, incoming: Relation)
    requires flow.WellFormed() && KeepsCommon(flow, ins, outs)
    requires IsJoin(flow.graph.EdgeSet(), outs, next, incoming)
    ensures KeepsCommon(flow, ins[next := incoming], outs)
  {
    var edges := flow.graph.EdgeSet();
    forall q | OnEveryPath(flow, next, q) ensures q in incoming {
      forall p | (p, next) in edges && p in outs ensures q in outs[p] {
        forall path | PathFromTo(edges, path, 0, p) ensures q in Effect(flow, p, RelationAlong(flow, path)) {
          PathSnoc(edges, path, 0, p, next);
          assert (path + [next])[..|path + [next]| - 1] == path;
          assert q in RelationAlong(flow, path + [next]);
        }
        assert AfterEveryPath(flow, p, q);
      }
      assert CommonFact(edges, outs, next, q);
    }
  }

  lemma JoinMatches(flow: Flow, aliasOut: map<nat, State>, next: nat, incoming: State)
    requires flow.graph.WellFormed() && next < |flow.graph.preds|
    requires forall q :: q in RelationOf(incoming) <==>
      forall p :: p in flow.graph.preds[next] && p in aliasOut ==> q in RelationOf(aliasOut[p])
    ensures IsJoin(flow.graph.EdgeSet(), Relations(aliasOut), next, RelationOf(incoming))
  {
    EdgeFacts(flow.graph);
    var outs := Relations(aliasOut);
    forall q ensures q in RelationOf(incoming) <==> CommonFact(flow.graph.EdgeSet(), outs, next, q) {
      if CommonFact(flow.graph.EdgeSet(), outs, next, q) {
        forall p | p in flow.graph.preds[next] && p in aliasOut ensures q in RelationOf(aliasOut[p]) {
          assert (p, next) in flow.graph.EdgeSet() && p in outs;
        }
      }
    }
  }

  lemma {:induction false} EntryWithinPath(flow: Flow, w: Progress<Pair>, path: seq<nat>)
    requires flow.WellFormed() && 0 in w.ins && w.ins[0] == Identity(flow.tracked)
    requires w.ins.Keys <= w.effects.Keys
    requires forall b :: b in w.ins ==> w.ins[b] <= Pairs(flow.tracked) && w.effects[b] == Effect(flow, b, w.ins[b])
    requires forall b, s {:trigger (b, s) in flow.graph.EdgeSet()} :: (b, s) in flow.graph.EdgeSet() && b in w.ins ==>
      s in w.ins && w.ins[s] <= w.effects[b]
    requires IsPath(flow.graph.EdgeSet(), path) && path[0] == 0
    ensures path[|path| - 1] in w.ins && w.ins[path[|path| - 1]] <= RelationAlong(flow, path)
    decreases |path|
  {
    if |path| > 1 {
      var front, b := path[..|path| - 1], path[|path| - 2];
      EntryWithinPath(flow, w, front);
      RelationAlongWithin(flow, front);
      ReplayMonotone(flow.tracked, flow.EventsOf(b), w.ins[b], RelationAlong(flow, front));
    }
  }

  lemma EntryOnEveryPath(flow: Flow, w: Progress<Pair>, b: nat, q: Pair)
    requires flow.WellFormed() && 0 in w.ins && w.ins[0] == Identity(flow.tracked)
    requires w.ins.Keys <= w.effects.Keys
    requires forall b :: b in w.ins ==> w.ins[b] <= Pairs(flow.tracked) && w.effects[b] == Effect(flow, b, w.ins[b])
    requires forall b, s {:trigger (b, s) in flow.graph.EdgeSet()} :: (b, s) in flow.graph.EdgeSet() && b in w.ins ==>
      s in w.ins && w.ins[s] <= w.effects[b]
    requires b in w.ins && q in w.ins[b]
    ensures OnEveryPath(flow, b, q)
  {
    forall path | PathFromTo(flow.graph.EdgeSet(), path, 0, b) ensures q in RelationAlong(flow, path) {
      EntryWithinPath(flow, w, path);
    }
  }

  ghost predicate Tables(flow: Flow, ins: map<nat, State>, outs: map<nat, State>) {
    && AllCanonical(flow.tracked, ins) && AllCanonical(flow.tracked, outs)
    && ins.Keys <= flow.graph.BlockSet()
    && 0 in ins && RelationOf(ins[0]) == Identity(flow.tracked)
  }

  ghost predicate Between(flow: Flow, ins: map<nat, State>, outs: map<nat, State>, queue: seq<nat>) {
    var w := Snapshot(flow, ins, outs, queue);
    Tables(flow, ins, outs) && Stable(flow.graph.EdgeSet(), w) && KeepsCommon(flow, w.ins, w.outs)
  }

  ghost predicate Within(
    flow: Flow, ins: map<nat, State>, outs: map<nat, State>, queue: seq<nat>, block: nat, done: set<nat>)
  {
    var w := Snapshot(flow, ins, outs, queue);
    Tables(flow, ins, outs) && Visiting(flow.graph.EdgeSet(), w, block, done) && KeepsCommon(flow, w.ins, w.outs)
  }

  lemma StartHolds(flow: Flow, start: State)
    requires flow.WellFormed() && start == map s | s in flow.tracked :: s
    ensures Between(flow, map[0 := start], map[], [0])
  {
    assert forall s :: s in start ==> Leads(start, start[s]);
    forall q ensures q in RelationOf(start) <==> q in Identity(flow.tracked) {
      assert start.Keys == flow.tracked && (q in RelationOf(start) ==> q in Pairs(flow.tracked));
      assert q in Identity(flow.tracked) ==> q in Pairs(flow.tracked);
    }
    EdgeFacts(flow.graph);
    assert flow.graph.IsBlock(0);
    StartIsStable(flow.graph.EdgeSet(), Identity(flow.tracked), Effect(flow, 0, Identity(flow.tracked)));
    EntryKeepsCommon(flow);
    SnapshotUpdate(flow, map[], 0, start);
    assert Relations(map[]) == map[] && Effects(flow, map[]) == map[];
  }

  lemma SkipHolds(flow: Flow, ins: map<nat, State>, outs: map<nat, State>, queue: seq<nat>)
    requires queue != [] && Between(flow, ins, outs, queue)
    requires queue[0] in ins && queue[0] in outs
    requires RelationOf(outs[queue[0]]) == Effect(flow, queue[0], RelationOf(ins[queue[0]]))
    ensures Between(flow, ins, outs, queue[1..])
  {
    SkipKeepsStable(flow.graph.EdgeSet(), Snapshot(flow, ins, outs, queue));
  }

  lemma PublishHolds(flow: Flow, ins: map<nat, State>, outs: map<nat, State>, queue: seq<nat>, out: State)
    requires flow.WellFormed() && queue != [] && Between(flow, ins, outs, queue)
    requires queue[0] in ins && Canonical(flow.tracked, out)
    requires RelationOf(out) == Effect(flow, queue[0], RelationOf(ins[queue[0]]))
    ensures Within(flow, ins, outs[queue[0] := out], queue[1..], queue[0], {})
  {
    hide Stable, Visiting, KeepsCommon, Canonical, Effect, RelationOf;
    var w := Snapshot(flow, ins, outs, queue);
    assert queue[0] in queue;
    SnapshotFacts(flow, ins);
    StableReaches(flow.graph.EdgeSet(), w);
    PublishStartsVisit(flow.graph.EdgeSet(), w);
    PublishKeepsCommon(flow, w.ins, w.outs, queue[0]);
    SnapshotUpdate(flow, outs, queue[0], out);
    assert Snapshot(flow, ins, outs[queue[0] := out], queue[1..])
        == Progress(w.ins, w.effects, w.outs[queue[0] := w.effects[queue[0]]], queue[1..]);
  }

  lemma JoinKeepsTables(flow: Flow, ins: map<nat, State>, outs: map<nat, State>, next: nat, incoming: State)
    requires Tables(flow, ins, outs) && Canonical(flow.tracked, incoming)
    requires next != 0 && flow.graph.IsBlock(next)
    ensures Tables(flow, ins[next := incoming], outs)
  {
  }

  lemma RelaxHolds(
    flow: Flow, ins: map<nat, State>, outs: map<nat, State>, queue: seq<nat>, block: nat, done: set<nat>,
    next: nat, incoming: State, changed: bool)
    requires flow.WellFormed() && Within(flow, ins, outs, queue, block, done)
    requires (block, next) in flow.graph.EdgeSet() && Canonical(flow.tracked, incoming)
    requires IsJoin(flow.graph.EdgeSet(), Relations(outs), next, RelationOf(incoming))
    requires changed <==> next !in ins || ins[next] != incoming
    ensures next in ins ==> RelationOf(incoming) <= RelationOf(ins[next])
    ensures Within(flow, ins[next := incoming], outs, Requeued(queue, next, changed), block, done + {next})
  {
    var edges, w, relation := flow.graph.EdgeSet(), Snapshot(flow, ins, outs, queue), RelationOf(incoming);
    EdgeFacts(flow.graph);
    SnapshotFacts(flow, ins);
    JoinOnlyWeakens(edges, w, block, next, done, relation);
    if next in ins {
      ReplayMonotone(flow.tracked, flow.EventsOf(next), relation, w.ins[next]);
    }
    RelaxKeepsVisit(edges, w, block, next, done, relation, Effect(flow, next, relation), changed);
    SnapshotUpdate(flow, ins, next, incoming);
    assert Snapshot(flow, ins[next := incoming], outs, Requeued(queue, next, changed))
        == Progress(w.ins[next := relation], w.effects[next := Effect(flow, next, relation)], w.outs,
                    Requeued(queue, next, changed));
    RelaxKeepsCommon(flow, w.ins, w.outs, next, relation);
    JoinKeepsTables(flow, ins, outs, next, incoming);
  }

  lemma RelaxShrinks(flow: Flow, ins: map<nat, State>, next: nat, incoming: State)
    requires flow.graph.IsBlock(next) && AllCanonical(flow.tracked, ins) && Canonical(flow.tracked, incoming)
    requires next in ins ==> incoming != ins[next] && RelationOf(incoming) <= RelationOf(ins[next])
    ensures Shrinks(flow.graph.BlockSet(), Relations(ins), Relations(ins[next := incoming]))
  {
    if next in ins {
      CanonicalIsUnique(flow.tracked, ins[next], incoming);
    }
    SnapshotUpdate(flow, ins, next, incoming);
    ChangeShrinksClaims(flow.graph.BlockSet(), Relations(ins), next, RelationOf(incoming));
  }

  lemma EndHolds(flow: Flow, ins: map<nat, State>, outs: map<nat, State>, queue: seq<nat>, block: nat, done: set<nat>)
    requires flow.WellFormed() && Within(flow, ins, outs, queue, block, done)
    requires forall s {:trigger (block, s) in flow.graph.EdgeSet()} :: (block, s) in flow.graph.EdgeSet() ==> s in done
    ensures Between(flow, ins, outs, queue)
  {
    VisitEndsStable(flow.graph.EdgeSet(), Snapshot(flow, ins, outs, queue), block, done);
  }

  /** Exactly the reachable blocks have a state, and it is the meet over all paths. */
  ghost predicate IsMeetOverPaths(flow: Flow, ins: map<nat, State>) {
    && AllCanonical(flow.tracked, ins)
    && (forall b {:trigger Reaches(flow.graph.EdgeSet(), 0, b)} :: b in ins <==> Reaches(flow.graph.EdgeSet(), 0, b))
    && (forall b, q {:trigger OnEveryPath(flow, b, q)} :: b in ins && q in Pairs(flow.tracked) ==>
          (q in RelationOf(ins[b]) <==> OnEveryPath(flow, b, q)))
  }

  lemma EmptyQueueIsExact(flow: Flow, ins: map<nat, State>, outs: map<nat, State>)
    requires flow.WellFormed() && Between(flow, ins, outs, [])
    ensures IsMeetOverPaths(flow, ins)
  {
    var edges, w := flow.graph.EdgeSet(), Snapshot(flow, ins, outs, []);
    SnapshotFacts(flow, ins);
    EmptyQueueIsClosed(edges, w);
    forall b, q | b in ins && q in RelationOf(ins[b]) ensures OnEveryPath(flow, b, q) {
      assert q in w.ins[b];
      EntryOnEveryPath(flow, w, b, q);
    }
    forall b, q | b in ins && OnEveryPath(flow, b, q) ensures q in RelationOf(ins[b]) {
      assert b in w.ins && q in w.ins[b];
    }
  }

  lemma TablesAreCanonical(flow: Flow, ins: map<nat, State>, outs: map<nat, State>)
    requires Tables(flow, ins, outs)
    ensures AllCanonical(flow.tracked, ins) && AllCanonical(flow.tracked, outs)
  {
  }

  /** Recomputes the join at one successor, queueing it when its entry state changes. */
  method UpdateSuccessor(
    flow: Flow, ins: map<nat, State>, outs: map<nat, State>, queue: seq<nat>, block: nat, next: nat,
        ghost done: set<nat>)
    returns (ins': map<nat, State>, queue': seq<nat>)
    requires flow.WellFormed() && Within(flow, ins, outs, queue, block, done)
    requires flow.graph.IsBlock(next) && (block, next) in flow.graph.EdgeSet()
    ensures Within(flow, ins', outs, queue', block, done + {next})
    ensures (ins' == ins && queue' == queue) || Shrinks(flow.graph.BlockSet(), Relations(ins), Relations(ins'))
  {
    hide Stable, KeepsCommon, Canonical, Effect, RelationOf, Shrinks, Tables;
    assert Tables(flow, ins, outs) && block in outs;
    assert AllCanonical(flow.tracked, ins) && AllCanonical(flow.tracked, outs) by {
      TablesAreCanonical(flow, ins, outs);
    }
    EdgeFacts(flow.graph);
    hide Within;
    var incoming, found := JoinedPredecessorAliases(flow.graph.preds[next], outs, flow.tracked);
    var changed := next !in ins || ins[next] != incoming;
    JoinMatches(flow, outs, next, incoming);
    RelaxHolds(flow, ins, outs, queue, block, done, next, incoming, changed);
    if changed {
      RelaxShrinks(flow, ins, next, incoming);
    }
    ins' := ins[next := incoming];
    queue' := Requeued(queue, next, changed);
  }

  /** Passes the exit state of a block on to all its successors. */
  method UpdateSuccessors(flow: Flow, ins: map<nat, State>, outs: map<nat, State>, queue: seq<nat>, block: nat)
    returns (ins': map<nat, State>, queue': seq<nat>)
    requires flow.WellFormed() && flow.graph.IsBlock(block) && Within(flow, ins, outs, queue, block, {})
    ensures Between(flow, ins', outs, queue')
    ensures (ins' == ins && queue' == queue) || Shrinks(flow.graph.BlockSet(), Relations(ins), Relations(ins'))
  {
    hide Within, Between, Shrinks;
    ins', queue' := ins, queue;
    var succs := flow.graph.succs[block];
    ghost var done: set<nat> := {};
    for i := 0 to |succs|
      invariant Within(flow, ins', outs, queue', block, done)
      invariant forall j :: 0 <= j < i ==> succs[j] in done
      invariant (ins' == ins && queue' == queue) || Shrinks(flow.graph.BlockSet(), Relations(ins), Relations(ins'))
    {
      SuccessorFacts(flow.graph, block, i);
      var ins'', queue'' := UpdateSuccessor(flow, ins', outs, queue', block, succs[i], done);
      if ins'' != ins' || queue'' != queue' {
        ShrinksTransitive(flow.graph.BlockSet(), Relations(ins), Relations(ins'), Relations(ins''));
      }
      ins', queue', done := ins'', queue'', done + {succs[i]};
    }
    EndHolds(flow, ins', outs, queue', block, done);
  }

  /** The two symbols hold equal values at the offset, whichever concrete run gets there. */
  ghost predicate AlwaysEqualAt(flow: Flow, b: nat, offset: nat, x: Symbol, y: Symbol) {
    forall path, initial, reached, here ::
      && PathFromTo(flow.graph.EdgeSet(), path, 0, b)
      && RunsAlong(flow, path, initial, reached)
      && Runs(flow.tracked, Before(flow.EventsOf(b), offset), reached, here) ==>
        x in here && y in here && here[x] == here[y]
  }

  lemma {:induction false} BeforeWithin(tracked: set<Symbol>, events: seq<Event>, until: int)
    requires EventsWithin(tracked, events)
    ensures EventsWithin(tracked, Before(events, until))
    decreases |events|
  {
    if events != [] && !(until >= 0 && events[0].offset > until) {
      BeforeWithin(tracked, events[1..], until);
    }
  }

  lemma RelatedIsAlwaysEqual(flow: Flow, ins: map<nat, State>, b: nat, offset: nat, x: Symbol, y: Symbol)
    requires flow.WellFormed() && IsMeetOverPaths(flow, ins) && b in ins && (x, y) in Pairs(flow.tracked)
    requires EventsWithin(flow.tracked, Before(flow.EventsOf(b), offset))
    requires Trace(Before(flow.EventsOf(b), offset), (x, y)).From? ==>
      Trace(Before(flow.EventsOf(b), offset), (x, y)).pair in Pairs(flow.tracked)
    requires Supported(Trace(Before(flow.EventsOf(b), offset), (x, y)), RelationOf(ins[b]))
    ensures AlwaysEqualAt(flow, b, offset, x, y)
  {
    hide Replay, RelationAlong, Runs, RunsAlong, PathFromTo;
    var events := Before(flow.EventsOf(b), offset);
    var source := Trace(events, (x, y));
    forall path, initial, reached, here |
      PathFromTo(flow.graph.EdgeSet(), path, 0, b) && RunsAlong(flow, path, initial, reached) &&
      Runs(flow.tracked, events, reached, here)
      ensures x in here && y in here && here[x] == here[y]
    {
      if source.From? { assert OnEveryPath(flow, b, source.pair); }
      EqualAfterPath(flow, b, path, initial, reached, events, here, x, y);
    }
  }

  lemma UnrelatedIsSeparated(flow: Flow, ins: map<nat, State>, b: nat, offset: nat, x: Symbol, y: Symbol)
    requires flow.WellFormed() && IsMeetOverPaths(flow, ins) && b in ins && (x, y) in Pairs(flow.tracked)
    requires EventsWithin(flow.tracked, Before(flow.EventsOf(b), offset))
    requires Trace(Before(flow.EventsOf(b), offset), (x, y)).From? ==>
      Trace(Before(flow.EventsOf(b), offset), (x, y)).pair in Pairs(flow.tracked)
    requires !Supported(Trace(Before(flow.EventsOf(b), offset), (x, y)), RelationOf(ins[b]))
    ensures !AlwaysEqualAt(flow, b, offset, x, y)
  {
    hide IsMeetOverPaths, Replay, RelationAlong, RelationOf, Runs, RunsAlong, PathFromTo, Trace;
    var tracked, events := flow.tracked, Before(flow.EventsOf(b), offset);
    var path := WitnessPath(flow, ins, b, Trace(events, (x, y)));
    RelationAlongWithin(flow, path);
    ReplayIsTraceable(tracked, events, RelationAlong(flow, path), (x, y));
    var initial, reached := SeparatingRunAlong(flow, path);
    var here := SeparatingRun(tracked, events, reached, RelationAlong(flow, path));
    assert x in tracked && y in tracked && here[x] != here[y];
  }

  /** Replaying the prefix of a block on the exact entry state is exact for the point inside it. */
  lemma ExactInsideBlock(flow: Flow, ins: map<nat, State>, b: nat, offset: nat, x: Symbol, y: Symbol)
    requires flow.WellFormed() && IsMeetOverPaths(flow, ins) && b in ins
    requires x in flow.tracked && y in flow.tracked
    ensures (x, y) in Replay(flow.tracked, Before(flow.EventsOf(b), offset), RelationOf(ins[b]))
      <==> AlwaysEqualAt(flow, b, offset, x, y)
  {
    var tracked, events, r := flow.tracked, Before(flow.EventsOf(b), offset), RelationOf(ins[b]);
    BeforeWithin(tracked, flow.EventsOf(b), offset);
    assert (x, y) in Pairs(tracked);
    ReplayIsTraceable(tracked, events, r, (x, y));
    hide IsMeetOverPaths, Replay, AlwaysEqualAt, RelationOf, Trace;
    if Supported(Trace(events, (x, y)), r) {
      RelatedIsAlwaysEqual(flow, ins, b, offset, x, y);
    } else {
      UnrelatedIsSeparated(flow, ins, b, offset, x, y);
    }
  }

  lemma EqualAfterPath(
    flow: Flow, b: nat, path: seq<nat>, initial: Store, reached: Store, events: seq<Event>, here: Store, x: Symbol,
        y: Symbol)
    requires PathFromTo(flow.graph.EdgeSet(), path, 0, b) && RunsAlong(flow, path, initial, reached)
    requires EventsWithin(flow.tracked, events) && Runs(flow.tracked, events, reached, here)
    requires (x, y) in Pairs(flow.tracked)
    requires Supported(Trace(events, (x, y)), RelationAlong(flow, path))
    ensures x in here && y in here && here[x] == here[y]
  {
    RunsAlongKeepEqual(flow, path, initial, reached);
    RelationAlongWithin(flow, path);
    RunsKeepEqual(flow.tracked, events, reached, here, RelationAlong(flow, path));
    ReplayIsTraceable(flow.tracked, events, RelationAlong(flow, path), (x, y));
  }

  lemma WitnessPath(flow: Flow, ins: map<nat, State>, b: nat, source: Provenance) returns (path: seq<nat>)
    requires IsMeetOverPaths(flow, ins) && b in ins
    requires source.From? ==> source.pair in Pairs(flow.tracked)
    requires !Supported(source, RelationOf(ins[b]))
    ensures PathFromTo(flow.graph.EdgeSet(), path, 0, b) && !Supported(source, RelationAlong(flow, path))
  {
    if source.From? {
      assert !OnEveryPath(flow, b, source.pair);
      path :| PathFromTo(flow.graph.EdgeSet(), path, 0, b) && source.pair !in RelationAlong(flow, path);
    } else {
      assert Reaches(flow.graph.EdgeSet(), 0, b);
      path :| PathFromTo(flow.graph.EdgeSet(), path, 0, b);
    }
  }

  /** The alias tables of one function. */
  class AliasFlow {
    const flow: Flow
    var aliasIn: map<nat, State>

    constructor (flow: Flow)
      ensures this.flow == flow
    {
      this.flow := flow;
      aliasIn := map[];
    }

    method PropagateAliases()
      requires flow.WellFormed()
      modifies this
      ensures IsMeetOverPaths(flow, aliasIn)
    {
      var aliasOut: map<nat, State> := map[];
      aliasIn := map[0 := map s | s in flow.tracked :: s];
      var queue := [0];
      StartHolds(flow, aliasIn[0]);
      while queue != []
        invariant Between(flow, aliasIn, aliasOut, queue)
        decreases Unseen(flow.graph.BlockSet(), Relations(aliasIn)), Claims(Relations(aliasIn)), |queue|
      {
        var block := queue[0];
        assert block in queue && flow.graph.IsBlock(block);
        var out := ApplyAliasEvents(aliasIn[block], flow.EventsOf(block), -1, flow.tracked);
        if block in aliasOut && aliasOut[block] == out {
          SkipHolds(flow, aliasIn, aliasOut, queue);
          queue := queue[1..];
          continue;
        }
        PublishHolds(flow, aliasIn, aliasOut, queue, out);
        aliasOut := aliasOut[block := out];
        aliasIn, queue := UpdateSuccessors(flow, aliasIn, aliasOut, queue[1..], block);
      }
      EmptyQueueIsExact(flow, aliasIn, aliasOut);
    }

    /**
     Are the two symbols known equal at an offset of a block? With the tables built, the answer is
     yes exactly when they are equal in every concrete run that reaches the offset.
     */
    method Aliased(block: Option<nat>, offset: nat, left: Symbol, right: Symbol) returns (result: bool)
      requires flow.WellFormed() && IsMeetOverPaths(flow, aliasIn)
      ensures result <==>
        || left == right
        || (block.Some? && Reaches(flow.graph.EdgeSet(), 0, block.value)
            && left in flow.tracked && right in flow.tracked
            && AlwaysEqualAt(flow, block.value, offset, left, right))
    {
      if left == right {
        return true;
      }
      if block == None || block.value !in aliasIn || left !in flow.tracked || right !in flow.tracked {
        return false;
      }
      assert Reaches(flow.graph.EdgeSet(), 0, block.value);
      assert flow.graph.IsBlock(block.value) by { ReachedIsBlock(flow, block.value); }
      var state := ApplyAliasEvents(aliasIn[block.value], flow.EventsOf(block.value), offset, flow.tracked);
      ExactInsideBlock(flow, aliasIn, block.value, offset, left, right);
      assert (left, right) in Pairs(state.Keys);
      return state[left] == state[right];
    }

    /** The symbols known equal to a symbol at an offset: exactly those equal to it in every concrete run. */
    method Aliases(block: Option<nat>, offset: nat, symbol: Symbol) returns (result: set<Symbol>)
      requires flow.WellFormed() && IsMeetOverPaths(flow, aliasIn)
      ensures forall x :: x in result <==>
        && block.Some? && Reaches(flow.graph.EdgeSet(), 0, block.value)
        && symbol in flow.tracked && x in flow.tracked && AlwaysEqualAt(flow, block.value, offset, symbol, x)
    {
      hide AlwaysEqualAt, Reaches;
      if block == None || block.value !in aliasIn || symbol !in flow.tracked {
        return {};
      }
      assert Reaches(flow.graph.EdgeSet(), 0, block.value);
      assert flow.graph.IsBlock(block.value) by { ReachedIsBlock(flow, block.value); }
      var state := ApplyAliasEvents(aliasIn[block.value], flow.EventsOf(block.value), offset, flow.tracked);
      result := set x | x in state && state[x] == state[symbol];
      forall x | x in flow.tracked ensures x in result <==> AlwaysEqualAt(flow, block.value, offset, symbol, x) {
        ExactInsideBlock(flow, aliasIn, block.value, offset, symbol, x);
        assert (symbol, x) in Pairs(state.Keys);
      }
    }
  }

  lemma ReachedIsBlock(flow: Flow, b: nat)
    requires flow.WellFormed() && Reaches(flow.graph.EdgeSet(), 0, b)
    ensures flow.graph.IsBlock(b)
  {
    EdgeFacts(flow.graph);
    var path :| PathFromTo(flow.graph.EdgeSet(), path, 0, b);
    if |path| > 1 {
      assert (path[|path| - 2], path[|path| - 1]) in flow.graph.EdgeSet();
    }
  }
}
