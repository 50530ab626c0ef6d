/** Constant propagation: which symbols have a known value on entry to each block. */
module ValuePropagation {
  import opened Wrappers
  import opened Graphs
  import opened FlowGraphs
  import opened Dataflow
  import opened ConstEval
  import opened ValueSemantics

  type Fact = (Symbol, int)

  ghost function FactsOf(values: Values): set<Fact> {
    set s | s in values :: (s, values[s])
  }

  lemma FactsOrder(a: Values, b: Values)
    ensures FactsOf(a) <= FactsOf(b) <==> Weaker(a, b)
    ensures FactsOf(a) == FactsOf(b) <==> a == b
  {
    if FactsOf(a) <= FactsOf(b) {
      forall s | s in a ensures s in b && b[s] == a[s] {
        assert (s, a[s]) in FactsOf(a);
      }
    }
    if FactsOf(a) == FactsOf(b) {
      forall s | s in b ensures s in a && b[s] == a[s] {
        assert (s, b[s]) in FactsOf(b);
      }
    }
  }

  /** The events applied for a query at an offset; a negative offset applies them all. */
  function Before(events: seq<ValueEvent>, until: int): (r: seq<ValueEvent>)
    ensures until < 0 ==> r == events
    ensures forall e :: e in r ==> e in events
  {
    if events == [] || (until >= 0 && events[0].offset > until) then []
    else [events[0]] + Before(events[1..], until)
  }

  /** They end before the first event that lies behind the offset. */
  lemma {:induction false} BeforeMeans(events: seq<ValueEvent>, until: int) returns (n: nat)
    ensures n <= |events| && Before(events, until) == events[..n]
    ensures forall i :: 0 <= i < n ==> until < 0 || events[i].offset <= until
    ensures n < |events| ==> 0 <= until < events[n].offset
    decreases |events|
  {
    n := 0;
    if events != [] && (until < 0 || events[0].offset <= until) {
      var rest := BeforeMeans(events[1..], until);
      n := rest + 1;
      assert events[..n] == [events[0]] + events[1..][..rest];
    }
  }

  method ApplyValueEvents(env: Env, state: Values, events: seq<ValueEvent>, until: int) returns (r: Values)
    ensures r == ApplyEvents(env, Before(events, until), state)
    ensures exists states ::
      IsTrace(env, Before(events, until), states) && states[0] == state && r == states[|states| - 1]
  {
    hide ApplyEvents, Evaluation, Before, IsTrace;
    r := state;
    var i := 0;
    NothingApplied(env, state);
    assert events[..0] == [];
    BeforeAt(events, 0, until);
    while i < |events|
      invariant i <= |Before(events, until)| <= |events|
      invariant r == ApplyEvents(env, events[..i], state)
    {
      var e := events[i];
      BeforeAt(events, i, until);
      if until >= 0 && e.offset > until {
        break;
      }
      ApplyNext(env, events, i, state);
      match e {
        case Invalidate(_, s) =>
          r := r - {s};
        case Assign(_, s, None) =>
          r := r[s := 0];
        case Assign(_, s, Some(expr)) =>
          var v := Evaluation(env, expr, r);
          r := if v == None then r - {s} else r[s := v.value];
      }
      i := i + 1;
    }
    BeforeAt(events, i, until);
    ghost var states := AppliedIsTrace(env, Before(events, until), state);
    TraceIsLong(env, Before(events, until), states);
  }

  lemma TraceIsLong(env: Env, events: seq<ValueEvent>, states: seq<Values>)
    requires IsTrace(env, events, states)
    ensures |states| == |events| + 1
  {
  }

  lemma NothingApplied(env: Env, state: Values)
    ensures ApplyEvents(env, [], state) == state
  {
  }

  lemma ApplyNext(env: Env, events: seq<ValueEvent>, i: nat, state: Values)
    requires i < |events|
    ensures ApplyEvents(env, events[..i + 1], state) == ApplyEvent(env, events[i], ApplyEvents(env, events[..i], state))
  {
    assert events[..i + 1][..i] == events[..i];
  }

  /** The events applied are a prefix, which ends at the first one behind the offset. */
  lemma {:induction false} BeforeAt(events: seq<ValueEvent>, i: nat, until: int)
    requires i <= |Before(events, until)|
    ensures |Before(events, until)| <= |events| && Before(events, until) == events[..|Before(events, until)|]
    ensures i < |Before(events, until)| <==> i < |events| && (until < 0 || events[i].offset <= until)
    decreases |events|
  {
    if events != [] && (until < 0 || events[0].offset <= until) {
      BeforeAt(events[1..], if i > 0 then i - 1 else 0, until);
      var n := |Before(events[1..], until)|;
      assert events[..n + 1] == [events[0]] + events[1..][..n];
    }
  }

  /** Drops every value the other state does not confirm. */
  method KeepCommon(state: Values, other: Values) returns (r: Values)
    ensures r == map s | s in state && s in other && other[s] == state[s] :: state[s]
  {
    r := state;
    var todo := state.Keys;
    while todo != {}
      invariant todo <= state.Keys
      invariant r == map s | s in state && (s in todo || (s in other && other[s] == state[s])) :: state[s]
      decreases todo
    {
      var s :| s in todo;
      todo := todo - {s};
      if s !in other || other[s] != r[s] {
        r := r - {s};
      }
    }
  }

  /** The values all published predecessors agree on, if any predecessor is published. */
  method JoinedPredecessorValues(preds: seq<nat>, valueOut: map<nat, Values>) returns (r: Values, found: bool)
    ensures found <==> exists p :: p in preds && p in valueOut
    ensures found ==> forall f ::
      f in FactsOf(r) <==> forall p :: p in preds && p in valueOut ==> f in FactsOf(valueOut[p])
  {
    r := map[];
    found := false;
    for i := 0 to |preds|
      invariant found <==> exists p :: p in preds[..i] && p in valueOut
      invariant found ==> forall f ::
        f in FactsOf(r) <==> forall p :: p in preds[..i] && p in valueOut ==> f in FactsOf(valueOut[p])
    {
      var p := preds[i];
      assert preds[..i + 1] == preds[..i] + [p];
      if p !in valueOut {
        continue;
      }
      if !found {
        r := valueOut[p];
        found := true;
      } else {
        ghost var before := r;
        r := KeepCommon(r, valueOut[p]);
        CommonFacts(before, valueOut[p], r);
      }
    }
    assert preds[..|preds|] == preds;
  }

  lemma CommonFacts(a: Values, b: Values, common: Values)
    requires common == map s | s in a && s in b && b[s] == a[s] :: a[s]
    ensures forall f :: f in FactsOf(common) <==> f in FactsOf(a) && f in FactsOf(b)
  {
    forall f ensures f in FactsOf(common) <==> f in FactsOf(a) && f in FactsOf(b) {
      if f in FactsOf(a) && f in FactsOf(b) {
        assert f.0 in a && f == (f.0, a[f.0]) && f.0 in b && f == (f.0, b[f.0]);
        assert f.0 in common;
      }
    }
  }

  // ----- The worklist -----

  ghost predicate AllConsistent(flow: ValueFlow, states: map<nat, Values>) {
    forall b :: b in states ==> Consistent(flow, states[b])
  }

  ghost function Known(states: map<nat, Values>): map<nat, set<Fact>> {
    map b | b in states :: FactsOf(states[b])
  }

  ghost function Effect(flow: ValueFlow, b: nat, values: Values): set<Fact> {
    FactsOf(ApplyEvents(flow.env, flow.EventsOf(b), values))
  }

  ghost function Effects(flow: ValueFlow, states: map<nat, Values>): map<nat, set<Fact>> {
    map b | b in states :: Effect(flow, b, states[b])
  }

  ghost function Snapshot(flow: ValueFlow, ins: map<nat, Values>, outs: map<nat, Values>,
      queue: seq<nat>): Progress<Fact> {
    Progress(Known(ins), Effects(flow, ins), Known(outs), queue)
  }

  lemma SnapshotUpdate(flow: ValueFlow, states: map<nat, Values>, b: nat, values: Values)
    ensures Known(states[b := values]) == Known(states)[b := FactsOf(values)]
    ensures Effects(flow, states[b := values]) == Effects(flow, states)[b := Effect(flow, b, values)]
  {
    hide FactsOf, Effect;
    var updated := states[b := values];
    assert Effects(flow, updated).Keys == Effects(flow, states).Keys + {b};
    assert Known(updated).Keys == Known(states).Keys + {b};
  }

  ghost predicate Tables(flow: ValueFlow, ins: map<nat, Values>, outs: map<nat, Values>) {
    && AllConsistent(flow, ins) && AllConsistent(flow, outs)
    && ins.Keys <= flow.graph.BlockSet()
    && 0 in ins && ins[0] == map[]
  }

  ghost predicate Between(flow: ValueFlow, ins: map<nat, Values>, outs: map<nat, Values>, queue: seq<nat>) {
    Tables(flow, ins, outs) && Stable(flow.graph.EdgeSet(), Snapshot(flow, ins, outs, queue))
  }

  ghost predicate Within(
    flow: ValueFlow, ins: map<nat, Values>, outs: map<nat, Values>, queue: seq<nat>, block: nat, done: set<nat>)
  {
    Tables(flow, ins, outs) && Visiting(flow.graph.EdgeSet(), Snapshot(flow, ins, outs, queue), block, done)
  }

  lemma StartHolds(flow: ValueFlow)
    requires flow.WellFormed()
    ensures Between(flow, map[0 := map[]], map[], [0])
  {
    assert flow.graph.IsBlock(0);
    StartIsStable(flow.graph.EdgeSet(), FactsOf(map[]), Effect(flow, 0, map[]));
    SnapshotUpdate(flow, map[], 0, map[]);
    assert Known(map[]) == map[] && Effects(flow, map[]) == map[];
  }

  lemma SkipHolds(flow: ValueFlow, ins: map<nat, Values>, outs: map<nat, Values>, queue: seq<nat>)
    requires queue != [] && Between(flow, ins, outs, queue)
    requires queue[0] in ins && queue[0] in outs
    requires outs[queue[0]] == ApplyEvents(flow.env, flow.EventsOf(queue[0]), ins[queue[0]])
    ensures Between(flow, ins, outs, queue[1..])
  {
    hide Stable, Consistent, FactsOf, ApplyEvents;
    SkipKeepsStable(flow.graph.EdgeSet(), Snapshot(flow, ins, outs, queue));
  }

  lemma PublishHolds(flow: ValueFlow, ins: map<nat, Values>, outs: map<nat, Values>, queue: seq<nat>)
    requires flow.WellFormed() && queue != [] && Between(flow, ins, outs, queue)
    requires queue[0] in ins && EventsSettled(flow, flow.EventsOf(queue[0]))
    ensures var out := ApplyEvents(flow.env, flow.EventsOf(queue[0]), ins[queue[0]]);
      Within(flow, ins, outs[queue[0] := out], queue[1..], queue[0], {})
  {
    hide Stable, Visiting, Consistent, FactsOf, ApplyEvents, Weaker, EventsSettled;
    var w, b := Snapshot(flow, ins, outs, queue), queue[0];
    var out := ApplyEvents(flow.env, flow.EventsOf(b), ins[b]);
    WeakerSelf(ins[b]);
    ApplyEventsRegular(flow, flow.EventsOf(b), ins[b], ins[b]);
    PublishStartsVisit(flow.graph.EdgeSet(), w);
    SnapshotUpdate(flow, outs, b, out);
    assert Snapshot(flow, ins, outs[b := out], queue[1..])
        == Progress(w.ins, w.effects, w.outs[b := w.effects[b]], queue[1..]);
  }

  lemma WithinFacts(
    flow: ValueFlow, ins: map<nat, Values>, outs: map<nat, Values>, queue: seq<nat>, block: nat, done: set<nat>)
    requires Within(flow, ins, outs, queue, block, done)
    ensures block in outs && Tables(flow, ins, outs)
  {
  }

  lemma HeadFacts(flow: ValueFlow, ins: map<nat, Values>, outs: map<nat, Values>, queue: seq<nat>)
    requires flow.WellFormed() && queue != [] && Between(flow, ins, outs, queue)
    ensures queue[0] in ins && flow.graph.IsBlock(queue[0]) && EventsSettled(flow, flow.EventsOf(queue[0]))
    ensures Before(flow.EventsOf(queue[0]), -1) == flow.EventsOf(queue[0])
  {
    assert queue[0] in queue;
  }

  lemma ShrinksDecreases(blocks: set<nat>, before: map<nat, set<Fact>>, after: map<nat, set<Fact>>)
    ensures Shrinks(blocks, before, after) ==>
      Unseen(blocks, after) < Unseen(blocks, before)
      || (Unseen(blocks, after) == Unseen(blocks, before) && Claims(after) < Claims(before))
  {
  }

  /** A join is never stronger than any of the states it joins. */
  lemma JoinIsConsistent(
    flow: ValueFlow, ins: map<nat, Values>, outs: map<nat, Values>, queue: seq<nat>, block: nat, done: set<nat>,
    next: nat, incoming: Values)
    requires flow.WellFormed() && Within(flow, ins, outs, queue, block, done)
    requires (block, next) in flow.graph.EdgeSet()
    requires IsJoin(flow.graph.EdgeSet(), Known(outs), next, FactsOf(incoming))
    ensures next != 0 && Consistent(flow, incoming)
    ensures next in ins ==> Weaker(incoming, ins[next])
  {
    hide Visiting, FactsOf, Consistent, Weaker;
    EdgeFacts(flow.graph);
    WithinFacts(flow, ins, outs, queue, block, done);
    JoinOnlyWeakens(flow.graph.EdgeSet(), Snapshot(flow, ins, outs, queue), block, next, done, FactsOf(incoming));
    FactsOrder(incoming, outs[block]);
    WeakerIsConsistent(flow, incoming, outs[block]);
    if next in ins { FactsOrder(incoming, ins[next]); }
  }

  lemma WeakerIsConsistent(flow: ValueFlow, a: Values, b: Values)
    requires Weaker(a, b) && Consistent(flow, b)
    ensures Consistent(flow, a)
  {
  }

  lemma JoinKeepsTables(flow: ValueFlow, ins: map<nat, Values>, outs: map<nat, Values>, next: nat, incoming: Values)
    requires Tables(flow, ins, outs) && Consistent(flow, incoming)
    requires next != 0 && flow.graph.IsBlock(next)
    ensures Tables(flow, ins[next := incoming], outs)
  {
  }

  lemma RelaxHolds(
    flow: ValueFlow, ins: map<nat, Values>, outs: map<nat, Values>, queue: seq<nat>, block: nat, done: set<nat>,
    next: nat, incoming: Values, changed: bool)
    requires flow.WellFormed() && Within(flow, ins, outs, queue, block, done)
    requires (block, next) in flow.graph.EdgeSet() && flow.graph.IsBlock(next)
    requires EventsSettled(flow, flow.EventsOf(next))
    requires IsJoin(flow.graph.EdgeSet(), Known(outs), next, FactsOf(incoming))
    requires changed <==> next !in ins || ins[next] != incoming
    ensures Within(flow, ins[next := incoming], outs, Requeued(queue, next, changed), block, done + {next})
    ensures changed ==> Shrinks(flow.graph.BlockSet(), Known(ins), Known(ins[next := incoming]))
  {
    hide Visiting, FactsOf, Consistent, Weaker, ApplyEvents, EventsSettled, Shrinks, IsJoin, Tables;
    var edges, w := flow.graph.EdgeSet(), Snapshot(flow, ins, outs, queue);
    EdgeFacts(flow.graph);
    JoinIsConsistent(flow, ins, outs, queue, block, done, next, incoming);
    if next in ins {
      EntryIsConsistent(flow, ins, outs, next);
      ApplyEventsRegular(flow, flow.EventsOf(next), incoming, ins[next]);
      FactsOrder(ApplyEvents(flow.env, flow.EventsOf(next), incoming),
          ApplyEvents(flow.env, flow.EventsOf(next), ins[next]));
      FactsOrder(incoming, ins[next]);
    }
    RelaxKeepsVisit(edges, w, block, next, done, FactsOf(incoming), Effect(flow, next, incoming), changed);
    SnapshotUpdate(flow, ins, next, incoming);
    assert Snapshot(flow, ins[next := incoming], outs, Requeued(queue, next, changed))
        == Progress(w.ins[next := FactsOf(incoming)], w.effects[next := Effect(flow, next, incoming)], w.outs,
                    Requeued(queue, next, changed));
    JoinKeepsTables(flow, ins, outs, next, incoming);
    if changed {
      ChangeShrinksClaims(flow.graph.BlockSet(), Known(ins), next, FactsOf(incoming));
    }
  }

  lemma EntryIsConsistent(flow: ValueFlow, ins: map<nat, Values>, outs: map<nat, Values>, b: nat)
    requires Tables(flow, ins, outs) && b in ins
    ensures Consistent(flow, ins[b])
  {
  }

  lemma JoinMatches(flow: ValueFlow, valueOut: map<nat, Values>, next: nat, incoming: Values)
    requires flow.graph.WellFormed() && flow.graph.IsBlock(next)
    requires forall f :: f in FactsOf(incoming) <==>
      forall p :: p in flow.graph.preds[next] && p in valueOut ==> f in FactsOf(valueOut[p])
    ensures IsJoin(flow.graph.EdgeSet(), Known(valueOut), next, FactsOf(incoming))
  {
    EdgeFacts(flow.graph);
    var edges, outs := flow.graph.EdgeSet(), Known(valueOut);
    forall f ensures f in FactsOf(incoming) <==> CommonFact(edges, outs, next, f) {
      if CommonFact(edges, outs, next, f) {
        forall p | p in flow.graph.preds[next] && p in valueOut ensures f in FactsOf(valueOut[p]) {
          assert (p, next) in edges && p in outs;
        }
      }
    }
  }

  method UpdateSuccessor(
    flow: ValueFlow, ins: map<nat, Values>, outs: map<nat, Values>, queue: seq<nat>, block: nat, next: nat,
        ghost done: set<nat>)
    returns (ins': map<nat, Values>, queue': seq<nat>)
    requires flow.WellFormed() && Within(flow, ins, outs, queue, block, done)
    requires flow.graph.IsBlock(next) && (block, next) in flow.graph.EdgeSet()
    ensures Within(flow, ins', outs, queue', block, done + {next})
    ensures (ins' == ins && queue' == queue) || Shrinks(flow.graph.BlockSet(), Known(ins), Known(ins'))
  {
    hide Within, FactsOf, Shrinks, EventsSettled;
    WithinFacts(flow, ins, outs, queue, block, done);
    EdgeFacts(flow.graph);
    var incoming, found := JoinedPredecessorValues(flow.graph.preds[next], outs);
    assert block in flow.graph.preds[next] && block in outs;
    var changed := next !in ins || ins[next] != incoming;
    JoinMatches(flow, outs, next, incoming);
    RelaxHolds(flow, ins, outs, queue, block, done, next, incoming, changed);
    ins' := ins[next := incoming];
    queue' := Requeued(queue, next, changed);
  }

  method UpdateSuccessors(flow: ValueFlow, ins: map<nat, Values>, outs: map<nat, Values>, queue: seq<nat>, block: nat)
    returns (ins': map<nat, Values>, queue': seq<nat>)
    requires flow.WellFormed() && flow.graph.IsBlock(block) && Within(flow, ins, outs, queue, block, {})
    ensures Between(flow, ins', outs, queue')
    ensures (ins' == ins && queue' == queue) || Shrinks(flow.graph.BlockSet(), Known(ins), Known(ins'))
  {
    hide Within, Between, Shrinks;
    ins', queue' := ins, queue;
    var succs := flow.graph.succs[block];
    ghost var done: set<nat> := {};
    for i := 0 to |succs|
      invariant Within(flow, ins', outs, queue', block, done)
      invariant forall j :: 0 <= j < i ==> succs[j] in done
      invariant (ins' == ins && queue' == queue) || Shrinks(flow.graph.BlockSet(), Known(ins), Known(ins'))
    {
      SuccessorFacts(flow.graph, block, i);
      var ins'', queue'' := UpdateSuccessor(flow, ins', outs, queue', block, succs[i], done);
      if ins'' != ins' || queue'' != queue' {
        ShrinksTransitive(flow.graph.BlockSet(), Known(ins), Known(ins'), Known(ins''));
      }
      ins', queue', done := ins'', queue'', done + {succs[i]};
    }
    EndHolds(flow, ins', outs, queue', block, done);
  }

  lemma EndHolds(
    flow: ValueFlow, ins: map<nat, Values>, outs: map<nat, Values>, queue: seq<nat>, block: nat, done: set<nat>)
    requires flow.WellFormed() && Within(flow, ins, outs, queue, block, done)
    requires forall s {:trigger (block, s) in flow.graph.EdgeSet()} :: (block, s) in flow.graph.EdgeSet() ==> s in done
    ensures Between(flow, ins, outs, queue)
  {
    VisitEndsStable(flow.graph.EdgeSet(), Snapshot(flow, ins, outs, queue), block, done);
  }

  /**
   What the loop stops at: exactly the reachable blocks have values, the entry none, and every other
   block those that all its reachable predecessors agree on.
   */
  ghost predicate IsTable(flow: ValueFlow, ins: map<nat, Values>) {
    && (forall b {:trigger Reaches(flow.graph.EdgeSet(), 0, b)} :: b in ins <==> Reaches(flow.graph.EdgeSet(), 0, b))
    && 0 in ins && ins[0] == map[]
    && forall b :: b in ins && b != 0 ==> IsJoin(flow.graph.EdgeSet(), Effects(flow, ins), b, FactsOf(ins[b]))
  }

  /** The values hold in every concrete run. */
  ghost predicate IsSound(flow: ValueFlow, ins: map<nat, Values>) {
    && AllConsistent(flow, ins)
    && (forall b {:trigger Reaches(flow.graph.EdgeSet(), 0, b)} :: b in ins <==> Reaches(flow.graph.EdgeSet(), 0, b))
    && (forall b, path, initial, reached {:trigger PathFromTo(flow.graph.EdgeSet(), path, 0, b),
      RunsAlong(flow, path, initial, reached)} ::
          b in ins && PathFromTo(flow.graph.EdgeSet(), path, 0, b) && RunsAlong(flow, path, initial, reached) ==>
            Agrees(ins[b], reached) && ConstantsHold(flow.env, reached))
  }

  /** What a block passes on holds more than what its successor starts from. */
  lemma EdgeWeakens(flow: ValueFlow, ins: map<nat, Values>, b: nat, s: nat)
    requires flow.graph.WellFormed() && IsTable(flow, ins) && b in ins && (b, s) in flow.graph.EdgeSet()
    ensures s in ins && Weaker(ins[s], ApplyEvents(flow.env, flow.EventsOf(b), ins[b]))
  {
    hide FactsOf, ApplyEvents;
    EdgeFacts(flow.graph);
    ReachesSnoc(flow.graph.EdgeSet(), 0, b, s);
    forall f | f in FactsOf(ins[s]) ensures f in Effect(flow, b, ins[b]) {
      assert CommonFact(flow.graph.EdgeSet(), Effects(flow, ins), s, f);
    }
    FactsOrder(ins[s], ApplyEvents(flow.env, flow.EventsOf(b), ins[b]));
  }

  lemma {:induction false} EntryIsConsistentAlong(flow: ValueFlow, ins: map<nat, Values>, path: seq<nat>)
    requires flow.WellFormed() && IsTable(flow, ins) && IsPath(flow.graph.EdgeSet(), path) && path[0] == 0
    ensures path[|path| - 1] in ins && Consistent(flow, ins[path[|path| - 1]])
    decreases |path|
  {
    hide IsTable, ApplyEvents, EventsSettled, Independent, Weaker, CellEnv;
    EntryOfTable(flow, ins);
    if |path| > 1 {
      var b, s := path[|path| - 2], path[|path| - 1];
      EntryIsConsistentAlong(flow, ins, path[..|path| - 1]);
      EdgeWeakens(flow, ins, b, s);
      BlockEventsSettled(flow, b, -1);
      WeakerSelf(ins[b]);
      ApplyEventsRegular(flow, flow.EventsOf(b), ins[b], ins[b]);
      WeakerIsConsistent(flow, ins[s], ApplyEvents(flow.env, flow.EventsOf(b), ins[b]));
    }
  }

  lemma EntryOfTable(flow: ValueFlow, ins: map<nat, Values>)
    requires IsTable(flow, ins)
    ensures 0 in ins && ins[0] == map[] && Consistent(flow, ins[0])
  {
  }

  lemma {:induction false} EntryHoldsAlong(
    flow: ValueFlow, ins: map<nat, Values>, path: seq<nat>, initial: Store, reached: Store)
    requires flow.WellFormed() && IsTable(flow, ins)
    requires IsPath(flow.graph.EdgeSet(), path) && path[0] == 0 && RunsAlong(flow, path, initial, reached)
    ensures path[|path| - 1] in ins
    ensures Agrees(ins[path[|path| - 1]], reached) && ConstantsHold(flow.env, reached)
    decreases |path|
  {
    hide IsTable, Consistent, FactsOf, ApplyEvents, Runs, EventsSettled, Independent, ConstantsHold, CellEnv;
    EntryOfTable(flow, ins);
    if |path| > 1 {
      var front, b, s := path[..|path| - 1], path[|path| - 2], path[|path| - 1];
      var events := flow.EventsOf(b);
      var middle :| RunsAlong(flow, front, initial, middle) && Runs(flow, events, middle, reached);
      EntryHoldsAlong(flow, ins, front, initial, middle);
      EntryIsConsistentAlong(flow, ins, front);
      EdgeWeakens(flow, ins, b, s);
      BlockEventsSettled(flow, b, -1);
      EventsAreSound(flow, events, ins[b], middle, reached);
    }
  }

  lemma TableIsSound(flow: ValueFlow, ins: map<nat, Values>)
    requires flow.WellFormed() && IsTable(flow, ins)
    ensures IsSound(flow, ins)
  {
    hide FactsOf, ApplyEvents, Consistent, RunsAlong, Agrees, ConstantsHold;
    var edges := flow.graph.EdgeSet();
    forall b | b in ins ensures Consistent(flow, ins[b]) {
      assert Reaches(edges, 0, b);
      var path :| PathFromTo(edges, path, 0, b);
      EntryIsConsistentAlong(flow, ins, path);
    }
    forall b, path, initial, reached |
      b in ins && PathFromTo(edges, path, 0, b) && RunsAlong(flow, path, initial, reached)
      ensures Agrees(ins[b], reached) && ConstantsHold(flow.env, reached)
    {
      EntryHoldsAlong(flow, ins, path, initial, reached);
    }
  }

  lemma EmptyQueueIsTable(flow: ValueFlow, ins: map<nat, Values>, outs: map<nat, Values>)
    requires flow.WellFormed() && Between(flow, ins, outs, [])
    ensures IsTable(flow, ins)
  {
    hide FactsOf, ApplyEvents, Consistent, Stable, IsJoin;
    var w := Snapshot(flow, ins, outs, []);
    EmptyQueueIsClosed(flow.graph.EdgeSet(), w);
    forall b | b in ins && b != 0 ensures IsJoin(flow.graph.EdgeSet(), Effects(flow, ins), b, FactsOf(ins[b])) {
      assert b in w.ins && w.ins[b] == FactsOf(ins[b]);
    }
  }

  /** The value tables of one function. */
  class ValueTables {
    const flow: ValueFlow
    var valueIn: map<nat, Values>

    constructor (flow: ValueFlow)
      ensures this.flow == flow
    {
      this.flow := flow;
      valueIn := map[];
    }

    method PropagateValues()
      requires flow.WellFormed()
      modifies this
      ensures IsTable(flow, valueIn)
    {
      hide *;
      var valueOut: map<nat, Values> := map[];
      valueIn := map[0 := map[]];
      var queue := [0];
      StartHolds(flow);
      while queue != []
        invariant Between(flow, valueIn, valueOut, queue)
        decreases Unseen(flow.graph.BlockSet(), Known(valueIn)), Claims(Known(valueIn)), |queue|
      {
        var block := queue[0];
        HeadFacts(flow, valueIn, valueOut, queue);
        var out := ApplyValueEvents(flow.env, valueIn[block], flow.EventsOf(block), -1);
        if block in valueOut && valueOut[block] == out {
          SkipHolds(flow, valueIn, valueOut, queue);
          queue := queue[1..];
          continue;
        }
        PublishHolds(flow, valueIn, valueOut, queue);
        valueOut := valueOut[block := out];
        ghost var before := valueIn;
        valueIn, queue := UpdateSuccessors(flow, valueIn, valueOut, queue[1..], block);
        ShrinksDecreases(flow.graph.BlockSet(), Known(before), Known(valueIn));
      }
      EmptyQueueIsTable(flow, valueIn, valueOut);
    }

    /** The value of an expression at an offset of a block, first without and then with what is known there. */
    method ValueAt(block: Option<nat>, offset: nat, e: Expr) returns (r: Option<int>)
      ensures r == Answer(flow, valueIn, block, offset, e)
    {
      r := Evaluation(flow.env, e, map[]);
      if r.Some? || block == None || block.value !in valueIn {
        return;
      }
      var state := ApplyValueEvents(flow.env, valueIn[block.value], flow.EventsOf(block.value), offset);
      r := Evaluation(flow.env, e, state);
    }
  }

  // ----- When answers are right -----

  ghost function Answer(flow: ValueFlow, ins: map<nat, Values>, block: Option<nat>, offset: nat, e: Expr): Option<int> {
    var alone := Evaluation(flow.env, e, map[]);
    if alone.Some? || block == None || block.value !in ins then alone
    else Evaluation(flow.env, e, ApplyEvents(flow.env, Before(flow.EventsOf(block.value), offset), ins[block.value]))
  }

  /**
   What a query answers: the value that needs nothing known, if there is one or the block was never reached, and
   otherwise the value under what is known after the last event up to the offset.
   */
  lemma AnswerIsEvaluation(flow: ValueFlow, ins: map<nat, Values>, b: nat, offset: nat, e: Expr, states: seq<Values>)
    requires IsTrace(flow.env, Before(flow.EventsOf(b), offset), states)
    requires b in ins ==> states[0] == ins[b]
    ensures var alone := Evaluation(flow.env, e, map[]);
      && Answer(flow, ins, None, offset, e) == alone
      && Answer(flow, ins, Some(b), offset, e) ==
         if alone.Some? || b !in ins then alone else Evaluation(flow.env, e, states[|states| - 1])
  {
    hide Evaluation, IsTrace;
    TraceIsLong(flow.env, Before(flow.EventsOf(b), offset), states);
    TraceIsApplied(flow.env, Before(flow.EventsOf(b), offset), states);
  }

  /** The expression has no other value in any concrete run that comes to the offset of the block. */
  ghost predicate OnlyValueAt(flow: ValueFlow, b: nat, offset: nat, e: Expr, v: int) {
    forall path, initial, reached, here, w ::
      PathFromTo(flow.graph.EdgeSet(), path, 0, b) && RunsAlong(flow, path, initial, reached) ==>
      Runs(flow, Before(flow.EventsOf(b), offset), reached, here) ==>
      Yields(e, here, w) ==> w == v
  }

  ghost predicate IsRight(flow: ValueFlow, ins: map<nat, Values>) {
    forall b: nat, offset: nat, e ::
      Answer(flow, ins, Some(b), offset, e).Some? ==>
          OnlyValueAt(flow, b, offset, e, Answer(flow, ins, Some(b), offset, e).value)
  }

  /** Every answer is right, whatever the graph and the events of the function. */
  ghost predicate AlwaysRight(env: Env, tracked: set<Symbol>) {
    forall flow: ValueFlow, ins ::
      flow.env == env && flow.tracked == tracked && flow.Settled() && IsTable(flow, ins) ==> IsRight(flow, ins)
  }

  lemma BlockEventsSettled(flow: ValueFlow, b: nat, offset: int)
    requires flow.Settled()
    ensures EventsSettled(flow, Before(flow.EventsOf(b), offset))
  {
    var events := Before(flow.EventsOf(b), offset);
    forall i | 0 <= i < |events| ensures EventSettled(flow, events[i]) {
      assert events[i] in flow.EventsOf(b);
    }
  }

  /** Values that hold on entry to a block make every evaluation at an offset of it right. */
  lemma EvaluationIsRight(flow: ValueFlow, ins: map<nat, Values>, b: nat, offset: nat, e: Expr, values: Values)
    requires flow.WellFormed() && IsSound(flow, ins) && Consistent(flow, values)
    requires b in ins && Weaker(values, ins[b])
    requires Evaluation(flow.env, e, ApplyEvents(flow.env, Before(flow.EventsOf(b), offset), values)).Some?
    ensures OnlyValueAt(flow, b, offset, e,
      Evaluation(flow.env, e, ApplyEvents(flow.env, Before(flow.EventsOf(b), offset), values)).value)
  {
    hide Consistent, ApplyEvents, Runs, RunsAlong, ConstantsHold, Yields, Evaluation, Independent, CellEnv;
    var events := Before(flow.EventsOf(b), offset);
    forall path, initial, reached, here, w |
      PathFromTo(flow.graph.EdgeSet(), path, 0, b) && RunsAlong(flow, path, initial, reached) &&
      Runs(flow, events, reached, here) && Yields(e, here, w)
      ensures Evaluation(flow.env, e, ApplyEvents(flow.env, events, values)) == Some(w)
    {
      BlockEventsSettled(flow, b, offset);
      EventsAreSound(flow, events, values, reached, here);
      EvaluationIsYielded(flow, e, ApplyEvents(flow.env, events, values), here, w);
    }
  }

  /** What evaluates without any known value has no other value anywhere. */
  lemma AloneIsRight(flow: ValueFlow, ins: map<nat, Values>, b: nat, offset: nat, e: Expr)
    requires flow.WellFormed() && IsSound(flow, ins) && Evaluation(flow.env, e, map[]).Some?
    ensures OnlyValueAt(flow, b, offset, e, Evaluation(flow.env, e, map[]).value)
  {
    hide ApplyEvents, Runs, RunsAlong, ConstantsHold, Yields, Evaluation, Independent, CellEnv;
    var events := Before(flow.EventsOf(b), offset);
    forall path, initial, reached, here, w |
      PathFromTo(flow.graph.EdgeSet(), path, 0, b) && RunsAlong(flow, path, initial, reached) &&
      Runs(flow, events, reached, here) && Yields(e, here, w)
      ensures Evaluation(flow.env, e, map[]) == Some(w)
    {
      BlockEventsSettled(flow, b, offset);
      assert Reaches(flow.graph.EdgeSet(), 0, b);
      EventsAreSound(flow, events, map[], reached, here);
      EvaluationIsYielded(flow, e, map[], here, w);
    }
  }

  /** Where constants are independent of locals, every answer from the tables is right. */
  lemma TablesAreRight(flow: ValueFlow, ins: map<nat, Values>)
    requires flow.WellFormed() && IsTable(flow, ins)
    ensures IsRight(flow, ins)
  {
    hide ApplyEvents, OnlyValueAt, Evaluation, Consistent;
    TableIsSound(flow, ins);
    forall b: nat, offset: nat, e | Answer(flow, ins, Some(b), offset, e).Some?
      ensures OnlyValueAt(flow, b, offset, e, Answer(flow, ins, Some(b), offset, e).value)
    {
      if Evaluation(flow.env, e, map[]).Some? {
        AloneIsRight(flow, ins, b, offset, e);
      } else if b in ins {
        WeakerSelf(ins[b]);
        EvaluationIsRight(flow, ins, b, offset, e, ins[b]);
      }
    }
  }

  // ----- When answers are wrong -----

  /** Giving every symbol of the list its value. */
  ghost function Assigning(order: seq<Symbol>, values: Values): seq<ValueEvent>
    requires forall s :: s in order ==> s in values
  {
    if order == [] then []
    else
      var s := order[|order| - 1];
      Assigning(order[..|order| - 1], values) + [Assign(0, s, Some(Literal(Some(Word(values[s])))))]
  }

  lemma {:induction false} InSomeOrder(keys: set<Symbol>) returns (order: seq<Symbol>)
    ensures forall s :: s in order <==> s in keys
    decreases keys
  {
    order := [];
    if s :| s in keys {
      var rest := InSomeOrder(keys - {s});
      order := rest + [s];
    }
  }

  ghost function OneBlock(env: Env, tracked: set<Symbol>, events: seq<ValueEvent>): ValueFlow {
    ValueFlow(FlowGraph([[]], [[]]), env, tracked, [events])
  }

  lemma OneBlockTable(env: Env, tracked: set<Symbol>, events: seq<ValueEvent>)
    requires CellEnv(env) && EventsSettled(OneBlock(env, tracked, events), events)
    ensures OneBlock(env, tracked, events).Settled() && IsTable(OneBlock(env, tracked, events), map[0 := map[]])
  {
    var flow := OneBlock(env, tracked, events);
    assert flow.graph.EdgeSet() == {};
    ReachesSelf({}, 0);
    forall b: nat | Reaches({}, 0, b) ensures b == 0 {
      ClosedContains({}, {0}, 0, b);
    }
  }

  lemma {:induction false} BeforeAll(events: seq<ValueEvent>, until: int)
    requires forall e :: e in events ==> e.offset <= until
    ensures Before(events, until) == events
    decreases |events|
  {
    if events != [] {
      BeforeAll(events[1..], until);
    }
  }

  ghost predicate Assignable(flow: ValueFlow, order: seq<Symbol>, values: Values) {
    CellValues(values) && forall s :: s in order ==> s in values && s in Locals(flow.env, flow.tracked)
  }

  /** The events make exactly the values known. */
  lemma {:induction false} AssigningKnows(flow: ValueFlow, order: seq<Symbol>, values: Values)
    requires Assignable(flow, order, values)
    ensures ApplyEvents(flow.env, Assigning(order, values), map[]) == map s | s in order :: values[s]
    decreases |order|
  {
    hide Evaluation, ApplyEvent, Locals;
    if order != [] {
      var front, s := order[..|order| - 1], order[|order| - 1];
      var events, last := Assigning(front, values), Assign(0, s, Some(Literal(Some(Word(values[s])))));
      AssigningKnows(flow, front, values);
      var known := ApplyEvents(flow.env, events, map[]);
      OneMoreAssigned(flow, s, values, values, known);
      assert (events + [last])[..|events|] == events;
      assert forall x :: x in order <==> x in front || x == s by { assert order == front + [s]; }
    }
  }

  /** The events change nothing in a store that has the values already. */
  lemma {:induction false} AssigningKeeps(flow: ValueFlow, order: seq<Symbol>, values: Values, store: Store)
    requires Assignable(flow, order, values) && Agrees(values, store)
    ensures var events := Assigning(order, values);
      EventsSettled(flow, events) && Runs(flow, events, store, store) && forall e :: e in events ==> e.offset <= 0
    decreases |order|
  {
    hide EventSettled, Executes, Locals, CellValues, Agrees;
    if order != [] {
      var front, s := order[..|order| - 1], order[|order| - 1];
      var events, last := Assigning(front, values), Assign(0, s, Some(Literal(Some(Word(values[s])))));
      AssigningKeeps(flow, front, values, store);
      OneMoreAssigned(flow, s, values, store, map[]);
      assert (events + [last])[..|events|] == events;
    }
  }

  lemma OneMoreAssigned(flow: ValueFlow, s: Symbol, values: Values, store: Store, known: Values)
    requires s in values && s in Locals(flow.env, flow.tracked) && CellValues(values) && Agrees(values, store)
    ensures var e := Assign(0, s, Some(Literal(Some(Word(values[s])))));
      && ApplyEvent(flow.env, e, known) == known[s := values[s]]
      && EventSettled(flow, e) && Executes(flow, e, store, store)
  {
    var v := values[s];
    assert Cell(Word(v)) == v;
    assert Evaluation(flow.env, Literal(Some(Word(v))), known) == Some(v);
    assert store[s := store[s]] == store;
  }

  /** A store in which all constants hold, the values are those given, and one symbol has a value of its own. */
  lemma StoreWith(env: Env, values: Values, c: Symbol, v: int) returns (store: Store)
    requires forall s :: s in values ==> s !in Unfoldable(env)
    requires c !in values && ConstantOf(env, c) == None
    ensures ConstantsHold(env, store) && Agrees(values, store) && c in store && store[c] == v
  {
    hide Eval;
    var held := map s | s in env.constants && ConstantOf(env, s).Some? :: ConstantOf(env, s).value;
    store := (held + values)[c := v];
    forall s | ConstantOf(env, s).Some? ensures s in store && store[s] == ConstantOf(env, s).value {
      assert s in Unfoldable(env) by { KnownName(env, s, map[]); }
      assert s in held && s !in values && s != c;
    }
  }

  /** A constant that is known on its own has the same value whatever is known of locals. */
  lemma KnownStaysKnown(env: Env, tracked: set<Symbol>, c: Symbol, values: Values)
    requires values.Keys <= Locals(env, tracked) && ConstantOf(env, c).Some?
    ensures Evaluation(env, Name(c), values) == ConstantOf(env, c)
  {
    hide Eval;
    forall s | s in values ensures Evaluation(env, Name(s), map[]) == None {
      KnownName(env, s, map[]);
    }
    TransferEvaluation(env, Name(c), map[], values);
  }

  /** Where a constant depends on locals, assigning those and asking for the constant gets a wrong answer. */
  lemma DependenceMisleads(env: Env, tracked: set<Symbol>, c: Symbol, values: Values)
    requires CellEnv(env) && c in Unfoldable(env) && values.Keys <= Locals(env, tracked) && CellValues(values)
    requires Evaluation(env, Name(c), values) != ConstantOf(env, c)
    ensures !AlwaysRight(env, tracked)
  {
    hide Evaluation, Unfoldable, Locals, CellEnv, CellValues, ApplyEvents, OnlyValueAt, EventsSettled, IsTable, Runs,
        ConstantsHold;
    if ConstantOf(env, c).Some? {
      KnownStaysKnown(env, tracked, c, values);
    }
    var v := Evaluation(env, Name(c), values).value;
    var other := if v == 0 then 1 else 0;
    var order := InSomeOrder(values.Keys);
    var events := Assigning(order, values);
    var flow, ins: map<nat, Values> := OneBlock(env, tracked, events), map[0 := map[]];
    LocalsOnly(env, tracked, c, values);
    var store := StoreWith(env, values, c, other);
    AssigningKnows(flow, order, values);
    AssigningKeeps(flow, order, values, store);
    BeforeAll(events, 0);
    OneBlockTable(env, tracked, events);
    assert (map s | s in order :: values[s]) == values;
    WrongHere(flow, events, Name(c), v, store, store, other);
    WrongAnswer(flow, ins, events, Name(c), v);
  }

  lemma LocalsOnly(env: Env, tracked: set<Symbol>, c: Symbol, values: Values)
    requires c in Unfoldable(env) && values.Keys <= Locals(env, tracked)
    ensures c !in values && c in env.constants && forall s :: s in values ==>
      s !in Unfoldable(env) && s in Locals(env, tracked)
  {
  }

  lemma WrongAnswer(flow: ValueFlow, ins: map<nat, Values>, events: seq<ValueEvent>, e: Expr, v: int)
    requires flow.events == [events] && Before(events, 0) == events && ins == map[0 := map[]]
    requires Evaluation(flow.env, e, map[]) == None
      && Evaluation(flow.env, e, ApplyEvents(flow.env, events, map[])) == Some(v)
    requires !OnlyValueAt(flow, 0, 0, e, v)
    ensures !IsRight(flow, ins)
  {
    hide Evaluation, ApplyEvents, OnlyValueAt;
    assert Answer(flow, ins, Some(0), 0, e) == Some(v);
  }

  lemma WrongHere(flow: ValueFlow, events: seq<ValueEvent>, e: Expr, v: int, before: Store, after: Store, w: int)
    requires flow.events == [events] && Before(events, 0) == events && ConstantsHold(flow.env, before)
    requires Runs(flow, events, before, after) && Yields(e, after, w) && w != v
    ensures !OnlyValueAt(flow, 0, 0, e, v)
  {
    hide Yields, Runs, ConstantsHold;
    assert RunsAlong(flow, [0], before, before);
    assert PathFromTo(flow.graph.EdgeSet(), [0], 0, 0);
  }

  /** Every answer about every function is right exactly if no constant depends on the locals. */
  lemma RightIffIndependent(env: Env, tracked: set<Symbol>)
    requires CellEnv(env)
    ensures AlwaysRight(env, tracked) <==> Independent(env, Locals(env, tracked))
  {
    hide Evaluation, IsTable, IsRight, Unfoldable;
    if Independent(env, Locals(env, tracked)) {
      forall flow: ValueFlow, ins |
        flow.env == env && flow.tracked == tracked && flow.Settled() && IsTable(flow, ins)
        ensures IsRight(flow, ins)
      {
        TablesAreRight(flow, ins);
      }
    } else {
      var c, values: Values :| c in Unfoldable(env) && values.Keys <= Locals(env, tracked) && CellValues(values)
        && Evaluation(env, Name(c), values) != ConstantOf(env, c);
      DependenceMisleads(env, tracked, c, values);
    }
  }

  // Two functions with a constant initialised by a local: symbol 2 is the constant, 1 the local.

  const COPY_ENV := Env({2}, map[], map[2 := Name(1)])

  lemma CopyEnv(values: Values)
    ensures CellEnv(COPY_ENV) && Unfoldable(COPY_ENV) == {2}
    ensures 2 !in values ==> Evaluation(COPY_ENV, Name(2), values) == if 1 in values then Some(values[1]) else None
    ensures 1 !in values ==> Evaluation(COPY_ENV, Name(1), values) == None
    ensures forall c :: ConstantOf(COPY_ENV, c) == None
  {
    assert Eval(COPY_ENV, COPY_ENV.initialisers[2], {2}, values) == if 1 in values then Some(values[1]) else None;
    assert Eval(COPY_ENV, COPY_ENV.initialisers[2], {2}, map[]) == None;
    assert Evaluation(COPY_ENV, Name(2), map[]) == None;
  }

  // new a = f(); new const c = a; a = 2;

  const UNKNOWN_THEN_TWO := [Assign(0, 1, Some(Opaque)), Assign(1, 2, Some(Name(1))),
      Assign(2, 1, Some(Literal(Some(2))))]

  lemma CopyState()
    ensures ApplyEvents(COPY_ENV, UNKNOWN_THEN_TWO, map[]) == map[1 := 2]
      && Before(UNKNOWN_THEN_TWO, 9) == UNKNOWN_THEN_TWO
  {
    var events := UNKNOWN_THEN_TWO;
    CopyEnv(map[]);
    BeforeAll(events, 9);
    assert events[..2][..1] == events[..1] && events[..1][..0] == [];
    assert ApplyEvents(COPY_ENV, [], map[]) == map[];
    assert ApplyEvents(COPY_ENV, events[..1], map[]) == map[];
    assert ApplyEvents(COPY_ENV, events[..2], map[]) == map[];
  }

  lemma CopyRun(flow: ValueFlow, before: Store, after: Store)
    requires flow.env == COPY_ENV && before == map[1 := 0, 2 := 0] && after == map[1 := 2, 2 := 7]
    ensures Runs(flow, UNKNOWN_THEN_TWO, before, after) && ConstantsHold(COPY_ENV, before)
  {
    hide Eval;
    var events := UNKNOWN_THEN_TWO;
    var first: Store := map[1 := 7, 2 := 0];
    var second: Store := map[1 := 7, 2 := 7];
    CopyEnv(map[]);
    assert events[..2][..1] == events[..1] && events[..1][..0] == [];
    assert Runs(flow, [], before, before);
    assert Executes(flow, events[0], before, first) && Runs(flow, events[..1], before, first);
    assert Executes(flow, events[1], first, second) && Runs(flow, events[..2], before, second);
    assert Executes(flow, events[2], second, after);
  }

  /** The constant keeps the first value of the local, but the evaluator gives it the last one. */
  lemma LocalInitialiserMisleads()
    ensures var flow, ins: map<nat, Values> := OneBlock(COPY_ENV, {1, 2}, UNKNOWN_THEN_TWO), map[0 := map[]];
      && flow.Settled() && IsTable(flow, ins)
      && Answer(flow, ins, Some(0), 9, Name(2)) == Some(2) && !OnlyValueAt(flow, 0, 9, Name(2), 2)
  {
    hide Eval, ApplyEvents, Runs;
    var flow := OneBlock(COPY_ENV, {1, 2}, UNKNOWN_THEN_TWO);
    CopyEnv(map[]);
    CopyEnv(map[1 := 2]);
    CopyState();
    OneBlockTable(COPY_ENV, {1, 2}, UNKNOWN_THEN_TWO);
    var before, after: Store := map[1 := 0, 2 := 0], map[1 := 2, 2 := 7];
    CopyRun(flow, before, after);
    assert RunsAlong(flow, [0], before, before) && PathFromTo(flow.graph.EdgeSet(), [0], 0, 0);
    assert Yields(Name(2), after, 7);
  }

  // new a = 1; again: new const c = a; a = 2; new x = c; a = 3 - x; goto again;

  const SWAPPING := [
    Assign(0, 2, Some(Name(1))), Assign(1, 1, Some(Literal(Some(2)))), Assign(2, 3, Some(Name(2))),
    Assign(3, 1, Some(Binary(Sub, Literal(Some(3)), Name(3))))]

  const SWAP_LOOP := ValueFlow(FlowGraph([[1], [1]], [[], [0, 1]]), COPY_ENV, {1, 2, 3},
      [[Assign(0, 1, Some(Literal(Some(1))))], SWAPPING])

  /** Knowing that the local is 1 at the label, the block leaves it 2; not knowing that, it leaves it 1. */
  lemma SwapState(values: Values)
    requires values.Keys <= {1} && (1 in values ==> values[1] == 1)
    ensures var after := ApplyEvents(COPY_ENV, SWAPPING, values);
      1 in after && after[1] == if 1 in values then 2 else 1
  {
    hide EvalUnary;
    var events := SWAPPING;
    assert events[..3][..2] == events[..2] && events[..2][..1] == events[..1] && events[..1][..0] == [];
    CopyEnv(values);
    var first := if 1 in values then values[2 := 1] else values;
    assert ApplyEvents(COPY_ENV, [], values) == values;
    assert ApplyEvents(COPY_ENV, events[..1], values) == first;
    var second := first[1 := 2];
    assert ApplyEvents(COPY_ENV, events[..2], values) == second;
    CopyEnv(second);
    var third := second[3 := if 1 in values then 1 else 2];
    assert ApplyEvents(COPY_ENV, events[..3], values) == third;
    assert Evaluation(COPY_ENV, Binary(Sub, Literal(Some(3)), Name(3)), third) == EvalBinary(Sub, 3, third[3]);
    assert EvalBinary(Sub, 3, third[3]) == Some(3 - third[3]);
  }

  lemma SwapLoopSettled()
    ensures SWAP_LOOP.Settled() && SWAP_LOOP.graph.EdgeSet() == {(0, 1), (1, 1)}
  {
    CopyEnv(map[]);
    var flow := SWAP_LOOP;
    assert flow.graph.succs[0] == [1] && flow.graph.succs[1] == [1];
    forall b, s ensures (b, s) in flow.graph.EdgeSet() <==> (b, s) in {(0, 1), (1, 1)} {
    }
  }

  /** The label is reached with the local known to be 1 exactly if the block leaves it so. */
  lemma SwapEntry(ins: map<nat, Values>)
    requires IsTable(SWAP_LOOP, ins)
    ensures 1 in ins && FactsOf(ins[1]) <= {(1, 1)}
    ensures (1, 1) in FactsOf(ins[1]) <==> (1, 1) in Effect(SWAP_LOOP, 1, ins[1])
  {
    hide ApplyEvents, FactsOf;
    var flow, edges, effects := SWAP_LOOP, SWAP_LOOP.graph.EdgeSet(), Effects(SWAP_LOOP, ins);
    SwapLoopSettled();
    ReachesSelf(edges, 0);
    ReachesSnoc(edges, 0, 0, 1);
    assert IsJoin(edges, effects, 1, FactsOf(ins[1]));
    assert effects[0] == {(1, 1)} by { FirstEffect(); }
    forall f ensures f in FactsOf(ins[1]) <==> f in effects[0] && f in effects[1] {
      assert (0, 1) in edges && (1, 1) in edges;
      assert CommonFact(edges, effects, 1, f) <==> f in effects[0] && f in effects[1];
    }
  }

  lemma FirstEffect()
    ensures Effect(SWAP_LOOP, 0, map[]) == {(1, 1)}
  {
    var events := SWAP_LOOP.events[0];
    assert events[..0] == [];
    assert ApplyEvents(COPY_ENV, [], map[]) == map[];
    var after := ApplyEvents(COPY_ENV, events, map[]);
    assert after == map[1 := 1];
    assert FactsOf(after) == {(1, after[1])};
  }

  /** There is nothing the loop could stop at: each state at the label calls for the other one. */
  lemma NothingToStopAt(ins: map<nat, Values>)
    ensures SWAP_LOOP.Settled() && !IsTable(SWAP_LOOP, ins)
  {
    hide ApplyEvents;
    SwapLoopSettled();
    if IsTable(SWAP_LOOP, ins) {
      SwapEntry(ins);
      assert forall s :: s in ins[1] ==> (s, ins[1][s]) in FactsOf(ins[1]);
      SwapState(ins[1]);
    }
  }
}
