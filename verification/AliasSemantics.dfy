/**
 What the events of a block mean for the question "do these two variables hold the same value?",
 abstractly as a relation on symbols and concretely as runs over stores.
 */
module AliasSemantics {
  import opened Wrappers
  import opened Graphs
  import opened FlowGraphs

  /** A symbol is its own positive index; 0 stands for no symbol. */
  type Symbol = nat
  type Pair = (Symbol, Symbol)
  type Relation = set<Pair>

  /** Copying a source into the target, or giving the target an unknown value. */
  datatype Event = Event(offset: int, target: Symbol, source: Option<Symbol>)

  /** One function as the analysis sees it. */
  datatype Flow = Flow(graph: FlowGraph, tracked: set<Symbol>, events: seq<seq<Event>>) {

    ghost predicate WellFormed() {
      && graph.WellFormed()
      && |events| == |graph.succs|
      && 0 !in tracked
      && forall b :: 0 <= b < |events| ==> EventsWithin(tracked, events[b])
    }

    function EventsOf(b: nat): seq<Event> {
      if b < |events| then events[b] else []
    }
  }

  ghost predicate EventWithin(tracked: set<Symbol>, e: Event) {
    e.target in tracked && (e.source.Some? ==> e.source.value in tracked)
  }

  ghost predicate EventsWithin(tracked: set<Symbol>, events: seq<Event>) {
    forall i :: 0 <= i < |events| ==> EventWithin(tracked, events[i])
  }

  ghost function Pairs(tracked: set<Symbol>): Relation {
    set x, y | x in tracked && y in tracked :: (x, y)
  }

  ghost function Identity(tracked: set<Symbol>): Relation {
    set q {:trigger q in Pairs(tracked)} | q in Pairs(tracked) && q.0 == q.1
  }

  function Origin(e: Event, x: Symbol): Symbol
    requires e.source.Some?
  {
    if x == e.target then e.source.value else x
  }

  /** Are x and y known equal after the event, given the pairs known equal before it? */
  ghost predicate RelatedAfter(e: Event, r: Relation, x: Symbol, y: Symbol) {
    match e.source
    case Some(_) => (Origin(e, x), Origin(e, y)) in r
    case None => x == y || (x != e.target && y != e.target && (x, y) in r)
  }

  ghost function Step(tracked: set<Symbol>, e: Event, r: Relation): Relation {
    set q {:trigger q in Pairs(tracked)} | q in Pairs(tracked) && RelatedAfter(e, r, q.0, q.1)
  }

  ghost function Replay(tracked: set<Symbol>, events: seq<Event>, r: Relation): Relation
    decreases |events|
  {
    if events == [] then r
    else Step(tracked, events[|events| - 1], Replay(tracked, events[..|events| - 1], r))
  }

  /** The pairs known equal on entry to the last block of a path, replaying every earlier block. */
  ghost function RelationAlong(flow: Flow, path: seq<nat>): Relation
    decreases |path|
  {
    if |path| <= 1 then Identity(flow.tracked)
    else Replay(flow.tracked, flow.EventsOf(path[|path| - 2]), RelationAlong(flow, path[..|path| - 1]))
  }

  ghost predicate OnEveryPath(flow: Flow, b: nat, q: Pair) {
    forall path {:trigger PathFromTo(flow.graph.EdgeSet(), path, 0, b)} ::
      PathFromTo(flow.graph.EdgeSet(), path, 0, b) ==> q in RelationAlong(flow, path)
  }

  /** Where an equality after some events comes from: it always holds, never holds, or needs one earlier. */
  datatype Provenance = Always | Never | From(pair: Pair)

  ghost function TraceStep(e: Event, q: Pair): Provenance {
    match e.source
    case Some(_) => From((Origin(e, q.0), Origin(e, q.1)))
    case None =>
      if q.0 == q.1 then Always
      else if q.0 == e.target || q.1 == e.target then Never
      else From(q)
  }

  ghost function Trace(events: seq<Event>, q: Pair): Provenance
    decreases |events|
  {
    if events == [] then From(q)
    else match TraceStep(events[|events| - 1], q)
      case From(p) => Trace(events[..|events| - 1], p)
      case Always => Always
      case Never => Never
  }

  ghost predicate Supported(p: Provenance, r: Relation) {
    p == Always || (p.From? && p.pair in r)
  }

  /** Replaying distributes over every meet: one equality afterwards depends on at most one before. */
  lemma {:induction false} ReplayIsTraceable(tracked: set<Symbol>, events: seq<Event>, r: Relation, q: Pair)
    requires EventsWithin(tracked, events) && r <= Pairs(tracked) && q in Pairs(tracked)
    ensures Replay(tracked, events, r) <= Pairs(tracked)
    ensures Trace(events, q).From? ==> Trace(events, q).pair in Pairs(tracked)
    ensures q in Replay(tracked, events, r) <==> Supported(Trace(events, q), r)
    decreases |events|
  {
    if events != [] {
      var front, e := events[..|events| - 1], events[|events| - 1];
      match TraceStep(e, q) {
        case From(p) =>
          assert p in Pairs(tracked);
          ReplayIsTraceable(tracked, front, r, p);
        case Always =>
        case Never =>
      }
    }
  }

  lemma ReplayMonotone(tracked: set<Symbol>, events: seq<Event>, r: Relation, r': Relation)
    requires EventsWithin(tracked, events) && r <= r' <= Pairs(tracked)
    ensures Replay(tracked, events, r) <= Replay(tracked, events, r') <= Pairs(tracked)
  {
    forall q | q in Replay(tracked, events, r) ensures q in Replay(tracked, events, r') {
      ReplayWithin(tracked, events, r);
      ReplayIsTraceable(tracked, events, r, q);
      ReplayIsTraceable(tracked, events, r', q);
    }
    ReplayWithin(tracked, events, r');
  }

  lemma ReplayWithin(tracked: set<Symbol>, events: seq<Event>, r: Relation)
    requires r <= Pairs(tracked)
    ensures Replay(tracked, events, r) <= Pairs(tracked)
  {
  }

  lemma {:induction false} RelationAlongWithin(flow: Flow, path: seq<nat>)
    ensures RelationAlong(flow, path) <= Pairs(flow.tracked)
    decreases |path|
  {
    if |path| > 1 {
      RelationAlongWithin(flow, path[..|path| - 1]);
      ReplayWithin(flow.tracked, flow.EventsOf(path[|path| - 2]), RelationAlong(flow, path[..|path| - 1]));
    }
  }

  // ----- Concrete runs -----

  type Store = map<Symbol, int>

  ghost predicate Executes(tracked: set<Symbol>, e: Event, before: Store, after: Store) {
    && before.Keys == after.Keys == tracked && EventWithin(tracked, e)
    && match e.source
       case Some(s) => after == before[e.target := before[s]]
       case None => after == before[e.target := after[e.target]]
  }

  /** The events can take the first store to the second, choosing any value where one is unknown. */
  ghost predicate Runs(tracked: set<Symbol>, events: seq<Event>, before: Store, after: Store)
    decreases |events|
  {
    if events == [] then before == after && before.Keys == tracked
    else
      var front, last := events[..|events| - 1], events[|events| - 1];
      exists middle :: Runs(tracked, front, before, middle) && Executes(tracked, last, middle, after)
  }

  /** Running every block of the path but the last, from an arbitrary initial store. */
  ghost predicate RunsAlong(flow: Flow, path: seq<nat>, initial: Store, reached: Store)
    decreases |path|
  {
    if |path| <= 1 then initial == reached && initial.Keys == flow.tracked
    else
      var front, events := path[..|path| - 1], flow.EventsOf(path[|path| - 2]);
      exists middle :: RunsAlong(flow, front, initial, middle) && Runs(flow.tracked, events, middle, reached)
  }

  ghost predicate Equates(store: Store, r: Relation) {
    forall q {:trigger q in r} :: q in r ==> q.0 in store && q.1 in store && store[q.0] == store[q.1]
  }

  ghost predicate Separates(tracked: set<Symbol>, store: Store, r: Relation) {
    store.Keys == tracked && forall x, y :: x in tracked && y in tracked && store[x] == store[y] ==> (x, y) in r
  }

  lemma {:induction false} RunsKeepEqual(tracked: set<Symbol>, events: seq<Event>, before: Store, after: Store,
      r: Relation)
    requires Runs(tracked, events, before, after) && Equates(before, r) && r <= Pairs(tracked)
    ensures Equates(after, Replay(tracked, events, r)) && after.Keys == tracked
    decreases |events|
  {
    if events != [] {
      var front := events[..|events| - 1];
      var middle :| Runs(tracked, front, before, middle) && Executes(tracked, events[|events| - 1], middle, after);
      RunsKeepEqual(tracked, front, before, middle, r);
    }
  }

  lemma {:induction false} RunsAlongKeepEqual(flow: Flow, path: seq<nat>, initial: Store, reached: Store)
    requires RunsAlong(flow, path, initial, reached)
    ensures Equates(reached, RelationAlong(flow, path)) && reached.Keys == flow.tracked
    decreases |path|
  {
    if |path| > 1 {
      var front := path[..|path| - 1];
      var middle :| RunsAlong(flow, front, initial, middle)
                 && Runs(flow.tracked, flow.EventsOf(path[|path| - 2]), middle, reached);
      RunsAlongKeepEqual(flow, front, initial, middle);
      RelationAlongWithin(flow, front);
      RunsKeepEqual(flow.tracked, flow.EventsOf(path[|path| - 2]), middle, reached, RelationAlong(flow, front));
    }
  }

  lemma {:induction false} FreshValue(values: set<int>) returns (v: int)
    ensures forall w :: w in values ==> w < v
    decreases values
  {
    v := 0;
    if w :| w in values {
      v := FreshValue(values - {w});
      assert forall u :: u in values ==> u == w || u in values - {w};
      v := if w < v then v else w + 1;
    }
  }

  /** Some run keeps apart everything the relation does not force together. */
  lemma {:induction false} SeparatingRun(tracked: set<Symbol>, events: seq<Event>, before: Store, r: Relation)
    returns (after: Store)
    requires EventsWithin(tracked, events) && Separates(tracked, before, r)
    ensures Runs(tracked, events, before, after) && Separates(tracked, after, Replay(tracked, events, r))
    decreases |events|
  {
    if events == [] {
      after := before;
    } else {
      var front, e := events[..|events| - 1], events[|events| - 1];
      var middle := SeparatingRun(tracked, front, before, r);
      assert EventWithin(tracked, e);
      match e.source {
        case Some(s) =>
          after := middle[e.target := middle[s]];
        case None =>
          var v := FreshValue(middle.Values);
          after := middle[e.target := v];
          assert forall x :: x in tracked && x != e.target ==> middle[x] in middle.Values;
      }
      assert Executes(tracked, e, middle, after);
      forall x, y | x in tracked && y in tracked && after[x] == after[y]
        ensures (x, y) in Replay(tracked, events, r)
      {
        assert (x, y) in Pairs(tracked);
      }
    }
  }

  lemma {:induction false} SeparatingRunAlong(flow: Flow, path: seq<nat>) returns (initial: Store, reached: Store)
    requires flow.WellFormed()
    ensures RunsAlong(flow, path, initial, reached) && Separates(flow.tracked, reached, RelationAlong(flow, path))
    decreases |path|
  {
    if |path| <= 1 {
      initial := map x | x in flow.tracked :: x;
      reached := initial;
      assert forall x :: x in flow.tracked ==> (x, x) in Pairs(flow.tracked);
    } else {
      var front := path[..|path| - 1];
      var middle;
      initial, middle := SeparatingRunAlong(flow, front);
      reached := SeparatingRun(flow.tracked, flow.EventsOf(path[|path| - 2]), middle, RelationAlong(flow, front));
    }
  }

  /** Two symbols hold equal values on entry to the block in every concrete run that gets there. */
  ghost predicate AlwaysEqual(flow: Flow, b: nat, x: Symbol, y: Symbol) {
    forall path, initial, reached ::
      PathFromTo(flow.graph.EdgeSet(), path, 0, b) && RunsAlong(flow, path, initial, reached) ==>
        x in reached && y in reached && reached[x] == reached[y]
  }

  /** Being related on every path is the same as being equal in every concrete run. */
  lemma RelatedIffAlwaysEqual(flow: Flow, b: nat, x: Symbol, y: Symbol)
    requires flow.WellFormed() && x in flow.tracked && y in flow.tracked
    ensures OnEveryPath(flow, b, (x, y)) <==> AlwaysEqual(flow, b, x, y)
  {
    if OnEveryPath(flow, b, (x, y)) {
      forall path, initial, reached |
        PathFromTo(flow.graph.EdgeSet(), path, 0, b) && RunsAlong(flow, path, initial, reached)
        ensures x in reached && y in reached && reached[x] == reached[y]
      {
        RunsAlongKeepEqual(flow, path, initial, reached);
        assert (x, y) in RelationAlong(flow, path);
      }
    }
    if AlwaysEqual(flow, b, x, y) {
      forall path | PathFromTo(flow.graph.EdgeSet(), path, 0, b) ensures (x, y) in RelationAlong(flow, path) {
        var initial, reached := SeparatingRunAlong(flow, path);
      }
    }
  }
}
