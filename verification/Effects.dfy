/** Interprocedural effects: what each function reads, writes and mutates through its parameters. */
module Effects {
  import opened Graphs

  /** What mutating one parameter of the callee does in the caller; `Lost` when the argument cannot be followed. */
  datatype ArgumentEffect = Lost | Harmless | Parameter(index: nat) | Global(declaration: nat)

  datatype Call = Call(callee: nat, arguments: map<nat, ArgumentEffect>)

  /** What one function does by itself, and the calls it makes. */
  datatype Direct = Direct(
    complete: bool, impure: bool, readGlobals: set<nat>, writtenGlobals: set<nat>, mutated: set<nat>, calls: seq<Call>)

  type Program = seq<Direct>

  /** The state kept per function while effects are propagated. */
  datatype State = State(
    complete: bool, impure: bool, pure: bool, readGlobals: set<nat>, writtenGlobals: set<nat>, mutated: set<nat>)

  function EffectOf(c: Call, parameter: nat): ArgumentEffect {
    if parameter in c.arguments then c.arguments[parameter] else Lost
  }

  predicate NoEffects(s: State) {
    !s.impure && s.readGlobals == {} && s.writtenGlobals == {} && s.mutated == {}
  }

  function Initial(d: Direct): State {
    State(d.complete, d.impure, d.complete && !d.impure && d.readGlobals == {} && d.writtenGlobals == {}
        && d.mutated == {},
          d.readGlobals, d.writtenGlobals, d.mutated)
  }

  // ----- What the effects should be -----

  ghost predicate Calls(p: Program, f: nat, c: Call) {
    f < |p| && c in p[f].calls
  }

  ghost function CallEdges(p: Program): Edges {
    set f, c | 0 <= f < |p| && c in p[f].calls && c.callee < |p| :: (f, c.callee)
  }

  /** The least parameter effects, by the number of calls they travel through. */
  ghost predicate MutatesWithin(p: Program, depth: nat, f: nat, i: nat)
    decreases depth, 0
  {
    f < |p| &&
    if depth == 0 then i in p[f].mutated
    else
      var less := depth - 1;
      MutatesWithin(p, less, f, i) || exists c, j :: PassesOn(p, less, f, i, c, j)
  }

  ghost predicate PassesOn(p: Program, depth: nat, f: nat, i: nat, c: Call, j: nat)
    decreases depth, 1
  {
    Calls(p, f, c) && MutatesWithin(p, depth, c.callee, j) && EffectOf(c, j) == Parameter(i)
  }

  ghost predicate Mutates(p: Program, f: nat, i: nat) {
    exists depth: nat :: MutatesWithin(p, depth, f, i)
  }

  /** The function's own calls write the global through some mutated parameter of the callee. */
  ghost predicate WritesThrough(p: Program, f: nat, d: nat) {
    exists c, j :: Calls(p, f, c) && Mutates(p, c.callee, j) && EffectOf(c, j) == Global(d)
  }

  ghost predicate Reads(p: Program, f: nat, d: nat) {
    exists g: nat :: Reaches(CallEdges(p), f, g) && g < |p| && d in p[g].readGlobals
  }

  ghost predicate Writes(p: Program, f: nat, d: nat) {
    exists g: nat :: Reaches(CallEdges(p), f, g) && g < |p| && (d in p[g].writtenGlobals || WritesThrough(p, g, d))
  }

  ghost predicate Impure(p: Program, f: nat) {
    exists g: nat :: Reaches(CallEdges(p), f, g) && g < |p| && p[g].impure
  }

  /** Nothing is unknown about the function's own body and calls, given the least parameter effects. */
  ghost predicate LocallyComplete(p: Program, f: nat) {
    && f < |p| && p[f].complete
    && forall c :: c in p[f].calls ==> CallFollowed(p, c)
  }

  ghost predicate CallFollowed(p: Program, c: Call) {
    c.callee < |p| && forall j :: Mutates(p, c.callee, j) ==> EffectOf(c, j) != Lost
  }

  ghost predicate Complete(p: Program, f: nat) {
    forall g {:trigger LocallyComplete(p, g)} :: Reaches(CallEdges(p), f, g) ==> LocallyComplete(p, g)
  }

  // ----- Soundness of every intermediate state -----

  /** A state that claims no effect without reason, and gives up completeness only with reason. */
  ghost predicate Justified(p: Program, f: nat, s: State) {
    && (forall d :: d in s.readGlobals ==> Reads(p, f, d))
    && (forall d :: d in s.writtenGlobals ==> Writes(p, f, d))
    && (forall i :: i in s.mutated ==> Mutates(p, f, i))
    && (s.impure ==> Impure(p, f))
    && (!s.complete ==> !Complete(p, f))
  }

  lemma EdgeOfCall(p: Program, f: nat, c: Call)
    requires Calls(p, f, c) && c.callee < |p|
    ensures (f, c.callee) in CallEdges(p)
    ensures forall g :: Reaches(CallEdges(p), c.callee, g) ==> Reaches(CallEdges(p), f, g)
  {
    forall g | Reaches(CallEdges(p), c.callee, g) ensures Reaches(CallEdges(p), f, g) {
      ReachesCons(CallEdges(p), f, c.callee, g);
    }
  }

  lemma InitialIsJustified(p: Program, f: nat)
    requires f < |p|
    ensures Justified(p, f, Initial(p[f]))
  {
    ReachesSelf(CallEdges(p), f);
    forall i | i in p[f].mutated ensures Mutates(p, f, i) {
      assert MutatesWithin(p, 0, f, i);
    }
    assert LocallyComplete(p, f) ==> p[f].complete;
  }

  /** Effects of a callee are effects of the caller. */
  lemma CalleeJustifies(p: Program, f: nat, c: Call, callee: State)
    requires Calls(p, f, c) && c.callee < |p| && Justified(p, c.callee, callee)
    ensures forall d :: d in callee.readGlobals ==> Reads(p, f, d)
    ensures forall d :: d in callee.writtenGlobals ==> Writes(p, f, d)
    ensures callee.impure ==> Impure(p, f)
    ensures !callee.complete ==> !Complete(p, f)
  {
    hide Reaches, CallEdges, WritesThrough, LocallyComplete;
    EdgeOfCall(p, f, c);
    forall d | d in callee.readGlobals ensures Reads(p, f, d) {
      var g: nat :| Reaches(CallEdges(p), c.callee, g) && g < |p| && d in p[g].readGlobals;
      assert Reaches(CallEdges(p), f, g);
    }
    forall d | d in callee.writtenGlobals ensures Writes(p, f, d) {
      var g: nat :| Reaches(CallEdges(p), c.callee, g) && g < |p|
          && (d in p[g].writtenGlobals || WritesThrough(p, g, d));
      assert Reaches(CallEdges(p), f, g);
    }
    if callee.impure {
      var g: nat :| Reaches(CallEdges(p), c.callee, g) && g < |p| && p[g].impure;
      assert Reaches(CallEdges(p), f, g);
    }
  }

  lemma ArgumentJustifies(p: Program, f: nat, c: Call, j: nat)
    requires Calls(p, f, c) && Mutates(p, c.callee, j)
    ensures EffectOf(c, j).Parameter? ==> Mutates(p, f, EffectOf(c, j).index)
    ensures EffectOf(c, j).Global? ==> Writes(p, f, EffectOf(c, j).declaration)
    ensures EffectOf(c, j) == Lost ==> !Complete(p, f)
  {
    hide Reaches, CallEdges;
    ReachesSelf(CallEdges(p), f);
    var depth: nat :| MutatesWithin(p, depth, c.callee, j);
    match EffectOf(c, j) {
      case Parameter(i) =>
        assert PassesOn(p, depth, f, i, c, j);
        assert MutatesWithin(p, depth + 1, f, i);
      case Global(d) =>
        assert WritesThrough(p, f, d);
      case Lost =>
        assert !CallFollowed(p, c);
        assert !LocallyComplete(p, f);
      case Harmless =>
    }
  }

  lemma MissingCallee(p: Program, f: nat, c: Call)
    requires Calls(p, f, c) && c.callee >= |p|
    ensures !Complete(p, f)
  {
    ReachesSelf(CallEdges(p), f);
    assert !LocallyComplete(p, f);
  }

  // ----- Growth, and a bound on it -----

  ghost predicate Grows(s: State, t: State) {
    && (t.complete ==> s.complete) && (s.impure ==> t.impure) && (t.pure ==> s.pure)
    && s.readGlobals <= t.readGlobals && s.writtenGlobals <= t.writtenGlobals && s.mutated <= t.mutated
  }

  ghost function AllGlobals(p: Program): set<nat> {
    (set f, d | 0 <= f < |p| && d in p[f].readGlobals :: d)
    + (set f, d | 0 <= f < |p| && d in p[f].writtenGlobals :: d)
    + (set f, c, j | 0 <= f < |p| && c in p[f].calls && j in c.arguments && c.arguments[j].Global? ::
        c.arguments[j].declaration)
  }

  ghost function AllParameters(p: Program): set<nat> {
    (set f, i | 0 <= f < |p| && i in p[f].mutated :: i)
    + (set f, c, j | 0 <= f < |p| && c in p[f].calls && j in c.arguments && c.arguments[j].Parameter? ::
        c.arguments[j].index)
  }

  lemma {:induction false} MutatedIsParameter(p: Program, depth: nat, f: nat, i: nat)
    requires MutatesWithin(p, depth, f, i)
    ensures i in AllParameters(p)
    decreases depth
  {
    if depth > 0 {
      if MutatesWithin(p, depth - 1, f, i) {
        MutatedIsParameter(p, depth - 1, f, i);
      } else {
        var less := depth - 1;
        var c, j :| PassesOn(p, less, f, i, c, j);
        assert j in c.arguments && c.arguments[j] == Parameter(i) && c in p[f].calls;
      }
    }
  }

  lemma JustifiedIsBounded(p: Program, f: nat, s: State)
    requires Justified(p, f, s)
    ensures s.readGlobals <= AllGlobals(p) && s.writtenGlobals <= AllGlobals(p) && s.mutated <= AllParameters(p)
  {
    forall d | d in s.readGlobals ensures d in AllGlobals(p) {
      assert Reads(p, f, d);
    }
    forall d | d in s.writtenGlobals ensures d in AllGlobals(p) {
      WrittenIsGlobal(p, f, d);
    }
    forall i | i in s.mutated ensures i in AllParameters(p) {
      var depth: nat :| MutatesWithin(p, depth, f, i);
      MutatedIsParameter(p, depth, f, i);
    }
  }

  lemma WrittenIsGlobal(p: Program, f: nat, d: nat)
    requires Writes(p, f, d)
    ensures d in AllGlobals(p)
  {
    hide Reaches, CallEdges, Mutates;
    var g: nat :| Reaches(CallEdges(p), f, g) && g < |p| && (d in p[g].writtenGlobals || WritesThrough(p, g, d));
    if d !in p[g].writtenGlobals {
      var c, j :| Calls(p, g, c) && Mutates(p, c.callee, j) && EffectOf(c, j) == Global(d);
      assert c in p[g].calls && j in c.arguments && c.arguments[j].Global?;
    }
  }

  /** Everything a state could gain or lose, as a kind of change and a name. */
  ghost function Changes(p: Program): set<(nat, nat)> {
    {(0, 0), (1, 0), (2, 0)}
    + (set d | d in AllGlobals(p) :: (3, d)) + (set d | d in AllGlobals(p) :: (4, d))
    + (set i | i in AllParameters(p) :: (5, i))
  }

  ghost predicate StillOpen(s: State, change: (nat, nat)) {
    match change.0
    case 0 => s.complete
    case 1 => !s.impure
    case 2 => s.pure
    case 3 => change.1 !in s.readGlobals
    case 4 => change.1 !in s.writtenGlobals
    case _ => change.1 !in s.mutated
  }

  ghost function Remaining(p: Program, s: State): set<(nat, nat)> {
    set q {:trigger q in Changes(p)} | q in Changes(p) && StillOpen(s, q)
  }

  lemma ChangeMade(p: Program, s: State, t: State) returns (q: (nat, nat))
    requires Grows(s, t) && s != t
    requires t.readGlobals <= AllGlobals(p) && t.writtenGlobals <= AllGlobals(p) && t.mutated <= AllParameters(p)
    ensures q in Changes(p) && StillOpen(s, q) && !StillOpen(t, q)
  {
    hide AllGlobals, AllParameters;
    if d :| d in t.readGlobals && d !in s.readGlobals {
      q := (3, d);
    } else if d :| d in t.writtenGlobals && d !in s.writtenGlobals {
      q := (4, d);
    } else if i :| i in t.mutated && i !in s.mutated {
      q := (5, i);
    } else {
      assert s.readGlobals == t.readGlobals && s.writtenGlobals == t.writtenGlobals && s.mutated == t.mutated;
      q := if s.complete != t.complete then (0, 0) else if s.impure != t.impure then (1, 0) else (2, 0);
    }
  }

  lemma GrowthIsBounded(p: Program, f: nat, s: State, t: State)
    requires Justified(p, f, t) && Grows(s, t) && s != t
    ensures Remaining(p, t) < Remaining(p, s)
  {
    JustifiedIsBounded(p, f, t);
    hide AllGlobals, AllParameters, Justified, Changes;
    var q := ChangeMade(p, s, t);
    assert q in Remaining(p, s) && q !in Remaining(p, t);
  }

  ghost function AllRemaining(p: Program, states: seq<State>): set<(nat, (nat, nat))> {
    set f, q | 0 <= f < |states| && q in Remaining(p, states[f]) :: (f, q)
  }

  lemma UpdateShrinksRemaining(p: Program, states: seq<State>, f: nat, t: State)
    requires f < |states| && Remaining(p, t) < Remaining(p, states[f])
    ensures AllRemaining(p, states[f := t]) < AllRemaining(p, states)
  {
    hide Remaining;
    var q :| q in Remaining(p, states[f]) && q !in Remaining(p, t);
    assert (f, q) in AllRemaining(p, states) && (f, q) !in AllRemaining(p, states[f := t]);
  }

  // ----- One merge -----

  ghost predicate ArgumentAbsorbed(s: State, c: Call, j: nat) {
    match EffectOf(c, j)
    case Parameter(i) => i in s.mutated
    case Global(d) => d in s.writtenGlobals
    case _ => true
  }

  ghost predicate AllFollowed(c: Call, mutated: set<nat>) {
    forall j :: j in mutated ==> EffectOf(c, j) != Lost
  }

  /** The state accounts for a call to a function in the given state. */
  ghost predicate Absorbed(s: State, c: Call, callee: State) {
    && (s.complete ==> callee.complete && AllFollowed(c, callee.mutated))
    && (callee.complete ==>
          && callee.readGlobals <= s.readGlobals && callee.writtenGlobals <= s.writtenGlobals
            && (callee.impure ==> s.impure)
          && forall j :: j in callee.mutated ==> ArgumentAbsorbed(s, c, j))
  }

  ghost predicate CallAbsorbed(states: seq<State>, s: State, c: Call) {
    if c.callee < |states| then Absorbed(s, c, states[c.callee]) else !s.complete
  }

  /** Adds what mutating the callee's parameters does here; false when an argument cannot be followed. */
  method MapMutatedArguments(state: State, c: Call, calleeMutated: set<nat>, ghost p: Program, ghost f: nat)
    returns (r: State, complete: bool)
    requires Justified(p, f, state) && Calls(p, f, c)
    requires forall j :: j in calleeMutated ==> Mutates(p, c.callee, j)
    ensures Justified(p, f, r) && Grows(state, r)
    ensures r == state.(writtenGlobals := r.writtenGlobals, mutated := r.mutated)
    ensures forall j :: j in calleeMutated ==> ArgumentAbsorbed(r, c, j)
    ensures complete <==> AllFollowed(c, calleeMutated)
  {
    hide Reads, Writes, Mutates, Impure, Complete;
    r, complete := state, true;
    var todo := calleeMutated;
    while todo != {}
      invariant todo <= calleeMutated
      invariant Justified(p, f, r) && Grows(state, r)
      invariant r == state.(writtenGlobals := r.writtenGlobals, mutated := r.mutated)
      invariant forall j :: j in calleeMutated && j !in todo ==> ArgumentAbsorbed(r, c, j)
      invariant complete <==> forall j :: j in calleeMutated && j !in todo ==> EffectOf(c, j) != Lost
      decreases todo
    {
      var j :| j in todo;
      todo := todo - {j};
      ArgumentJustifies(p, f, c, j);
      match EffectOf(c, j) {
        case Parameter(i) => r := r.(mutated := r.mutated + {i});
        case Global(d) => r := r.(writtenGlobals := r.writtenGlobals + {d});
        case Lost => complete := false;
        case Harmless =>
      }
    }
  }

  lemma AbsorbedGrows(states: seq<State>, s: State, t: State, c: Call)
    requires CallAbsorbed(states, s, c) && Grows(s, t.(pure := s.pure))
    ensures CallAbsorbed(states, t, c)
  {
  }

  ghost predicate AllJustified(p: Program, states: seq<State>) {
    |states| == |p| && forall f :: 0 <= f < |states| ==> Justified(p, f, states[f]) && PureExact(states[f])
  }

  ghost predicate PureExact(s: State) {
    s.pure <==> s.complete && NoEffects(s)
  }

  /** One call folded into the state of its caller. */
  method MergeCall(states: seq<State>, state: State, f: nat, c: Call, ghost p: Program)
    returns (r: State, complete: bool, impure: bool)
    requires AllJustified(p, states) && Calls(p, f, c) && Justified(p, f, state)
    requires Grows(states[f], state) && state.complete == states[f].complete
    ensures Justified(p, f, r.(complete := complete && r.complete, impure := impure || r.impure))
    ensures Justified(p, f, r) && Grows(state, r)
    ensures r == state.(readGlobals := r.readGlobals, writtenGlobals := r.writtenGlobals, mutated := r.mutated)
    ensures CallAbsorbed(states, r.(complete := complete && r.complete, impure := impure || r.impure), c)
  {
    hide Reads, Writes, Mutates, Impure, Complete;
    r := state;
    if c.callee >= |states| {
      MissingCallee(p, f, c);
      return r, false, false;
    }
    // A function that calls itself sees its own state as updated so far.
    var callee := if c.callee == f then state else states[c.callee];
    assert Justified(p, c.callee, callee);
    CalleeJustifies(p, f, c, callee);
    if !callee.complete {
      return r, false, false;
    }
    r := r.(readGlobals := r.readGlobals + callee.readGlobals,
        writtenGlobals := r.writtenGlobals + callee.writtenGlobals);
    complete := true;
    impure := callee.impure;
    if callee.mutated != {} {
      forall j | j in callee.mutated && !AllFollowed(c, {j}) ensures !Complete(p, f) {
        ArgumentJustifies(p, f, c, j);
      }
      r, complete := MapMutatedArguments(r, c, callee.mutated, p, f);
    }
  }

  method MergeFunctionEffects(p: Program, states: seq<State>, f: nat) returns (r: State)
    requires AllJustified(p, states) && f < |p|
    ensures Justified(p, f, r) && PureExact(r) && Grows(states[f], r)
    ensures forall c :: c in p[f].calls ==> CallAbsorbed(states, r, c)
  {
    hide Reads, Writes, Mutates, Impure, Complete, CallAbsorbed;
    r := states[f];
    var complete, impure := r.complete, r.impure;
    var calls := p[f].calls;
    for i := 0 to |calls|
      invariant Justified(p, f, r) && Grows(states[f], r)
      invariant r.complete == states[f].complete && r.impure == states[f].impure && r.pure == states[f].pure
      invariant (complete ==> r.complete) && (r.impure ==> impure)
      invariant Justified(p, f, r.(complete := complete, impure := impure))
      invariant forall k :: 0 <= k < i ==> CallAbsorbed(states, r.(complete := complete, impure := impure), calls[k])
    {
      ghost var before := r.(complete := complete, impure := impure);
      assert Calls(p, f, calls[i]);
      var next, followed, tainted := MergeCall(states, r, f, calls[i], p);
      complete := complete && followed;
      impure := impure || tainted;
      ghost var after := next.(complete := complete, impure := impure);
      forall k | 0 <= k < i ensures CallAbsorbed(states, after, calls[k]) {
        AbsorbedGrows(states, before, after, calls[k]);
      }
      AbsorbedGrows(states, next.(complete := followed && next.complete, impure := tainted || next.impure), after,
          calls[i]);
      r := next;
    }
    ghost var folded := r.(complete := complete, impure := impure);
    r := r.(complete := complete, impure := impure, pure := complete && NoEffects(r.(impure := impure)));
    forall c | c in calls ensures CallAbsorbed(states, r, c) {
      AbsorbedGrows(states, folded, r, c);
    }
  }

  // ----- The worklist -----

  ghost predicate Settled(p: Program, states: seq<State>, f: nat)
    requires |states| == |p|
  {
    f < |p| && forall c :: c in p[f].calls ==> CallAbsorbed(states, states[f], c)
  }

  ghost predicate StartsFrom(p: Program, states: seq<State>)
    requires |states| == |p|
  {
    forall f {:trigger states[f]} :: 0 <= f < |p| ==> Grows(Initial(p[f]), states[f])
  }

  ghost predicate CallersKnown(p: Program, callers: seq<seq<nat>>) {
    && |callers| == |p|
    && (forall f, c {:trigger Calls(p, f, c)} :: Calls(p, f, c) && c.callee < |p| ==> f in callers[c.callee])
    && (forall g, f {:trigger f in callers[g]} :: 0 <= g < |p| && f in callers[g] ==> f < |p|)
  }

  method IndexCallers(p: Program) returns (callers: seq<seq<nat>>)
    ensures CallersKnown(p, callers)
  {
    callers := seq(|p|, _ => []);
    for f := 0 to |p|
      invariant |callers| == |p|
      invariant forall e: nat, c {:trigger Calls(p, e, c)} :: e < f && Calls(p, e, c) && c.callee < |p| ==>
        e in callers[c.callee]
      invariant forall g, e {:trigger e in callers[g]} :: 0 <= g < |p| && e in callers[g] ==> e < |p|
    {
      var calls := p[f].calls;
      for i := 0 to |calls|
        invariant |callers| == |p|
        invariant forall e: nat, c {:trigger Calls(p, e, c)} :: e < f && Calls(p, e, c) && c.callee < |p| ==>
          e in callers[c.callee]
        invariant forall g, e {:trigger e in callers[g]} :: 0 <= g < |p| && e in callers[g] ==> e < |p|
        invariant forall k :: 0 <= k < i && calls[k].callee < |p| ==> f in callers[calls[k].callee]
      {
        var callee := calls[i].callee;
        if callee < |p| {
          callers := callers[callee := callers[callee] + [f]];
        }
      }
    }
  }

  /** What the effect tables promise about one function. */
  ghost predicate Exact(p: Program, f: nat, s: State) {
    && (s.complete <==> Complete(p, f))
    && PureExact(s)
    && (s.complete ==>
          && (s.impure <==> Impure(p, f))
          && (forall d :: d in s.readGlobals <==> Reads(p, f, d))
          && (forall d :: d in s.writtenGlobals <==> Writes(p, f, d))
          && (forall i :: i in s.mutated <==> Mutates(p, f, i)))
  }

  ghost predicate Invariant(p: Program, states: seq<State>, pending: seq<nat>) {
    && AllJustified(p, states) && StartsFrom(p, states)
    && Distinct(pending) && (forall f :: f in pending ==> f < |p|)
    && forall f {:trigger Settled(p, states, f)} :: 0 <= f < |p| && f !in pending ==> Settled(p, states, f)
  }

  lemma GrowsTransitive(a: State, b: State, c: State)
    requires Grows(a, b) && Grows(b, c)
    ensures Grows(a, c)
  {
  }

  /** A call absorbed before a merge is still absorbed afterwards unless its callee changed. */
  lemma MergeKeepsSettled(p: Program, states: seq<State>, f: nat, r: State, g: nat)
    requires |states| == |p| && f < |p| && g < |p| && g != f && Settled(p, states, g)
    requires r == states[f] || forall c :: c in p[g].calls ==> c.callee != f
    ensures Settled(p, states[f := r], g)
  {
    forall c | c in p[g].calls ensures CallAbsorbed(states[f := r], states[g], c) {
      assert CallAbsorbed(states, states[g], c);
    }
  }

  lemma MergeSettles(p: Program, states: seq<State>, f: nat, r: State)
    requires |states| == |p| && f < |p| && forall c :: c in p[f].calls ==> CallAbsorbed(states, r, c)
    requires r == states[f] || forall c :: c in p[f].calls ==> c.callee != f
    ensures Settled(p, states[f := r], f)
  {
    forall c | c in p[f].calls ensures CallAbsorbed(states[f := r], r, c) {
      assert CallAbsorbed(states, r, c);
    }
  }

  lemma MergeStep(p: Program, states: seq<State>, pending: seq<nat>, r: State, pending': seq<nat>)
    requires |states| == |p| && Invariant(p, states, pending) && pending != [] && pending[0] < |p|
    requires Justified(p, pending[0], r) && PureExact(r) && Grows(states[pending[0]], r)
    requires forall c :: c in p[pending[0]].calls ==> CallAbsorbed(states, r, c)
    requires Distinct(pending') && forall f :: f in pending' ==> f < |p|
    requires forall f :: f in pending[1..] ==> f in pending'
    requires r != states[pending[0]] ==>
      forall g, c {:trigger Calls(p, g, c)} :: Calls(p, g, c) && c.callee == pending[0] ==> g in pending'
    ensures Invariant(p, states[pending[0] := r], pending')
  {
    hide Justified, PureExact, CallAbsorbed, Settled;
    var f := pending[0];
    assert f in pending && pending == [f] + pending[1..];
    var states' := states[f := r];
    assert forall g :: 0 <= g < |p| ==> Justified(p, g, states[g]) && PureExact(states[g]);
    assert AllJustified(p, states');
    assert StartsFrom(p, states') by { GrowsTransitive(Initial(p[f]), states[f], r); }
    forall g | 0 <= g < |p| && g !in pending' ensures Settled(p, states', g) {
      assert r == states[f] || forall c :: c in p[g].calls ==> c.callee != f by {
        if r != states[f] {
          forall c | c in p[g].calls ensures c.callee != f { assert Calls(p, g, c); }
        }
      }
      if g == f {
        MergeSettles(p, states, f, r);
      } else {
        assert g !in pending && Settled(p, states, g);
        MergeKeepsSettled(p, states, f, r, g);
      }
    }
  }

  // ----- Exactness at the fixpoint -----

  ghost predicate Fixpoint(p: Program, states: seq<State>) {
    AllJustified(p, states) && StartsFrom(p, states) && forall f :: 0 <= f < |p| ==> Settled(p, states, f)
  }

  /** Completeness passes from a function to everything it reaches, and effects pass back. */
  lemma {:induction false} EffectsPassBack(p: Program, states: seq<State>, path: seq<nat>)
    requires Fixpoint(p, states) && IsPath(CallEdges(p), path) && path[0] < |p| && states[path[0]].complete
    ensures var g := path[|path| - 1];
      && g < |p| && states[g].complete
      && states[g].readGlobals <= states[path[0]].readGlobals
      && states[g].writtenGlobals <= states[path[0]].writtenGlobals
      && (states[g].impure ==> states[path[0]].impure)
    decreases |path|
  {
    hide Justified, PureExact, Grows;
    if |path| > 1 {
      EffectsPassBack(p, states, path[..|path| - 1]);
      var f, g := path[|path| - 2], path[|path| - 1];
      assert (f, g) in CallEdges(p);
      var c :| c in p[f].calls && c.callee == g && g < |p|;
      assert Settled(p, states, f) && CallAbsorbed(states, states[f], c);
    }
  }

  lemma CallOfComplete(p: Program, states: seq<State>, f: nat, c: Call)
    requires |states| == |p| && Fixpoint(p, states) && f < |p| && states[f].complete && c in p[f].calls
    ensures c.callee < |p| && Absorbed(states[f], c, states[c.callee])
  {
    assert Settled(p, states, f) && CallAbsorbed(states, states[f], c);
  }

  /** For complete functions the computed parameter effects contain the least ones. */
  lemma {:induction false} MutatedAtLeast(p: Program, states: seq<State>, depth: nat, f: nat, i: nat)
    requires |states| == |p| && Fixpoint(p, states) && f < |p| && states[f].complete && MutatesWithin(p, depth, f, i)
    ensures i in states[f].mutated
    decreases depth
  {
    hide Fixpoint, Absorbed;
    if depth == 0 {
      assert Grows(Initial(p[f]), states[f]) by { FixpointFacts(p, states, f); }
    } else {
      var less := depth - 1;
      if MutatesWithin(p, less, f, i) {
        MutatedAtLeast(p, states, less, f, i);
      } else {
        var c, j :| PassesOn(p, less, f, i, c, j);
        CallOfComplete(p, states, f, c);
        assert states[c.callee].complete by { AbsorbedIsComplete(states[f], c, states[c.callee]); }
        MutatedAtLeast(p, states, less, c.callee, j);
        AbsorbedArgument(states[f], c, states[c.callee], j);
      }
    }
  }

  lemma FixpointFacts(p: Program, states: seq<State>, f: nat)
    requires |states| == |p| && Fixpoint(p, states) && f < |p|
    ensures Grows(Initial(p[f]), states[f]) && Justified(p, f, states[f]) && PureExact(states[f])
  {
  }

  lemma AbsorbedIsComplete(s: State, c: Call, callee: State)
    requires Absorbed(s, c, callee) && s.complete
    ensures callee.complete && AllFollowed(c, callee.mutated)
  {
  }

  lemma AbsorbedArgument(s: State, c: Call, callee: State, j: nat)
    requires Absorbed(s, c, callee) && s.complete && j in callee.mutated
    ensures ArgumentAbsorbed(s, c, j) && EffectOf(c, j) != Lost
  {
    assert AllFollowed(c, callee.mutated);
  }

  lemma CompleteIsLocal(p: Program, states: seq<State>, f: nat)
    requires |states| == |p| && Fixpoint(p, states) && f < |p| && states[f].complete
    ensures LocallyComplete(p, f)
    ensures forall d :: WritesThrough(p, f, d) ==> d in states[f].writtenGlobals
  {
    hide Fixpoint, Absorbed, Mutates, MutatesWithin;
    FixpointFacts(p, states, f);
    forall c | c in p[f].calls ensures CallFollowed(p, c) {
      CallOfComplete(p, states, f, c);
      AbsorbedIsComplete(states[f], c, states[c.callee]);
      forall j | Mutates(p, c.callee, j) ensures EffectOf(c, j) != Lost {
        MutatedByCallee(p, states, c.callee, j);
        AbsorbedArgument(states[f], c, states[c.callee], j);
      }
    }
    forall d | WritesThrough(p, f, d) ensures d in states[f].writtenGlobals {
      var c, j :| Calls(p, f, c) && Mutates(p, c.callee, j) && EffectOf(c, j) == Global(d);
      CallOfComplete(p, states, f, c);
      AbsorbedIsComplete(states[f], c, states[c.callee]);
      MutatedByCallee(p, states, c.callee, j);
      AbsorbedArgument(states[f], c, states[c.callee], j);
    }
  }

  lemma MutatedByCallee(p: Program, states: seq<State>, f: nat, j: nat)
    requires |states| == |p| && Fixpoint(p, states) && f < |p| && states[f].complete && Mutates(p, f, j)
    ensures j in states[f].mutated
  {
    var depth: nat :| MutatesWithin(p, depth, f, j);
    MutatedAtLeast(p, states, depth, f, j);
  }

  lemma FixpointIsExact(p: Program, states: seq<State>, f: nat)
    requires |states| == |p| && Fixpoint(p, states) && f < |p|
    ensures Exact(p, f, states[f])
  {
    hide Fixpoint, Mutates, WritesThrough, LocallyComplete;
    FixpointFacts(p, states, f);
    if states[f].complete {
      forall g: nat | Reaches(CallEdges(p), f, g)
        ensures g < |p| && LocallyComplete(p, g)
        ensures p[g].readGlobals <= states[f].readGlobals && p[g].writtenGlobals <= states[f].writtenGlobals
        ensures p[g].impure ==> states[f].impure
        ensures forall d :: WritesThrough(p, g, d) ==> d in states[f].writtenGlobals
      {
        var path :| PathFromTo(CallEdges(p), path, f, g);
        EffectsPassBack(p, states, path);
        FixpointFacts(p, states, g);
        CompleteIsLocal(p, states, g);
      }
      forall i | Mutates(p, f, i) ensures i in states[f].mutated {
        MutatedByCallee(p, states, f, i);
      }
    }
  }

  /** The functions from `head` on are different, all below n, and exactly those marked as queued. */
  ghost predicate IsPending(queue: seq<nat>, head: nat, queued: set<nat>, n: nat) {
    && head <= |queue| && Distinct(queue[head..])
    && (forall f :: f in queue[head..] ==> f < n) && forall f :: f in queued <==> f in queue[head..]
  }

  /** Puts every waiting caller behind the queue that is not in it. */
  method EnqueueCallers(queue: seq<nat>, head: nat, queued: set<nat>, waiting: seq<nat>, ghost n: nat)
    returns (queue': seq<nat>, queued': set<nat>)
    requires IsPending(queue, head, queued, n) && forall f :: f in waiting ==> f < n
    ensures IsPending(queue', head, queued', n)
    ensures forall f :: f in queue'[head..] <==> f in queue[head..] || f in waiting
  {
    queue', queued' := queue, queued;
    for i := 0 to |waiting|
      invariant IsPending(queue', head, queued', n)
      invariant forall f :: f in queue'[head..] <==> f in queue[head..] || f in waiting[..i]
    {
      var caller := waiting[i];
      assert caller in waiting;
      assert waiting[..i + 1] == waiting[..i] + [caller];
      if caller !in queued' {
        assert (queue' + [caller])[head..] == queue'[head..] + [caller];
        queue', queued' := queue' + [caller], queued' + {caller};
      }
    }
    assert waiting[..|waiting|] == waiting;
  }

  /**
   A function is marked pure exactly if everything about it is known, and neither it nor anything it calls is
   impure by itself, reads or writes a global, or mutates a parameter.
   */
  lemma PureMeans(p: Program, f: nat, s: State)
    requires Exact(p, f, s)
    ensures s.pure <==>
      && Complete(p, f) && !Impure(p, f) && (forall d :: !Reads(p, f, d)) && (forall d :: !Writes(p, f, d))
      && forall i :: !Mutates(p, f, i)
  {
    hide Complete, Impure, Reads, Writes, Mutates;
    if s.complete && !s.impure && !s.pure {
      assert s.readGlobals != {} || s.writtenGlobals != {} || s.mutated != {};
      if d :| d in s.readGlobals {
      } else if d :| d in s.writtenGlobals {
      } else {
        var i :| i in s.mutated;
      }
    }
  }

  /**
   What a call does when the function called mutates parameter j: the argument is a parameter of the caller, which
   is then mutated too, a global, which is then written, or one that concerns nobody. Without an argument that is
   known to be one of these the caller is not complete.
   */
  lemma MutationPasses(p: Program, f: nat, c: Call, j: nat)
    requires Calls(p, f, c) && Mutates(p, c.callee, j)
    ensures j in c.arguments && c.arguments[j].Parameter? ==> Mutates(p, f, c.arguments[j].index)
    ensures j in c.arguments && c.arguments[j].Global? ==> Writes(p, f, c.arguments[j].declaration)
    ensures j !in c.arguments || c.arguments[j].Lost? ==> !Complete(p, f)
  {
    hide MutatesWithin;
    ReachesSelf(CallEdges(p), f);
    var depth: nat :| MutatesWithin(p, depth, c.callee, j);
    match EffectOf(c, j) {
      case Parameter(i) => PassedOn(p, depth, f, i, c, j);
      case Global(d) => assert WritesThrough(p, f, d);
      case Lost => assert !CallFollowed(p, c) && !LocallyComplete(p, f);
      case Harmless =>
    }
  }

  lemma PassedOn(p: Program, depth: nat, f: nat, i: nat, c: Call, j: nat)
    requires Calls(p, f, c) && MutatesWithin(p, depth, c.callee, j) && EffectOf(c, j) == Parameter(i)
    ensures Mutates(p, f, i)
  {
    assert PassesOn(p, depth, f, i, c, j);
    assert MutatesWithin(p, depth + 1, f, i);
  }

  /** The effect tables of a program. */
  class EffectAnalysis {
    const program: Program
    var states: seq<State>

    constructor (program: Program)
      ensures this.program == program
    {
      this.program := program;
      states := [];
    }

    /** Propagates effects until nothing changes; the outcome does not depend on the order of the queue. */
    method BuildFunctionEffects()
      modifies this
      ensures |states| == |program| && forall f: nat :: f < |program| ==> Exact(program, f, states[f])
    {
      hide *;
      ghost var p := program;
      states := seq(|program|, f requires 0 <= f < |program| => Initial(program[f]));
      StartJustified(p, states);
      var callers := IndexCallers(program);
      var queue: seq<nat> := seq(|program|, f requires 0 <= f < |program| => f);
      var queued := set f | f in queue;
      var head := 0;
      assert queue[0..] == queue;
      EveryFunctionQueued(p, states, queue, queued);
      while head < |queue|
        invariant head <= |queue| && IsPending(queue, head, queued, |p|) && Invariant(p, states, queue[head..])
        decreases AllRemaining(p, states), |queue| - head
      {
        var id := queue[head];
        ghost var pending := queue[head..];
        TakeFirst(p, states, queue, head, queued);
        queued := queued - {id};
        var r := MergeFunctionEffects(program, states, id);
        head := head + 1;
        if r != states[id] {
          ChangeShrinks(p, states, id, r);
          CallersOf(p, callers, id);
          queue, queued := EnqueueCallers(queue, head, queued, callers[id], |p|);
        }
        PendingFacts(queue, head, queued, |p|);
        MergeStep(p, states, pending, r, queue[head..]);
        assert r == states[id] ==> states[id := r] == states;
        states := states[id := r];
      }
      NothingPending(p, states, queue, head, queued);
      forall f: nat | f < |program| ensures Exact(program, f, states[f]) {
        FixpointIsExact(p, states, f);
      }
    }
  }

  lemma EveryFunctionQueued(p: Program, states: seq<State>, queue: seq<nat>, queued: set<nat>)
    requires |queue| == |p| && (forall i :: 0 <= i < |queue| ==> queue[i] == i) && forall f :: f in queued <==>
      f in queue
    requires |states| == |p| && AllJustified(p, states) && StartsFrom(p, states)
    ensures IsPending(queue, 0, queued, |p|) && Invariant(p, states, queue)
  {
    assert queue[0..] == queue;
    forall f | 0 <= f < |p| ensures f in queue {
      assert queue[f] == f;
    }
  }

  lemma TakeFirst(p: Program, states: seq<State>, queue: seq<nat>, head: nat, queued: set<nat>)
    requires IsPending(queue, head, queued, |p|) && head < |queue| && Invariant(p, states, queue[head..])
    ensures IsPending(queue, head + 1, queued - {queue[head]}, |p|) && AllJustified(p, states)
    ensures |states| == |p| && queue[head] < |p|
    ensures queue[head..][0] == queue[head] && queue[head..][1..] == queue[head + 1..]
  {
    hide Settled, Justified;
    var rest := queue[head + 1..];
    assert queue[head..] == [queue[head]] + rest;
    FirstOfDistinct(queue[head], rest);
    assert queue[head] in queue[head..] && forall f :: f in rest ==> f in queue[head..];
  }

  lemma FirstOfDistinct(first: nat, rest: seq<nat>)
    requires Distinct([first] + rest)
    ensures Distinct(rest) && first !in rest && forall f :: f in [first] + rest <==> f == first || f in rest
  {
    var all := [first] + rest;
    assert all[0] == first && forall i :: 0 <= i < |rest| ==> all[i + 1] == rest[i];
  }

  lemma ChangeShrinks(p: Program, states: seq<State>, id: nat, r: State)
    requires |states| == |p| && id < |p| && Justified(p, id, r) && Grows(states[id], r) && r != states[id]
    ensures AllRemaining(p, states[id := r]) < AllRemaining(p, states)
  {
    GrowthIsBounded(p, id, states[id], r);
    UpdateShrinksRemaining(p, states, id, r);
  }

  lemma CallersOf(p: Program, callers: seq<seq<nat>>, id: nat)
    requires CallersKnown(p, callers) && id < |p|
    ensures |callers| == |p| && forall f :: f in callers[id] ==> f < |p|
    ensures forall g, c {:trigger Calls(p, g, c)} :: Calls(p, g, c) && c.callee == id ==> g in callers[id]
  {
  }

  lemma PendingFacts(queue: seq<nat>, head: nat, queued: set<nat>, n: nat)
    requires IsPending(queue, head, queued, n)
    ensures head <= |queue| && Distinct(queue[head..]) && forall f :: f in queue[head..] ==> f < n
  {
  }

  lemma NothingPending(p: Program, states: seq<State>, queue: seq<nat>, head: nat, queued: set<nat>)
    requires IsPending(queue, head, queued, |p|) && head >= |queue| && Invariant(p, states, queue[head..])
    ensures |states| == |p| && Fixpoint(p, states)
  {
    hide Settled, Justified;
  }

  lemma StartJustified(p: Program, states: seq<State>)
    requires |states| == |p| && forall f :: 0 <= f < |p| ==> states[f] == Initial(p[f])
    ensures AllJustified(p, states) && StartsFrom(p, states)
  {
    hide Justified;
    forall f | 0 <= f < |p| ensures Justified(p, f, states[f]) {
      InitialIsJustified(p, f);
    }
  }
}
