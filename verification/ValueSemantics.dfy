/**
 What the value events of a block mean: abstractly on maps of known values, concretely on stores.
 A constant whose initialiser evaluates is settled: it holds that value in every store.
 */
module ValueSemantics {
  import opened Wrappers
  import opened Graphs
  import opened FlowGraphs
  import opened ConstEval

  /** Forgetting a symbol, or giving it the value of an expression; no expression means zero. */
  datatype ValueEvent =
    | Invalidate(offset: int, symbol: Symbol)
    | Assign(offset: int, symbol: Symbol, expr: Option<Expr>)

  datatype ValueFlow = ValueFlow(graph: FlowGraph, env: Env, tracked: set<Symbol>, events: seq<seq<ValueEvent>>) {

    ghost predicate Settled() {
      && graph.WellFormed()
      && |events| == |graph.succs|
      && CellEnv(env)
      && forall b :: 0 <= b < |events| ==> EventsSettled(this, events[b])
    }

    ghost predicate WellFormed() {
      Settled() && Independent(env, Locals(env, tracked))
    }

    function EventsOf(b: nat): seq<ValueEvent> {
      if b < |events| then events[b] else []
    }
  }

  function Evaluation(env: Env, e: Expr, values: Values): Option<int> {
    Eval(env, e, {}, values)
  }

  function Name(s: Symbol): Expr {
    Identifier(None, Some(s))
  }

  /** The value of a constant on its own, knowing nothing about any local. */
  function ConstantOf(env: Env, s: Symbol): Option<int> {
    if s in env.constants then Evaluation(env, Name(s), map[]) else None
  }

  /** The constants for which the evaluator has something to look up. */
  ghost function Unfoldable(env: Env): set<Symbol> {
    set s | s in env.constants && (s in env.initialisers || s in env.constantValues)
  }

  /** The tracked symbols whose value only the events tell. */
  ghost function Locals(env: Env, tracked: set<Symbol>): set<Symbol> {
    tracked - Unfoldable(env)
  }

  ghost predicate CellValues(values: Values) {
    forall s :: s in values ==> InCell(values[s])
  }

  ghost predicate CellEnv(env: Env) {
    && CellValues(env.constantValues)
    && forall s :: s in env.initialisers ==> BuiltinsInCell(env.initialisers[s])
  }

  /** Knowing values of locals tells nothing about any constant that is not known without them. */
  ghost predicate Independent(env: Env, locals: set<Symbol>) {
    forall c, values: Values {:trigger Evaluation(env, Name(c), values)} ::
      c in Unfoldable(env) && values.Keys <= locals && CellValues(values) ==>
        Evaluation(env, Name(c), values) == ConstantOf(env, c)
  }

  /** A constant that has an initialiser is only ever assigned that initialiser. */
  ghost predicate EventSettled(flow: ValueFlow, e: ValueEvent) {
    && e.symbol in flow.tracked
    && (e.Assign? && e.expr.Some? ==> BuiltinsInCell(e.expr.value))
    && (e.Assign? && e.symbol in Unfoldable(flow.env) ==>
          e.symbol !in flow.env.constantValues && e.expr == Some(flow.env.initialisers[e.symbol]))
  }

  ghost predicate EventsSettled(flow: ValueFlow, events: seq<ValueEvent>) {
    forall i :: 0 <= i < |events| ==> EventSettled(flow, events[i])
  }

  /** Known values are cells of tracked symbols, and agree with what constants evaluate to. */
  ghost predicate Consistent(flow: ValueFlow, values: Values) {
    && values.Keys <= flow.tracked && CellValues(values)
    && forall s :: s in values && s in Unfoldable(flow.env) ==> ConstantOf(flow.env, s) == Some(values[s])
  }

  ghost predicate Weaker(a: Values, b: Values) {
    forall s :: s in a ==> s in b && b[s] == a[s]
  }

  function ApplyEvent(env: Env, e: ValueEvent, values: Values): Values {
    match e
    case Invalidate(_, s) => values - {s}
    case Assign(_, s, None) => values[s := 0]
    case Assign(_, s, Some(expr)) =>
      var v := Evaluation(env, expr, values);
      if v == None then values - {s} else values[s := v.value]
  }

  ghost function ApplyEvents(env: Env, events: seq<ValueEvent>, values: Values): Values
    decreases |events|
  {
    if events == [] then values
    else ApplyEvent(env, events[|events| - 1], ApplyEvents(env, events[..|events| - 1], values))
  }

  // ----- What is known after a list of events -----

  /**
   What one event does: nothing to other symbols; its own is unknown, zero, or what the expression evaluates
   to under what was known before, if it does.
   */
  ghost predicate Moves(env: Env, e: ValueEvent, before: Values, after: Values) {
    && (forall s :: s != e.symbol ==> (s in after <==> s in before) && (s in after ==> after[s] == before[s]))
    && match e
       case Invalidate(_, s) => s !in after
       case Assign(_, s, None) => s in after && after[s] == 0
       case Assign(_, s, Some(expr)) =>
         var v := Evaluation(env, expr, before);
         if v.Some? then s in after && after[s] == v.value else s !in after
  }

  /** What is known before the first event, between any two, and after the last. */
  ghost predicate IsTrace(env: Env, events: seq<ValueEvent>, states: seq<Values>) {
    && |states| == |events| + 1
    && forall i :: 0 <= i < |events| ==> Moves(env, events[i], states[i], states[i + 1])
  }

  /** What is known after the events is where the trace of them ends. */
  lemma {:induction false} AppliedIsTrace(env: Env, events: seq<ValueEvent>, values: Values)
      returns (states: seq<Values>)
    ensures IsTrace(env, events, states) && states[0] == values
    ensures states[|events|] == ApplyEvents(env, events, values)
    decreases |events|
  {
    hide Evaluation;
    if events == [] {
      states := [values];
    } else {
      var n := |events| - 1;
      var before := AppliedIsTrace(env, events[..n], values);
      states := before + [ApplyEvents(env, events, values)];
      forall i | 0 <= i < |events| ensures Moves(env, events[i], states[i], states[i + 1]) {
        if i < n {
          assert Moves(env, events[..n][i], before[i], before[i + 1]);
        }
      }
    }
  }

  /** There is only one trace: what is known does not depend on how it is computed. */
  lemma {:induction false} TraceIsApplied(env: Env, events: seq<ValueEvent>, states: seq<Values>)
    requires IsTrace(env, events, states)
    ensures states[|events|] == ApplyEvents(env, events, states[0])
    decreases |events|
  {
    hide Evaluation;
    if events != [] {
      var n := |events| - 1;
      TraceIsApplied(env, events[..n], states[..n + 1]);
      assert Moves(env, events[n], states[n], states[n + 1]);
    }
  }

  /** Without an event about a symbol, what is known of it stays. */
  lemma {:induction false} Untouched(env: Env, events: seq<ValueEvent>, states: seq<Values>, s: Symbol, from: nat)
    requires IsTrace(env, events, states) && from <= |events|
    requires forall i :: from <= i < |events| ==> events[i].symbol != s
    ensures s in states[|events|] <==> s in states[from]
    ensures s in states[from] ==> states[|events|][s] == states[from][s]
    decreases |events| - from
  {
    hide Evaluation;
    if from < |events| {
      Untouched(env, events, states, s, from + 1);
      assert Moves(env, events[from], states[from], states[from + 1]);
    }
  }

  /**
   The last event about a symbol decides what is known of it: nothing after an invalidation, zero after a
   declaration without initialiser, and after any other assignment exactly the value that the expression
   has there, if it has one.
   */
  lemma LastEventDecides(env: Env, events: seq<ValueEvent>, states: seq<Values>, i: nat)
    requires IsTrace(env, events, states) && i < |events|
    requires forall j :: i < j < |events| ==> events[j].symbol != events[i].symbol
    ensures var s, known := events[i].symbol, states[|events|];
      match events[i]
      case Invalidate(_, _) => s !in known
      case Assign(_, _, None) => s in known && known[s] == 0
      case Assign(_, _, Some(expr)) =>
        var v := Evaluation(env, expr, states[i]);
        (s in known <==> v.Some?) && (s in known ==> known[s] == v.value)
  {
    hide Evaluation;
    assert Moves(env, events[i], states[i], states[i + 1]);
    Untouched(env, events, states, events[i].symbol, i + 1);
  }

  // ----- Carrying results from some known values to others -----

  /** What is known under a is what the evaluator finds under b, and does not clash with what b knows. */
  ghost predicate Matches(env: Env, a: Values, b: Values) {
    && (forall s {:trigger s in a} :: s in a ==> Evaluation(env, Name(s), b) == Some(a[s]))
    && forall s {:trigger s in b} :: s !in a && s in b ==>
         Evaluation(env, Name(s), a) == None || Evaluation(env, Name(s), a) == Some(b[s])
  }

  /** A value found for an initialiser is found for its constant. */
  lemma NameHasValue(env: Env, s: Symbol, values: Values, v: int)
    requires s in Unfoldable(env) && s !in env.constantValues && s !in values
    ensures Evaluation(env, env.initialisers[s], values) == Some(v) ==> Evaluation(env, Name(s), values) == Some(v)
  {
    if Evaluation(env, env.initialisers[s], values) == Some(v) {
      CycleCheckLosesNothing(env, env.initialisers[s], values, v);
      var fuel: nat :| Unfold(env, fuel, env.initialisers[s], values) == Some(v);
      assert Unfold(env, fuel + 1, Name(s), values) == Some(v);
      CycleCheckLosesNothing(env, Name(s), values, v);
    }
  }

  lemma {:induction false} Transfer(env: Env, fuel: nat, e: Expr, a: Values, b: Values)
    requires Matches(env, a, b) && Unfold(env, fuel, e, a).Some?
    ensures Evaluation(env, e, b) == Unfold(env, fuel, e, a)
    decreases fuel, e, 1
  {
    hide EvalUnary, EvalBinary, Matches;
    match e {
      case Paren(inner) => Transfer(env, fuel, inner, a, b);
      case Unary(op, operand) => Transfer(env, fuel, operand, a, b);
      case Binary(op, left, right) =>
        Transfer(env, fuel, left, a, b);
        Transfer(env, fuel, right, a, b);
      case Ternary(condition, consequence, alternative) =>
        Transfer(env, fuel, condition, a, b);
        Transfer(env, fuel, if Unfold(env, fuel, condition, a).value != 0 then consequence else alternative, a, b);
      case Identifier(_, symbol) =>
        if symbol.Some? { TransferName(env, fuel, e, symbol.value, a, b); }
      case _ =>
    }
  }

  lemma {:induction false} TransferName(env: Env, fuel: nat, e: Expr, s: Symbol, a: Values, b: Values)
    requires e.Identifier? && e.symbol == Some(s)
    requires Matches(env, a, b) && Unfold(env, fuel, e, a).Some?
    ensures Evaluation(env, e, b) == Unfold(env, fuel, e, a)
    decreases fuel, e, 0
  {
    var v := Unfold(env, fuel, e, a).value;
    assert Evaluation(env, e, b) == Evaluation(env, Name(s), b);
    assert Unfold(env, fuel, Name(s), a) == Some(v);
    if s !in a {
      if s in b {
        UnfoldedIsFound(env, fuel, Name(s), a, v);
      } else if s !in env.constantValues {
        Transfer(env, fuel - 1, env.initialisers[s], a, b);
        NameHasValue(env, s, b, v);
      }
    }
  }

  lemma UnfoldedIsFound(env: Env, fuel: nat, e: Expr, values: Values, v: int)
    requires Unfold(env, fuel, e, values) == Some(v)
    ensures Evaluation(env, e, values) == Some(v)
  {
    CycleCheckLosesNothing(env, e, values, v);
  }

  lemma TransferEvaluation(env: Env, e: Expr, a: Values, b: Values)
    requires Matches(env, a, b)
    ensures Evaluation(env, e, a).Some? ==> Evaluation(env, e, b) == Evaluation(env, e, a)
  {
    hide Evaluation, Unfold, Matches;
    var v := Evaluation(env, e, a);
    if v.Some? {
      FoundByUnfolding(env, e, a, v.value);
      var fuel: nat :| Unfold(env, fuel, e, a) == v;
      Transfer(env, fuel, e, a, b);
    }
  }

  lemma FoundByUnfolding(env: Env, e: Expr, values: Values, v: int)
    ensures Evaluation(env, e, values) == Some(v) <==> exists fuel :: Unfold(env, fuel, e, values) == Some(v)
  {
    CycleCheckLosesNothing(env, e, values, v);
  }

  /** What is known of locals only. */
  ghost function OfLocals(flow: ValueFlow, values: Values): Values {
    map s | s in values && s !in Unfoldable(flow.env) :: values[s]
  }

  lemma LocalsSuffice(flow: ValueFlow, values: Values)
    requires Independent(flow.env, Locals(flow.env, flow.tracked)) && Consistent(flow, values)
    ensures Matches(flow.env, values, OfLocals(flow, values)) && Matches(flow.env, OfLocals(flow, values), values)
  {
    hide Eval;
    var locals := OfLocals(flow, values);
    forall s | s in values ensures Evaluation(flow.env, Name(s), locals) == Some(values[s]) {
      if s in Unfoldable(flow.env) {
        assert Evaluation(flow.env, Name(s), locals) == ConstantOf(flow.env, s);
      } else {
        KnownName(flow.env, s, locals);
      }
    }
    forall s | s in locals ensures Evaluation(flow.env, Name(s), values) == Some(locals[s]) {
      KnownName(flow.env, s, values);
    }
  }

  lemma KnownName(env: Env, s: Symbol, values: Values)
    ensures s in values ==> Evaluation(env, Name(s), values) == Some(values[s])
    ensures s !in values && s !in Unfoldable(env) ==> Evaluation(env, Name(s), values) == None
  {
  }

  /** Under consistent values every constant that is not known evaluates as it does on its own. */
  lemma ConstantsAreFixed(flow: ValueFlow, values: Values, c: Symbol)
    requires Independent(flow.env, Locals(flow.env, flow.tracked)) && Consistent(flow, values)
    requires c in Unfoldable(flow.env)
    ensures Evaluation(flow.env, Name(c), values) == ConstantOf(flow.env, c)
  {
    hide Eval, Matches;
    var locals := OfLocals(flow, values);
    LocalsSuffice(flow, values);
    assert Evaluation(flow.env, Name(c), locals) == ConstantOf(flow.env, c);
    TransferEvaluation(flow.env, Name(c), values, locals);
    TransferEvaluation(flow.env, Name(c), locals, values);
  }

  /** An initialiser evaluates to nothing but the value of its constant. */
  lemma InitialiserIsFixed(flow: ValueFlow, values: Values, c: Symbol)
    requires Independent(flow.env, Locals(flow.env, flow.tracked)) && Consistent(flow, values)
    requires c in Unfoldable(flow.env) && c !in flow.env.constantValues
    requires Evaluation(flow.env, flow.env.initialisers[c], values).Some?
    ensures Evaluation(flow.env, flow.env.initialisers[c], values) == ConstantOf(flow.env, c)
  {
    hide Eval, Matches;
    var locals := OfLocals(flow, values);
    LocalsSuffice(flow, values);
    TransferEvaluation(flow.env, flow.env.initialisers[c], values, locals);
    NameHasValue(flow.env, c, locals, Evaluation(flow.env, flow.env.initialisers[c], locals).value);
    assert Evaluation(flow.env, Name(c), locals) == ConstantOf(flow.env, c);
  }

  // ----- More known values never lose a result -----

  lemma EvaluationMonotone(flow: ValueFlow, e: Expr, a: Values, b: Values)
    requires Independent(flow.env, Locals(flow.env, flow.tracked)) && Consistent(flow, b) && Weaker(a, b)
    ensures Evaluation(flow.env, e, a).Some? ==> Evaluation(flow.env, e, b) == Evaluation(flow.env, e, a)
  {
    hide Eval;
    assert Consistent(flow, a);
    forall s | s in a ensures Evaluation(flow.env, Name(s), b) == Some(a[s]) {
      KnownName(flow.env, s, b);
    }
    forall s | s !in a && s in b
      ensures Evaluation(flow.env, Name(s), a) == None || Evaluation(flow.env, Name(s), a) == Some(b[s])
    {
      if s in Unfoldable(flow.env) {
        ConstantsAreFixed(flow, a, s);
      } else {
        KnownName(flow.env, s, a);
      }
    }
    TransferEvaluation(flow.env, e, a, b);
  }

  lemma ApplyEventRegular(flow: ValueFlow, e: ValueEvent, a: Values, b: Values)
    requires Independent(flow.env, Locals(flow.env, flow.tracked)) && CellEnv(flow.env)
    requires Consistent(flow, b) && Weaker(a, b) && EventSettled(flow, e)
    ensures Consistent(flow, ApplyEvent(flow.env, e, b))
    ensures Weaker(ApplyEvent(flow.env, e, a), ApplyEvent(flow.env, e, b))
  {
    if e.Assign? && e.expr.Some? {
      EvalInCell(flow.env, e.expr.value, {}, b);
      EvaluationMonotone(flow, e.expr.value, a, b);
      if e.symbol in Unfoldable(flow.env) && Evaluation(flow.env, e.expr.value, b).Some? {
        InitialiserIsFixed(flow, b, e.symbol);
      }
    }
    hide Evaluation, Independent;
  }

  /** Running the events of a block keeps consistency and is monotone. */
  lemma {:induction false} ApplyEventsRegular(flow: ValueFlow, events: seq<ValueEvent>, a: Values, b: Values)
    requires Independent(flow.env, Locals(flow.env, flow.tracked)) && CellEnv(flow.env)
    requires Consistent(flow, b) && Weaker(a, b) && EventsSettled(flow, events)
    ensures Consistent(flow, ApplyEvents(flow.env, events, b))
    ensures Weaker(ApplyEvents(flow.env, events, a), ApplyEvents(flow.env, events, b))
    decreases |events|
  {
    hide ApplyEvent, Weaker, Consistent, Independent, EventSettled;
    if events != [] {
      var front := events[..|events| - 1];
      ApplyEventsRegular(flow, front, a, b);
      ApplyEventRegular(flow, events[|events| - 1], ApplyEvents(flow.env, front, a), ApplyEvents(flow.env, front, b));
    }
  }

  // ----- Initialisers that avoid locals -----

  ghost predicate Avoids(e: Expr, locals: set<Symbol>) {
    match e
    case Paren(inner) => Avoids(inner, locals)
    case Unary(_, operand) => Avoids(operand, locals)
    case Binary(_, left, right) => Avoids(left, locals) && Avoids(right, locals)
    case Ternary(c, t, f) => Avoids(c, locals) && Avoids(t, locals) && Avoids(f, locals)
    case Identifier(_, symbol) => symbol.Some? ==> symbol.value !in locals
    case _ => true
  }

  lemma {:induction false} AvoidedIsIrrelevant(env: Env, fuel: nat, e: Expr, locals: set<Symbol>, values: Values)
    requires forall c :: c in env.initialisers ==> Avoids(env.initialisers[c], locals)
    requires values.Keys <= locals && Avoids(e, locals)
    ensures Unfold(env, fuel, e, values) == Unfold(env, fuel, e, map[])
    decreases fuel, e
  {
    hide EvalUnary, EvalBinary;
    match e {
      case Paren(inner) => AvoidedIsIrrelevant(env, fuel, inner, locals, values);
      case Unary(op, operand) => AvoidedIsIrrelevant(env, fuel, operand, locals, values);
      case Binary(op, left, right) =>
        AvoidedIsIrrelevant(env, fuel, left, locals, values);
        AvoidedIsIrrelevant(env, fuel, right, locals, values);
      case Ternary(condition, consequence, alternative) =>
        AvoidedIsIrrelevant(env, fuel, condition, locals, values);
        AvoidedIsIrrelevant(env, fuel, consequence, locals, values);
        AvoidedIsIrrelevant(env, fuel, alternative, locals, values);
      case Identifier(_, symbol) =>
        if symbol.Some? && symbol.value in env.initialisers && fuel > 0 {
          AvoidedIsIrrelevant(env, fuel - 1, env.initialisers[symbol.value], locals, values);
        }
      case _ =>
    }
  }

  /** It is enough that no initialiser mentions a local. */
  lemma AvoidingIsIndependent(env: Env, locals: set<Symbol>)
    requires locals !! Unfoldable(env) && forall c :: c in env.initialisers ==> Avoids(env.initialisers[c], locals)
    ensures Independent(env, locals)
  {
    hide Eval, Unfold;
    forall c, values: Values | c in Unfoldable(env) && values.Keys <= locals && CellValues(values)
      ensures Evaluation(env, Name(c), values) == ConstantOf(env, c)
    {
      var known, alone := Evaluation(env, Name(c), values), ConstantOf(env, c);
      if known.Some? {
        FoundByUnfolding(env, Name(c), values, known.value);
        FoundByUnfolding(env, Name(c), map[], known.value);
        var fuel: nat :| Unfold(env, fuel, Name(c), values) == known;
        AvoidedIsIrrelevant(env, fuel, Name(c), locals, values);
      } else if alone.Some? {
        FoundByUnfolding(env, Name(c), values, alone.value);
        FoundByUnfolding(env, Name(c), map[], alone.value);
        var fuel: nat :| Unfold(env, fuel, Name(c), map[]) == alone;
        AvoidedIsIrrelevant(env, fuel, Name(c), locals, values);
      }
    }
  }

  // ----- Concrete runs -----

  type Store = map<Symbol, int>

  /** The values an expression may have at run time; anything the evaluator cannot see may have any value. */
  ghost predicate Yields(e: Expr, store: Store, v: int) {
    match e
    case Literal(unsigned) => unsigned.Some? && unsigned.value < WORD ==> v == Cell(unsigned.value)
    case Paren(inner) => Yields(inner, store, v)
    case Unary(op, operand) =>
      exists a :: Yields(operand, store, a) && (EvalUnary(op, a).Some? ==> v == EvalUnary(op, a).value)
    case Binary(op, left, right) =>
      exists a, b ::
        && Yields(left, store, a) && Yields(right, store, b)
        && (EvalBinary(op, a, b).Some? ==> v == EvalBinary(op, a, b).value)
    case Ternary(condition, consequence, alternative) =>
      exists c :: Yields(condition, store, c) && Yields(if c != 0 then consequence else alternative, store, v)
    case Identifier(builtin, symbol) =>
      if symbol.Some? then symbol.value in store ==> v == store[symbol.value]
      else builtin.Some? ==> v == builtin.value
    case Opaque => true
  }

  /** Every constant that evaluates on its own holds that value. */
  ghost predicate ConstantsHold(env: Env, store: Store) {
    forall c :: ConstantOf(env, c).Some? ==> c in store && store[c] == ConstantOf(env, c).value
  }

  ghost predicate Executes(flow: ValueFlow, e: ValueEvent, before: Store, after: Store) {
    if ConstantOf(flow.env, e.symbol).Some? then after == before
    else if e.symbol !in after then false
    else match e
      case Invalidate(_, s) => after == before[s := after[s]]
      case Assign(_, s, None) => after == before[s := 0]
      case Assign(_, s, Some(expr)) => after == before[s := after[s]] && Yields(expr, before, after[s])
  }

  ghost predicate Runs(flow: ValueFlow, events: seq<ValueEvent>, before: Store, after: Store)
    decreases |events|
  {
    if events == [] then before == after
    else
      var front, last := events[..|events| - 1], events[|events| - 1];
      exists middle :: Runs(flow, front, before, middle) && Executes(flow, last, middle, after)
  }

  /** Running every block of the path but the last, from any store in which the constants hold. */
  ghost predicate RunsAlong(flow: ValueFlow, path: seq<nat>, initial: Store, reached: Store)
    decreases |path|
  {
    if |path| <= 1 then initial == reached && ConstantsHold(flow.env, initial)
    else
      var front, events := path[..|path| - 1], flow.EventsOf(path[|path| - 2]);
      exists middle :: RunsAlong(flow, front, initial, middle) && Runs(flow, events, middle, reached)
  }

  ghost predicate Agrees(values: Values, store: Store) {
    forall s :: s in values ==> s in store && store[s] == values[s]
  }

  /** A value the evaluator finds is the only one the expression can have. */
  lemma {:induction false} EvaluationIsYielded(flow: ValueFlow, e: Expr, values: Values, store: Store, v: int)
    requires Independent(flow.env, Locals(flow.env, flow.tracked))
    requires Consistent(flow, values) && Agrees(values, store) && ConstantsHold(flow.env, store)
    requires Evaluation(flow.env, e, values).Some? && Yields(e, store, v)
    ensures Evaluation(flow.env, e, values) == Some(v)
    decreases e
  {
    hide EvalUnary, EvalBinary, Independent, Consistent, Agrees, ConstantsHold;
    match e {
      case Paren(inner) => EvaluationIsYielded(flow, inner, values, store, v);
      case Unary(op, operand) =>
        var a :| Yields(operand, store, a) && (EvalUnary(op, a).Some? ==> v == EvalUnary(op, a).value);
        EvaluationIsYielded(flow, operand, values, store, a);
      case Binary(op, left, right) =>
        var a, b :| Yields(left, store, a) && Yields(right, store, b)
                 && (EvalBinary(op, a, b).Some? ==> v == EvalBinary(op, a, b).value);
        EvaluationIsYielded(flow, left, values, store, a);
        EvaluationIsYielded(flow, right, values, store, b);
      case Ternary(condition, consequence, alternative) =>
        var c :| Yields(condition, store, c) && Yields(if c != 0 then consequence else alternative, store, v);
        EvaluationIsYielded(flow, condition, values, store, c);
        EvaluationIsYielded(flow, if c != 0 then consequence else alternative, values, store, v);
      case Identifier(builtin, symbol) =>
        if symbol.Some? {
          NameIsYielded(flow, symbol.value, values, store, v);
        }
      case _ =>
    }
  }

  lemma NameIsYielded(flow: ValueFlow, s: Symbol, values: Values, store: Store, v: int)
    requires Independent(flow.env, Locals(flow.env, flow.tracked))
    requires Consistent(flow, values) && Agrees(values, store) && ConstantsHold(flow.env, store)
    requires Evaluation(flow.env, Name(s), values).Some? && Yields(Name(s), store, v)
    ensures Evaluation(flow.env, Name(s), values) == Some(v)
  {
    hide Eval, Independent;
    KnownName(flow.env, s, values);
    if s !in values {
      ConstantsAreFixed(flow, values, s);
    }
  }

  lemma EventIsSound(flow: ValueFlow, e: ValueEvent, values: Values, before: Store, after: Store)
    requires Independent(flow.env, Locals(flow.env, flow.tracked)) && EventSettled(flow, e)
    requires Consistent(flow, values) && Agrees(values, before) && ConstantsHold(flow.env, before)
    requires Executes(flow, e, before, after)
    ensures Agrees(ApplyEvent(flow.env, e, values), after) && ConstantsHold(flow.env, after)
  {
    hide Eval, Yields, Independent;
    if e.Assign? && e.expr.Some? && Evaluation(flow.env, e.expr.value, values).Some? {
      if e.symbol in Unfoldable(flow.env) {
        InitialiserIsFixed(flow, values, e.symbol);
      } else {
        KnownName(flow.env, e.symbol, map[]);
        EvaluationIsYielded(flow, e.expr.value, values, before, after[e.symbol]);
      }
    }
    if e.Assign? && e.symbol !in Unfoldable(flow.env) {
      KnownName(flow.env, e.symbol, map[]);
    }
  }

  lemma {:induction false} EventsAreSound(flow: ValueFlow, events: seq<ValueEvent>, values: Values, before: Store,
      after: Store)
    requires Independent(flow.env, Locals(flow.env, flow.tracked)) && CellEnv(flow.env) && EventsSettled(flow, events)
    requires Consistent(flow, values) && Agrees(values, before) && ConstantsHold(flow.env, before)
    requires Runs(flow, events, before, after)
    ensures Consistent(flow, ApplyEvents(flow.env, events, values))
    ensures Agrees(ApplyEvents(flow.env, events, values), after) && ConstantsHold(flow.env, after)
    decreases |events|
  {
    hide ApplyEvent, Consistent, Independent, EventSettled, Executes, Agrees, ConstantsHold;
    if events != [] {
      var front, last := events[..|events| - 1], events[|events| - 1];
      var middle :| Runs(flow, front, before, middle) && Executes(flow, last, middle, after);
      EventsAreSound(flow, front, values, before, middle);
      EventIsSound(flow, last, ApplyEvents(flow.env, front, values), middle, after);
      WeakerSelf(ApplyEvents(flow.env, front, values));
      ApplyEventRegular(flow, last, ApplyEvents(flow.env, front, values), ApplyEvents(flow.env, front, values));
    }
  }

  lemma WeakerSelf(a: Values)
    ensures Weaker(a, a)
  {
  }
}
