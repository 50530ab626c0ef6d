/** Evaluating #if conditions with incomplete knowledge, and labelling the branches of a region. */
module Conditionals {
  import opened Wrappers
  import opened ConstEval
  import opened Defines

  datatype Sign = Not | Plus | Minus | OtherSign

  /** A condition; `Unknown` stands for every node the evaluator gives up on. */
  datatype Condition =
    | Number(unsigned: Option<nat>)
    | Constant(compiled: Option<int>)
    | Parens(inner: Condition)
    | IsDefined(name: Option<nat>)
    | Sign(sign: Sign, operand: Condition)
    | Operation(op: BinaryOp, left: Condition, right: Condition)
    | Unknown

  const LONG: int := 0x1_0000_0000_0000_0000
  const LONG_MIN: int := -0x8000_0000_0000_0000

  /** Truncation to a signed 64-bit value. */
  function Wrap(v: int): int {
    (v - LONG_MIN) % LONG + LONG_MIN
  }

  /** Conditions are computed with 64 bits; shift counts are taken as unsigned. */
  function OperationValue(op: BinaryOp, left: int, right: int): Option<int> {
    match op
    case Add => Some(Wrap(left + right))
    case Sub => Some(Wrap(left - right))
    case Mul => Some(Wrap(left * right))
    case Div => if right == 0 then None else Some(Wrap(TruncDiv(left, right)))
    case Mod => if right == 0 then None else Some(TruncMod(left, right))
    case Shl => Some(if right < 0 || right >= 64 then 0 else Wrap(left * Pow2(right)))
    case Shr => Some(if right < 0 || right >= 64 then (if left < 0 then -1 else 0) else left / Pow2(right))
    case Ushr => Some(if right < 0 || right >= 64 then (if left < 0 then -1 else 0) else left / Pow2(right))
    case BitAnd => Some(Bitwise(op, left, right))
    case BitOr => Some(Bitwise(op, left, right))
    case BitXor => Some(Bitwise(op, left, right))
    case AndAnd => Some(Truth(left != 0 && right != 0))
    case OrOr => Some(Truth(left != 0 || right != 0))
    case Eq => Some(Truth(left == right))
    case NotEq => Some(Truth(left != right))
    case Lt => Some(Truth(left < right))
    case Gt => Some(Truth(left > right))
    case LtEq => Some(Truth(left <= right))
    case GtEq => Some(Truth(left >= right))
    case OtherBinary => None
  }

  function SignValue(sign: Sign, v: int): Option<int> {
    match sign
    case Not => Some(Truth(v == 0))
    case Plus => Some(v)
    case Minus => Some(Wrap(-v))
    case OtherSign => None
  }

  // ----- What the operators compute -----

  predicate InLong(v: int) {
    LONG_MIN <= v < LONG_MIN + LONG
  }

  lemma Pow2Of63()
    ensures Pow2(63) == -LONG_MIN && Pow2(64) == LONG
  {
    Pow2Of31();
    assert Pow2(40) == 0x100_0000_0000;
    assert Pow2(48) == 0x1_0000_0000_0000;
    assert Pow2(56) == 0x100_0000_0000_0000;
  }

  /** Wrapping gives the one 64-bit value that differs by a multiple of the range. */
  lemma WrapMeans(v: int)
    ensures InLong(Wrap(v)) && (Wrap(v) - v) % LONG == 0
    ensures InLong(v) ==> Wrap(v) == v
  {
    var w := v - LONG_MIN;
    var k := w / LONG;
    assert w == k * LONG + w % LONG;
    assert Wrap(v) - v == -k * LONG;
  }

  /** Every comparison and logical operator is 1 exactly when its relation holds, and 0 otherwise. */
  lemma RelationsDecide64(a: int, b: int)
    ensures OperationValue(Eq, a, b) == Some(if a == b then 1 else 0)
    ensures OperationValue(NotEq, a, b) == Some(if a == b then 0 else 1)
    ensures OperationValue(Lt, a, b) == Some(if a < b then 1 else 0)
    ensures OperationValue(LtEq, a, b) == Some(if b < a then 0 else 1)
    ensures OperationValue(Gt, a, b) == Some(if b < a then 1 else 0)
    ensures OperationValue(GtEq, a, b) == Some(if a < b then 0 else 1)
    ensures OperationValue(AndAnd, a, b) == Some(if a == 0 || b == 0 then 0 else 1)
    ensures OperationValue(OrOr, a, b) == Some(if a == 0 && b == 0 then 0 else 1)
  {
  }

  /** `!` is 1 exactly for 0, plus keeps its operand, and minus is the two's complement. */
  lemma SignsMean(v: int)
    ensures SignValue(Not, v) == Some(if v == 0 then 1 else 0) && SignValue(Plus, v) == Some(v)
    ensures SignValue(Minus, v).Some? && InLong(SignValue(Minus, v).value)
    ensures (SignValue(Minus, v).value + v) % LONG == 0 && SignValue(OtherSign, v) == None
  {
    WrapMeans(-v);
  }

  /** Sum, difference and product are those of 64-bit two's complement words. */
  lemma ArithmeticWraps64(a: int, b: int)
    ensures OperationValue(Add, a, b).Some? && InLong(OperationValue(Add, a, b).value)
    ensures (OperationValue(Add, a, b).value - (a + b)) % LONG == 0
    ensures OperationValue(Sub, a, b).Some? && InLong(OperationValue(Sub, a, b).value)
    ensures (OperationValue(Sub, a, b).value - (a - b)) % LONG == 0
    ensures OperationValue(Mul, a, b).Some? && InLong(OperationValue(Mul, a, b).value)
    ensures (OperationValue(Mul, a, b).value - a * b) % LONG == 0
  {
    hide Wrap, TruncDiv, TruncMod, Bitwise, Pow2;
    WrapMeans(a + b);
    WrapMeans(a - b);
    WrapMeans(a * b);
  }

  /** Division rounds toward zero; the least value divided by minus one wraps to itself. */
  lemma DivisionTruncates64(a: int, b: int)
    requires InLong(a) && InLong(b) && b != 0
    ensures OperationValue(Div, a, b) == Some(if a == LONG_MIN && b == -1 then LONG_MIN else TruncDiv(a, b))
    ensures OperationValue(Mod, a, b) == Some(TruncMod(a, b))
    ensures a == TruncDiv(a, b) * b + TruncMod(a, b) && Abs(TruncMod(a, b)) < Abs(b)
    ensures TruncMod(a, b) == 0 || (TruncMod(a, b) < 0) == (a < 0)
  {
    TruncDivMeaning(a, b);
    QuotientInLong(a, b);
    if a == LONG_MIN && b == -1 {
      assert Wrap(-LONG_MIN) == LONG_MIN;
    } else {
      WrapMeans(TruncDiv(a, b));
    }
  }

  lemma QuotientInLong(a: int, b: int)
    requires InLong(a) && InLong(b) && b != 0
    ensures a == LONG_MIN && b == -1 ==> TruncDiv(a, b) == -LONG_MIN
    ensures !(a == LONG_MIN && b == -1) ==> InLong(TruncDiv(a, b))
  {
    if Abs(b) > 1 {
      QuotientHalves(Abs(a), Abs(b));
    }
  }

  /** And, or and xor combine the operands bit by bit and stay within 64 bits. */
  lemma BitwiseIsBitByBit64(a: int, b: int, i: nat)
    requires InLong(a) && InLong(b)
    ensures OperationValue(BitAnd, a, b).Some? && InLong(OperationValue(BitAnd, a, b).value)
    ensures Bit(OperationValue(BitAnd, a, b).value, i) == (Bit(a, i) && Bit(b, i))
    ensures OperationValue(BitOr, a, b).Some? && InLong(OperationValue(BitOr, a, b).value)
    ensures Bit(OperationValue(BitOr, a, b).value, i) == (Bit(a, i) || Bit(b, i))
    ensures OperationValue(BitXor, a, b).Some? && InLong(OperationValue(BitXor, a, b).value)
    ensures Bit(OperationValue(BitXor, a, b).value, i) == (Bit(a, i) != Bit(b, i))
  {
    hide Bitwise, Bit, TruncDiv, TruncMod, Pow2;
    Pow2Of63();
    BitwiseRange(BitAnd, a, b, 63);
    BitwiseRange(BitOr, a, b, 63);
    BitwiseRange(BitXor, a, b, 63);
    BitwiseBit(BitAnd, a, b, i);
    BitwiseBit(BitOr, a, b, i);
    BitwiseBit(BitXor, a, b, i);
  }

  /**
   Shifts take their count as unsigned: a negative one is as large as can be. To the left bits are lost, to
   the right the sign stays.
   */
  lemma ShiftsMoveBits64(a: int, b: int)
    requires InLong(a)
    ensures var shl := OperationValue(Shl, a, b);
      shl.Some? && InLong(shl.value)
      && if 0 <= b < 64 then (shl.value - a * Pow2(b)) % LONG == 0 else shl.value == 0
    ensures var shr := OperationValue(Shr, a, b);
      shr.Some? && OperationValue(Ushr, a, b) == shr
      && if 0 <= b < 64 then shr.value * Pow2(b) <= a < (shr.value + 1) * Pow2(b)
         else shr.value == if a < 0 then -1 else 0
  {
    if 0 <= b < 64 {
      var p := Pow2(b);
      QuotientWithin(a, p, LONG_MIN, LONG_MIN + LONG - 1);
      WrapMeans(a * p);
    }
    hide Pow2, Wrap, TruncDiv, TruncMod, Bitwise;
  }

  /** Only division by zero and unknown operators have no value. */
  lemma NoValueIff(op: BinaryOp, a: int, b: int)
    ensures OperationValue(op, a, b) == None <==> op == OtherBinary || (op in {Div, Mod} && b == 0)
  {
  }

  /** The value of a condition under a set of known names, which may or may not be all there are. */
  ghost function Value(known: iset<nat>, complete: bool, e: Condition): Option<int> {
    match e
    case Number(unsigned) => if unsigned.Some? then Some(Cell(unsigned.value)) else None
    case Constant(compiled) => compiled
    case Parens(inner) => Value(known, complete, inner)
    case IsDefined(name) =>
      if name == None then None
      else if name.value in known then Some(1)
      else if complete then Some(0)
      else None
    case Sign(sign, operand) =>
      var v := Value(known, complete, operand);
      if v == None then None else SignValue(sign, v.value)
    case Operation(op, left, right) =>
      var l, r := Value(known, complete, left), Value(known, complete, right);
      if l == None || r == None then None else OperationValue(op, l.value, r.value)
    case Unknown => None
  }

  /** What is known of a condition stays true however many more names turn out to be defined. */
  lemma {:induction false} KnownValueIsTrue(known: iset<nat>, all: iset<nat>, complete: bool, e: Condition)
    requires known <= all
    requires Value(known, false, e).Some?
    ensures Value(all, complete, e) == Value(known, false, e)
  {
    match e
    case Parens(inner) => KnownValueIsTrue(known, all, complete, inner);
    case Sign(_, operand) => KnownValueIsTrue(known, all, complete, operand);
    case Operation(_, left, right) =>
      KnownValueIsTrue(known, all, complete, left);
      KnownValueIsTrue(known, all, complete, right);
    case _ =>
  }

  /**
   The equations that the value of a condition satisfies: a name that is known counts 1, one that is not
   counts 0 only if all are known, and operators need the values of all their operands.
   */
  lemma ValueEquations(known: iset<nat>, complete: bool, e: Condition)
    ensures match e
      case Number(unsigned) =>
        if unsigned.Some? && unsigned.value < 0x1_0000_0000 then
          Value(known, complete, e)
            == Some(if unsigned.value < 0x8000_0000 then unsigned.value else unsigned.value - 0x1_0000_0000)
        else Value(known, complete, e).Some? == unsigned.Some?
      case Constant(compiled) => Value(known, complete, e) == compiled
      case Parens(inner) => Value(known, complete, e) == Value(known, complete, inner)
      case IsDefined(name) =>
        Value(known, complete, e) ==
          if name.Some? && name.value in known then Some(1) else if name.Some? && complete then Some(0) else None
      case Sign(sign, operand) =>
        var v := Value(known, complete, operand);
        Value(known, complete, e) == if v.Some? then SignValue(sign, v.value) else None
      case Operation(op, left, right) =>
        var l, r := Value(known, complete, left), Value(known, complete, right);
        Value(known, complete, e) == if l.Some? && r.Some? then OperationValue(op, l.value, r.value) else None
      case Unknown => Value(known, complete, e) == None
  {
    hide OperationValue, SignValue;
  }

  ghost function NamesAt(m: Source, offset: int): iset<nat> {
    iset name: nat | KnownAt(m, offset, name)
  }

  /** Evaluation moves the cursor and nothing else. */
  method DirectiveValue(cursor: DefineCursor, complete: bool, e: Condition, offset: int) returns (value: Option<int>)
    requires cursor.Valid()
    modifies cursor`offset, cursor`directiveIndex, cursor`snapshotIndex, cursor.values
    ensures cursor.offset == old(cursor.offset) || cursor.offset == offset
    ensures cursor.Valid() && value == Value(NamesAt(cursor.model, offset), complete, e)
    decreases e
  {
    hide DefineCursor.Valid, KnownAt;
    match e
    case Number(unsigned) => value := if unsigned.Some? then Some(Cell(unsigned.value)) else None;
    case Constant(compiled) => value := compiled;
    case Parens(inner) => value := DirectiveValue(cursor, complete, inner, offset);
    case IsDefined(name) =>
      if name == None {
        return None;
      }
      var found := cursor.ContainsAt(offset, name.value);
      value := if found then Some(1) else if complete then Some(0) else None;
    case Sign(sign, operand) =>
      value := DirectiveValue(cursor, complete, operand, offset);
      if value.Some? {
        value := SignValue(sign, value.value);
      }
    case Operation(op, left, right) =>
      var l := DirectiveValue(cursor, complete, left, offset);
      var r := DirectiveValue(cursor, complete, right, offset);
      value := if l == None || r == None then None else OperationValue(op, l.value, r.value);
    case Unknown => value := None;
  }

  // ----- Regions -----

  datatype Opening = Missing | Endif | Else | Test(condition: Condition)

  datatype Branch = Branch(start: nat, opening: Opening)

  datatype Label = Active | Inactive | Uncertain

  predicate Chooses(branch: Branch) {
    branch.opening.Else? || branch.opening.Test?
  }

  ghost function Values(m: Source, complete: bool, region: seq<Branch>): (values: seq<Option<int>>)
    ensures |values| == |region|
  {
    seq(|region|, i requires 0 <= i < |region| =>
      if region[i].opening.Test? then Value(NamesAt(m, region[i].start), complete, region[i].opening.condition)
        else None)
  }

  /** An outcome of every test that agrees with the tests whose value is known. */
  ghost predicate Agrees(region: seq<Branch>, values: seq<Option<int>>, truth: seq<bool>)
    requires |values| == |region|
  {
    |truth| == |region|
    && forall i :: 0 <= i < |region| && region[i].opening.Test? && values[i].Some? ==>
      truth[i] == (values[i].value != 0)
  }

  predicate Passes(region: seq<Branch>, truth: seq<bool>, i: nat)
    requires |truth| == |region| && i < |region|
  {
    region[i].opening.Else? || (region[i].opening.Test? && truth[i])
  }

  /** The branch that is compiled: the first to pass. */
  ghost predicate Taken(region: seq<Branch>, truth: seq<bool>, i: nat)
    requires |truth| == |region| && i < |region|
  {
    Passes(region, truth, i) && forall j :: 0 <= j < i ==> !Passes(region, truth, j)
  }

  ghost predicate NeverTaken(region: seq<Branch>, values: seq<Option<int>>, i: nat)
    requires |values| == |region| && i < |region|
  {
    forall truth :: Agrees(region, values, truth) ==> !Taken(region, truth, i)
  }

  ghost predicate AlwaysTaken(region: seq<Branch>, values: seq<Option<int>>, i: nat)
    requires |values| == |region| && i < |region|
  {
    forall truth :: Agrees(region, values, truth) ==> Taken(region, truth, i)
  }

  /** Nothing more can be said of the branches than the labels say. */
  ghost predicate Exact(region: seq<Branch>, values: seq<Option<int>>, labels: seq<Label>)
    requires |values| == |region| == |labels|
  {
    forall i :: 0 <= i < |region| ==>
      if Chooses(region[i]) then
        (labels[i] == Inactive <==> NeverTaken(region, values, i))
            && (labels[i] == Active <==> AlwaysTaken(region, values, i))
      else labels[i] == Uncertain
  }

  ghost predicate Stops(region: seq<Branch>, values: seq<Option<int>>, j: nat)
    requires |values| == |region| && j < |region|
  {
    region[j].opening.Else? || (region[j].opening.Test? && values[j].Some? && values[j].value != 0)
  }

  ghost predicate Open(region: seq<Branch>, values: seq<Option<int>>, j: nat)
    requires |values| == |region| && j < |region|
  {
    region[j].opening.Test? && values[j] == None
  }

  /** Whether a branch behind the first i ones is reached. */
  ghost predicate ReachedIs(region: seq<Branch>, values: seq<Option<int>>, i: nat, reached: Label)
    requires |values| == |region| && i <= |region|
  {
    var stopped := exists j :: 0 <= j < i && Stops(region, values, j);
    && (reached == Inactive <==> stopped)
    && (reached == Uncertain <==> !stopped && exists j :: 0 <= j < i && Open(region, values, j))
  }

  /** The outcome in which of the open tests only the given one succeeds. */
  ghost function OnlyTrue(region: seq<Branch>, values: seq<Option<int>>, k: int): (truth: seq<bool>)
    requires |values| == |region|
    ensures Agrees(region, values, truth)
  {
    seq(|region|, i requires 0 <= i < |region| => if values[i].Some? then values[i].value != 0 else i == k)
  }

  /** The label that the loop gives to a branch, from what was reached and the value of its test. */
  function LabelOf(branch: Branch, value: Option<int>, reached: Label): Label {
    if !Chooses(branch) then Uncertain
    else if reached == Inactive then Inactive
    else if branch.opening.Else? then reached
    else if value == None then Uncertain
    else if value.value == 0 then Inactive
    else reached
  }

  lemma LabelIsExact(region: seq<Branch>, values: seq<Option<int>>, i: nat, reached: Label)
    requires |values| == |region| && i < |region| && Chooses(region[i]) && ReachedIs(region, values, i, reached)
    ensures var mark := LabelOf(region[i], values[i], reached);
      && (mark == Inactive <==> NeverTaken(region, values, i))
      && (mark == Active <==> AlwaysTaken(region, values, i))
  {
    var none := OnlyTrue(region, values, -1);
    var own := OnlyTrue(region, values, i);
    assert Agrees(region, values, none) && Agrees(region, values, own);
    if reached == Inactive {
      var j :| 0 <= j < i && Stops(region, values, j);
      forall truth | Agrees(region, values, truth) ensures !Taken(region, truth, i) {
        assert Passes(region, truth, j);
      }
    } else {
      forall j | 0 <= j < i ensures !Passes(region, none, j) && !Passes(region, own, j) {
        assert !Stops(region, values, j);
      }
      if reached == Uncertain {
        var j :| 0 <= j < i && Open(region, values, j);
        var other := OnlyTrue(region, values, j);
        assert Passes(region, other, j) && !Taken(region, other, i);
      } else {
        forall truth, j | Agrees(region, values, truth) && 0 <= j < i ensures !Passes(region, truth, j) {
          assert !Stops(region, values, j) && !Open(region, values, j);
        }
      }
      if Open(region, values, i) {
        assert Taken(region, own, i) && !Taken(region, none, i);
      } else if Stops(region, values, i) {
        assert Taken(region, none, i);
      }
    }
  }

  lemma ReachedNext(region: seq<Branch>, values: seq<Option<int>>, i: nat, reached: Label, next: Label)
    requires |values| == |region| && i < |region| && ReachedIs(region, values, i, reached)
    requires next == if reached == Inactive || Stops(region, values, i) then Inactive
                     else if Open(region, values, i) then Uncertain else reached
    ensures ReachedIs(region, values, i + 1, next)
  {
  }

  /** How far a branch behind this one is still reached. */
  function NextReached(branch: Branch, value: Option<int>, reached: Label): Label {
    if reached == Inactive || branch.opening.Else? then Inactive
    else if !branch.opening.Test? then reached
    else if value == None then Uncertain
    else if value.value == 0 then reached
    else Inactive
  }

  ghost function ReachedAfter(region: seq<Branch>, values: seq<Option<int>>, n: nat): Label
    requires |values| == |region| && n <= |region|
  {
    if n == 0 then Active else NextReached(region[n - 1], values[n - 1], ReachedAfter(region, values, n - 1))
  }

  /** The labels of a region for given values of its tests. */
  ghost function LabelsFor(region: seq<Branch>, values: seq<Option<int>>): (labels: seq<Label>)
    requires |values| == |region|
    ensures |labels| == |region|
  {
    seq(|region|, i requires 0 <= i < |region| => LabelOf(region[i], values[i], ReachedAfter(region, values, i)))
  }

  lemma {:induction false} ReachedAfterIs(region: seq<Branch>, values: seq<Option<int>>, n: nat)
    requires |values| == |region| && n <= |region|
    ensures ReachedIs(region, values, n, ReachedAfter(region, values, n))
    decreases n
  {
    hide ReachedIs;
    if n == 0 {
      ReachedFirst(region, values);
    } else {
      ReachedAfterIs(region, values, n - 1);
      ReachedNext(region, values, n - 1, ReachedAfter(region, values, n - 1), ReachedAfter(region, values, n));
    }
  }

  /** Nothing more can be said of the branches of a region than its labels say. */
  lemma LabelsAreExact(region: seq<Branch>, values: seq<Option<int>>)
    requires |values| == |region|
    ensures Exact(region, values, LabelsFor(region, values))
  {
    hide ReachedIs, NeverTaken, AlwaysTaken, ReachedAfter, LabelOf;
    forall i | 0 <= i < |region| && Chooses(region[i])
      ensures LabelsFor(region, values)[i] == Inactive <==> NeverTaken(region, values, i)
      ensures LabelsFor(region, values)[i] == Active <==> AlwaysTaken(region, values, i)
    {
      ReachedAfterIs(region, values, i);
      LabelIsExact(region, values, i, ReachedAfter(region, values, i));
    }
    forall i | 0 <= i < |region| && !Chooses(region[i]) ensures LabelsFor(region, values)[i] == Uncertain {
      NotChosen(region[i], values[i], ReachedAfter(region, values, i));
    }
  }

  lemma NotChosen(branch: Branch, value: Option<int>, reached: Label)
    ensures !Chooses(branch) ==> LabelOf(branch, value, reached) == Uncertain
  {
  }

  /** The test of a branch is looked at unless an earlier branch is sure to be taken. */
  ghost predicate Evaluated(region: seq<Branch>, values: seq<Option<int>>, i: nat)
    requires |values| == |region| && i < |region|
  {
    region[i].opening.Test? && ReachedAfter(region, values, i) != Inactive
  }

  /** Only the values that are looked at matter. */
  lemma {:induction false} SameReached(region: seq<Branch>, values: seq<Option<int>>, values': seq<Option<int>>, n: nat)
    requires |values| == |values'| == |region| && n <= |region|
    requires forall i :: 0 <= i < n && Evaluated(region, values, i) ==> values[i] == values'[i]
    ensures forall i :: 0 <= i <= n ==> ReachedAfter(region, values, i) == ReachedAfter(region, values', i)
    ensures LabelsFor(region, values)[..n] == LabelsFor(region, values')[..n]
    decreases n
  {
    if n > 0 {
      SameReached(region, values, values', n - 1);
      var a, b := LabelsFor(region, values), LabelsFor(region, values');
      assert a[..n] == a[..n - 1] + [a[n - 1]] && b[..n] == b[..n - 1] + [b[n - 1]];
    }
  }

  lemma ReachedFirst(region: seq<Branch>, values: seq<Option<int>>)
    requires |values| == |region|
    ensures ReachedIs(region, values, 0, Active)
  {
  }

  /** At most one branch is active: it is the one every outcome takes. */
  lemma OneActive(region: seq<Branch>, values: seq<Option<int>>, labels: seq<Label>, i: nat, j: nat)
    requires |values| == |region| == |labels| && Exact(region, values, labels)
    requires i < |region| && j < |region| && labels[i] == Active && labels[j] == Active
    ensures i == j
  {
    var truth := OnlyTrue(region, values, -1);
    assert Agrees(region, values, truth);
    assert Taken(region, truth, i) && Taken(region, truth, j);
  }

  /** How the tests come out when `defined[i]` are all the names defined at branch i. */
  ghost predicate ComesOut(region: seq<Branch>, defined: seq<iset<nat>>, truth: seq<bool>) {
    |truth| == |region| == |defined|
    && forall i :: 0 <= i < |region| && region[i].opening.Test? ==>
         var v := Value(defined[i], true, region[i].opening.condition);
         v.Some? ==> truth[i] == (v.value != 0)
  }

  /**
   Labels computed from some of the names hold for all of them: what is compiled is not inactive, and active
   is compiled.
   */
  lemma LabelsHold(m: Source, region: seq<Branch>, labels: seq<Label>, defined: seq<iset<nat>>, truth: seq<bool>,
      i: nat)
    requires |labels| == |region| && Exact(region, Values(m, false, region), labels)
    requires ComesOut(region, defined, truth) && i < |region| && Chooses(region[i])
    requires forall k :: 0 <= k < |region| ==> NamesAt(m, region[k].start) <= defined[k]
    ensures Taken(region, truth, i) ==> labels[i] != Inactive
    ensures labels[i] == Active ==> Taken(region, truth, i)
  {
    var values := Values(m, false, region);
    forall k | 0 <= k < |region| && region[k].opening.Test? && values[k].Some?
      ensures truth[k] == (values[k].value != 0)
    {
      KnownValueIsTrue(NamesAt(m, region[k].start), defined[k], true, region[k].opening.condition);
    }
    assert Agrees(region, values, truth);
  }
}
