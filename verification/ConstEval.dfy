/** Constant evaluation of expressions over 32-bit cells, with initialisers that may refer to each other. */
module ConstEval {
  import opened Wrappers

  type Symbol = nat

  datatype UnaryOp = Positive | Negate | LogicalNot | Complement | OtherUnary

  datatype BinaryOp =
    | Add | Sub | Mul | Div | Mod | Shl | Shr | Ushr | BitAnd | BitOr | BitXor
    | AndAnd | OrOr | Eq | NotEq | Lt | Gt | LtEq | GtEq | OtherBinary

  /** `Opaque` stands for every node the evaluator gives up on: calls, assignments, parse errors. */
  datatype Expr =
    | Literal(unsigned: Option<nat>)
    | Paren(inner: Expr)
    | Unary(uop: UnaryOp, operand: Expr)
    | Binary(bop: BinaryOp, left: Expr, right: Expr)
    | Ternary(condition: Expr, consequence: Expr, alternative: Expr)
    | Identifier(builtin: Option<int>, symbol: Option<Symbol>)
    | Opaque

  /** What name resolution knows about symbols declared constant. */
  datatype Env = Env(constants: set<Symbol>, constantValues: map<Symbol, int>, initialisers: map<Symbol, Expr>)

  type Values = map<Symbol, int>

  // ----- Cells -----

  const WORD: int := 0x1_0000_0000
  const CELL_MIN: int := -0x8000_0000
  const CELL_MAX: int := 0x7FFF_FFFF

  predicate InCell(v: int) {
    CELL_MIN <= v <= CELL_MAX
  }

  function Word(v: int): (w: int)
    ensures 0 <= w < WORD
  {
    v % WORD
  }

  /** Truncation to a signed 32-bit value. */
  function Cell(v: int): (c: int)
    ensures InCell(c) && Word(c) == Word(v)
    ensures InCell(v) ==> c == v
  {
    (v - CELL_MIN) % WORD + CELL_MIN
  }

  function Truth(b: bool): int {
    if b then 1 else 0
  }

  function Pow2(k: nat): (p: int)
    ensures p >= 1
  {
    if k == 0 then 1 else 2 * Pow2(k - 1)
  }

  function Abs(v: int): nat {
    if v < 0 then -v else v
  }

  /** Division that rounds toward zero, and its remainder. */
  function TruncDiv(a: int, b: int): int
    requires b != 0
  {
    if (a < 0) == (b < 0) then Abs(a) / Abs(b) else -(Abs(a) / Abs(b))
  }

  function TruncMod(a: int, b: int): int
    requires b != 0
  {
    a - TruncDiv(a, b) * b
  }

  predicate Table(op: BinaryOp, x: bool, y: bool) {
    match op
    case BitAnd => x && y
    case BitOr => x || y
    case _ => x != y
  }

  /** Bitwise combination of two's complement integers of unlimited width. */
  function Bitwise(op: BinaryOp, a: int, b: int): int
    decreases Abs(a) + Abs(b)
  {
    if -1 <= a <= 0 && -1 <= b <= 0 then
      if Table(op, a == -1, b == -1) then -1 else 0
    else
      2 * Bitwise(op, a / 2, b / 2) + Truth(Table(op, a % 2 == 1, b % 2 == 1))
  }

  function EvalUnary(op: UnaryOp, v: int): Option<int> {
    match op
    case Positive => Some(v)
    case Negate => Some(Cell(-v))
    case LogicalNot => Some(Truth(v == 0))
    case Complement => Some(Cell(-v - 1))
    case OtherUnary => None
  }

  function EvalBinary(op: BinaryOp, a: int, b: int): Option<int> {
    match op
    case Add => Some(Cell(a + b))
    case Sub => Some(Cell(a - b))
    case Mul => Some(Cell(a * b))
    case Div => if b == 0 then None else Some(Cell(TruncDiv(a, b)))
    case Mod => if b == 0 then None else Some(Cell(TruncMod(a, b)))
    case Shl => if b < 0 || b >= 32 then None else Some(Cell(Word(a) * Pow2(b) % WORD))
    case Shr => if b < 0 || b >= 32 then None else Some(Cell(a) / Pow2(b))
    case Ushr => if b < 0 || b >= 32 then None else Some(Cell(Word(a) / Pow2(b)))
    case BitAnd => Some(Cell(Bitwise(op, a, b)))
    case BitOr => Some(Cell(Bitwise(op, a, b)))
    case BitXor => Some(Cell(Bitwise(op, a, b)))
    case AndAnd => Some(Truth(a != 0 && b != 0))
    case OrOr => Some(Truth(a != 0 || b != 0))
    case Eq => Some(Truth(a == b))
    case NotEq => Some(Truth(a != b))
    case Lt => Some(Truth(a < b))
    case Gt => Some(Truth(a > b))
    case LtEq => Some(Truth(a <= b))
    case GtEq => Some(Truth(a >= b))
    case OtherBinary => None
  }

  // ----- Bits of a result -----

  function Bit(v: int, i: nat): bool
    decreases i
  {
    if i == 0 then v % 2 == 1 else Bit(v / 2, i - 1)
  }

  lemma {:induction false} SmallBits(v: int, i: nat)
    requires -1 <= v <= 0
    ensures Bit(v, i) == (v == -1)
  {
    if i > 0 { SmallBits(v / 2, i - 1); }
  }

  lemma LowestBit(q: int, low: bool)
    ensures (2 * q + Truth(low)) / 2 == q && ((2 * q + Truth(low)) % 2 == 1) == low
  {
  }

  lemma {:induction false} BitwiseBit(op: BinaryOp, a: int, b: int, i: nat)
    ensures Bit(Bitwise(op, a, b), i) == Table(op, Bit(a, i), Bit(b, i))
    decreases i
  {
    hide Table;
    if -1 <= a <= 0 && -1 <= b <= 0 {
      SmallBits(a, i);
      SmallBits(b, i);
      SmallBits(Bitwise(op, a, b), i);
    } else {
      LowestBit(Bitwise(op, a / 2, b / 2), Table(op, a % 2 == 1, b % 2 == 1));
      if i > 0 {
        BitwiseBit(op, a / 2, b / 2, i - 1);
      }
    }
  }

  lemma {:induction false} BitwiseRange(op: BinaryOp, a: int, b: int, k: nat)
    requires -Pow2(k) <= a < Pow2(k) && -Pow2(k) <= b < Pow2(k)
    ensures -Pow2(k) <= Bitwise(op, a, b) < Pow2(k)
    decreases k
  {
    if !(-1 <= a <= 0 && -1 <= b <= 0) {
      assert k > 0;
      BitwiseRange(op, a / 2, b / 2, k - 1);
    }
  }

  lemma Pow2Of31()
    ensures Pow2(31) == 0x8000_0000 && Pow2(32) == WORD
  {
    assert Pow2(8) == 256;
    assert Pow2(16) == 65536;
    assert Pow2(24) == 0x100_0000;
  }

  lemma MulByPositive(q: int, p: int)
    requires p >= 1
    ensures q >= 0 ==> q * p >= q
    ensures q <= 0 ==> q * p <= q
  {
  }

  /** Dividing by a positive number, rounding down, never leaves an interval around zero. */
  lemma QuotientWithin(x: int, p: int, lo: int, hi: int)
    requires p >= 1 && lo <= x <= hi && lo <= 0 <= hi
    ensures lo <= x / p <= hi
    ensures x / p * p <= x < (x / p + 1) * p
  {
    var q := x / p;
    assert x == q * p + x % p;
    assert (q + 1) * p == q * p + p;
    MulByPositive(q, p);
    MulByPositive(q + 1, p);
  }

  lemma {:induction false} WordOfProduct(a: int, b: int)
    ensures Word(a * b) == Word(Word(a) * Word(b))
  {
    var m, n := a / WORD, b / WORD;
    assert a == m * WORD + Word(a) && b == n * WORD + Word(b);
    calc {
      a * b;
      (m * WORD + Word(a)) * (n * WORD + Word(b));
      (m * n * WORD + m * Word(b) + n * Word(a)) * WORD + Word(a) * Word(b);
    }
    WordOfSum(m * n * WORD + m * Word(b) + n * Word(a), Word(a) * Word(b));
  }

  lemma WordOfSum(k: int, v: int)
    ensures Word(k * WORD + v) == Word(v)
  {
    var q := v / WORD;
    assert k * WORD + v == (k + q) * WORD + v % WORD;
  }

  lemma TruncProduct(a: int, b: int)
    requires b != 0
    ensures TruncDiv(a, b) * b == if a < 0 then -(Abs(a) / Abs(b) * Abs(b)) else Abs(a) / Abs(b) * Abs(b)
  {
    var q := Abs(a) / Abs(b);
    assert -q * b == -(q * b) && q * -b == -(q * b);
  }

  lemma TruncDivMeaning(a: int, b: int)
    requires b != 0
    ensures a == TruncDiv(a, b) * b + TruncMod(a, b)
    ensures Abs(TruncMod(a, b)) < Abs(b)
    ensures TruncMod(a, b) == 0 || (TruncMod(a, b) < 0) == (a < 0)
    ensures Abs(TruncDiv(a, b)) == Abs(a) / Abs(b) <= Abs(a)
  {
    QuotientWithin(Abs(a), Abs(b), 0, Abs(a));
    TruncProduct(a, b);
    assert Abs(a) == Abs(a) / Abs(b) * Abs(b) + Abs(a) % Abs(b);
  }

  // The evaluator's arithmetic on in-range operands is that of a 32-bit two's complement machine.

  lemma ArithmeticWraps(a: int, b: int)
    ensures Word(EvalBinary(Add, a, b).value) == (Word(a) + Word(b)) % WORD
    ensures Word(EvalBinary(Sub, a, b).value) == (Word(a) - Word(b)) % WORD
    ensures Word(EvalBinary(Mul, a, b).value) == Word(a) * Word(b) % WORD
  {
    hide TruncDiv, TruncMod, Bitwise, Pow2;
    WordOfProduct(a, b);
    var m, n := a / WORD, b / WORD;
    assert a == m * WORD + Word(a) && b == n * WORD + Word(b);
    WordOfSum(m + n, Word(a) + Word(b));
    WordOfSum(m - n, Word(a) - Word(b));
  }

  lemma DivisionTruncates(a: int, b: int)
    requires InCell(a) && InCell(b) && b != 0
    ensures EvalBinary(Div, a, b) == Some(if a == CELL_MIN && b == -1 then CELL_MIN else TruncDiv(a, b))
    ensures EvalBinary(Mod, a, b) == Some(TruncMod(a, b))
    ensures a == TruncDiv(a, b) * b + TruncMod(a, b) && Abs(TruncMod(a, b)) < Abs(b)
    ensures TruncMod(a, b) == 0 || (TruncMod(a, b) < 0) == (a < 0)
  {
    DivisionInRange(a, b);
    TruncDivMeaning(a, b);
  }

  lemma ShiftsMoveBits(a: int, b: int)
    requires InCell(a) && 0 <= b < 32
    ensures Word(EvalBinary(Shl, a, b).value) == Word(a) * Pow2(b) % WORD
    ensures Word(EvalBinary(Ushr, a, b).value) == Word(a) / Pow2(b)
    ensures var r := EvalBinary(Shr, a, b).value; InCell(r) && r * Pow2(b) <= a < (r + 1) * Pow2(b)
  {
    var p := Pow2(b);
    QuotientWithin(a, p, CELL_MIN, CELL_MAX);
    QuotientWithin(Word(a), p, 0, WORD - 1);
    hide Pow2, Cell, Word, TruncDiv, TruncMod, Bitwise;
    var shl := Word(a) * p % WORD;
    WordOfWord(shl);
    WordOfWord(Word(a) / p);
    assert EvalBinary(Shr, a, b).value == a / p;
    assert EvalBinary(Ushr, a, b).value == Cell(Word(a) / p);
    assert EvalBinary(Shl, a, b).value == Cell(shl);
  }

  lemma WordOfWord(w: int)
    requires 0 <= w < WORD
    ensures Word(Cell(w)) == w
  {
  }

  lemma BinaryInCell(op: BinaryOp, a: int, b: int)
    requires InCell(a) && InCell(b)
    ensures EvalBinary(op, a, b).Some? ==> InCell(EvalBinary(op, a, b).value)
    ensures EvalBinary(op, a, b) == None <==>
      op == OtherBinary || (op in {Div, Mod} && b == 0) || (op in {Shl, Shr, Ushr} && !(0 <= b < 32))
  {
    if 0 <= b < 32 { QuotientWithin(a, Pow2(b), CELL_MIN, CELL_MAX); }
  }

  lemma {:induction false} TwiceAtMost(q: nat, p: nat)
    requires p >= 2
    ensures 2 * q <= q * p
    decreases q
  {
    if q > 0 {
      TwiceAtMost(q - 1, p);
    }
  }

  /** Dividing by more than one at least halves. */
  lemma QuotientHalves(x: nat, p: nat)
    requires p >= 2
    ensures 0 <= 2 * (x / p) <= x
  {
    QuotientWithin(x, p, 0, x);
    TwiceAtMost(x / p, p);
  }

  lemma DivisionInRange(a: int, b: int)
    requires InCell(a) && InCell(b) && b != 0
    ensures a == CELL_MIN && b == -1 ==> TruncDiv(a, b) == CELL_MAX + 1
    ensures !(a == CELL_MIN && b == -1) ==> InCell(TruncDiv(a, b))
  {
    if Abs(b) > 1 {
      QuotientHalves(Abs(a), Abs(b));
    }
  }

  /** The i-th bit is the i-th digit of the two's complement notation. */
  lemma {:induction false} BitIsDigit(v: int, i: nat)
    ensures Bit(v, i) <==> (v / Pow2(i)) % 2 == 1
    decreases i
  {
    if i > 0 {
      BitIsDigit(v / 2, i - 1);
      HalvedQuotient(v, Pow2(i - 1));
    }
  }

  lemma HalvedQuotient(v: int, p: int)
    requires p >= 1
    ensures v / 2 / p == v / (2 * p)
  {
    var h := v / 2;
    var q := h / p;
    assert h == q * p + h % p && v == 2 * h + v % 2;
    var r := 2 * (h % p) + v % 2;
    assert v == q * (2 * p) + r && 0 <= r < 2 * p;
    QuotientIsUnique(v, 2 * p, q, r);
  }

  lemma AtLeastOnce(d: int, p: int)
    requires d >= 1 && p >= 1
    ensures d * p >= p
  {
    MulByPositive(d - 1, p);
    assert d * p == (d - 1) * p + p;
  }

  lemma SmallMultiple(d: int, p: int)
    requires p >= 1 && -p < d * p < p
    ensures d == 0
  {
    assert -d * p == -(d * p);
    if d >= 1 { AtLeastOnce(d, p); }
    if d <= -1 { AtLeastOnce(-d, p); }
  }

  lemma QuotientIsUnique(v: int, p: int, q: int, r: int)
    requires p >= 1 && v == q * p + r && 0 <= r < p
    ensures v / p == q
  {
    var k, m := v / p, v % p;
    assert v == k * p + m;
    assert (q - k) * p == q * p - k * p;
    SmallMultiple(q - k, p);
  }

  lemma BitwiseIsBitByBit(a: int, b: int, i: nat)
    requires InCell(a) && InCell(b)
    ensures EvalBinary(BitAnd, a, b).Some? && EvalBinary(BitOr, a, b).Some? && EvalBinary(BitXor, a, b).Some?
    ensures Bit(EvalBinary(BitAnd, a, b).value, i) == (Bit(a, i) && Bit(b, i))
    ensures Bit(EvalBinary(BitOr, a, b).value, i) == (Bit(a, i) || Bit(b, i))
    ensures Bit(EvalBinary(BitXor, a, b).value, i) == (Bit(a, i) != Bit(b, i))
  {
    Pow2Of31();
    BitwiseInCell(BitAnd, a, b);
    BitwiseInCell(BitOr, a, b);
    BitwiseInCell(BitXor, a, b);
    BitwiseBit(BitAnd, a, b, i);
    BitwiseBit(BitOr, a, b, i);
    BitwiseBit(BitXor, a, b, i);
    hide Bitwise, Bit, TruncDiv, TruncMod;
  }

  lemma BitwiseInCell(op: BinaryOp, a: int, b: int)
    requires InCell(a) && InCell(b)
    ensures InCell(Bitwise(op, a, b))
  {
    Pow2Of31();
    BitwiseRange(op, a, b, 31);
  }

  /** Every comparison and logical operator is 1 exactly when its relation holds, and 0 otherwise. */
  lemma RelationsDecide(a: int, b: int)
    ensures EvalBinary(Eq, a, b) == Some(if a == b then 1 else 0)
    ensures EvalBinary(NotEq, a, b) == Some(if a == b then 0 else 1)
    ensures EvalBinary(Lt, a, b) == Some(if a < b then 1 else 0)
    ensures EvalBinary(LtEq, a, b) == Some(if b < a then 0 else 1)
    ensures EvalBinary(Gt, a, b) == Some(if b < a then 1 else 0)
    ensures EvalBinary(GtEq, a, b) == Some(if a < b then 0 else 1)
    ensures EvalBinary(AndAnd, a, b) == Some(if a == 0 || b == 0 then 0 else 1)
    ensures EvalBinary(OrOr, a, b) == Some(if a == 0 && b == 0 then 0 else 1)
  {
  }

  /** Plus keeps a cell, minus is its two's complement, `!` is 1 exactly for 0, and `~` flips every bit. */
  lemma UnaryMeans(v: int, i: nat)
    requires InCell(v)
    ensures EvalUnary(Positive, v) == Some(v) && EvalUnary(OtherUnary, v) == None
    ensures EvalUnary(Negate, v).Some? && InCell(EvalUnary(Negate, v).value)
    ensures (Word(EvalUnary(Negate, v).value) + Word(v)) % WORD == 0
    ensures EvalUnary(LogicalNot, v) == Some(if v == 0 then 1 else 0)
    ensures EvalUnary(Complement, v).Some? && InCell(EvalUnary(Complement, v).value)
    ensures Bit(EvalUnary(Complement, v).value, i) == !Bit(v, i)
  {
    FlippedBit(v, i);
    assert Cell(-v - 1) == -v - 1;
    assert v > CELL_MIN ==> Cell(-v) == -v;
  }

  lemma {:induction false} FlippedBit(v: int, i: nat)
    ensures Bit(-v - 1, i) == !Bit(v, i)
    decreases i
  {
    assert (-v - 1) / 2 == -(v / 2) - 1;
    if i > 0 {
      FlippedBit(v / 2, i - 1);
    }
  }

  // ----- Evaluation -----

  /** The evaluator as a function: `visiting` holds the constants whose initialisers are being evaluated. */
  function Eval(env: Env, e: Expr, visiting: set<Symbol>, values: Values): Option<int>
    decreases env.initialisers.Keys - visiting, e
  {
    match e
    case Literal(unsigned) => if unsigned.Some? && unsigned.value < WORD then Some(Cell(unsigned.value)) else None
    case Paren(inner) => Eval(env, inner, visiting, values)
    case Unary(op, operand) =>
      var v := Eval(env, operand, visiting, values);
      if v == None then None else EvalUnary(op, v.value)
    case Binary(op, left, right) =>
      var a, b := Eval(env, left, visiting, values), Eval(env, right, visiting, values);
      if a == None || b == None then None else EvalBinary(op, a.value, b.value)
    case Ternary(condition, consequence, alternative) =>
      var c := Eval(env, condition, visiting, values);
      if c == None then None
      else if c.value != 0 then Eval(env, consequence, visiting, values)
      else Eval(env, alternative, visiting, values)
    case Identifier(builtin, symbol) =>
      if symbol == None then builtin
      else if symbol.value in values then Some(values[symbol.value])
      else if symbol.value !in env.constants then None
      else if symbol.value in env.constantValues then Some(env.constantValues[symbol.value])
      else if symbol.value !in env.initialisers || symbol.value in visiting then None
      else Eval(env, env.initialisers[symbol.value], visiting + {symbol.value}, values)
    case Opaque => None
  }

  /** The evaluator as it runs, marking and unmarking constants in one shared set. */
  class Evaluator {
    const env: Env
    const values: Values
    var visiting: set<Symbol>

    constructor (env: Env, values: Values)
      ensures this.env == env && this.values == values && visiting == {}
    {
      this.env, this.values, visiting := env, values, {};
    }

    method Evaluate(e: Expr) returns (r: Option<int>)
      modifies this
      ensures visiting == old(visiting)
      ensures r == Eval(env, e, visiting, values)
      decreases env.initialisers.Keys - visiting, e
    {
      match e {
        case Literal(unsigned) =>
          return if unsigned.Some? && unsigned.value < WORD then Some(Cell(unsigned.value)) else None;
        case Paren(inner) =>
          r := Evaluate(inner);
        case Unary(op, operand) =>
          var v := Evaluate(operand);
          if v == None { return None; }
          return EvalUnary(op, v.value);
        case Binary(op, left, right) =>
          var a := Evaluate(left);
          var b := Evaluate(right);
          if a == None || b == None { return None; }
          return EvalBinary(op, a.value, b.value);
        case Ternary(condition, consequence, alternative) =>
          var c := Evaluate(condition);
          if c == None { return None; }
          if c.value != 0 {
            r := Evaluate(consequence);
          } else {
            r := Evaluate(alternative);
          }
        case Identifier(builtin, symbol) =>
          if symbol == None { return builtin; }
          var s := symbol.value;
          if s in values { return Some(values[s]); }
          if s !in env.constants { return None; }
          if s in env.constantValues { return Some(env.constantValues[s]); }
          if s !in env.initialisers || s in visiting { return None; }
          ghost var before := visiting;
          visiting := visiting + {s};
          r := Evaluate(env.initialisers[s]);
          visiting := visiting - {s};
          assert visiting == before;
        case Opaque =>
          return None;
      }
    }
  }

  // ----- Cyclic initialisers -----

  /** Evaluation by plain unfolding of initialisers, at most `fuel` deep, with no cycle check at all. */
  ghost function Unfold(env: Env, fuel: nat, e: Expr, values: Values): Option<int>
    decreases fuel, e
  {
    match e
    case Literal(unsigned) => if unsigned.Some? && unsigned.value < WORD then Some(Cell(unsigned.value)) else None
    case Paren(inner) => Unfold(env, fuel, inner, values)
    case Unary(op, operand) =>
      var v := Unfold(env, fuel, operand, values);
      if v == None then None else EvalUnary(op, v.value)
    case Binary(op, left, right) =>
      var a, b := Unfold(env, fuel, left, values), Unfold(env, fuel, right, values);
      if a == None || b == None then None else EvalBinary(op, a.value, b.value)
    case Ternary(condition, consequence, alternative) =>
      var c := Unfold(env, fuel, condition, values);
      if c == None then None
      else if c.value != 0 then Unfold(env, fuel, consequence, values)
      else Unfold(env, fuel, alternative, values)
    case Identifier(builtin, symbol) =>
      if symbol == None then builtin
      else if symbol.value in values then Some(values[symbol.value])
      else if symbol.value !in env.constants then None
      else if symbol.value in env.constantValues then Some(env.constantValues[symbol.value])
      else if symbol.value !in env.initialisers || fuel == 0 then None
      else Unfold(env, fuel - 1, env.initialisers[symbol.value], values)
    case Opaque => None
  }

  lemma {:induction false} MoreFuel(env: Env, fuel: nat, fuel': nat, e: Expr, values: Values)
    requires fuel <= fuel' && Unfold(env, fuel, e, values).Some?
    ensures Unfold(env, fuel', e, values) == Unfold(env, fuel, e, values)
    decreases fuel, e
  {
    hide EvalUnary, EvalBinary;
    match e {
      case Paren(inner) => MoreFuel(env, fuel, fuel', inner, values);
      case Unary(op, operand) => MoreFuel(env, fuel, fuel', operand, values);
      case Binary(op, left, right) =>
        MoreFuel(env, fuel, fuel', left, values);
        MoreFuel(env, fuel, fuel', right, values);
      case Ternary(condition, consequence, alternative) =>
        MoreFuel(env, fuel, fuel', condition, values);
        if Unfold(env, fuel, condition, values).value != 0 {
          MoreFuel(env, fuel, fuel', consequence, values);
        } else {
          MoreFuel(env, fuel, fuel', alternative, values);
        }
      case Identifier(builtin, symbol) =>
        if symbol.Some? && fuel > 0 && symbol.value in env.initialisers
           && Unfold(env, fuel - 1, env.initialisers[symbol.value], values).Some? {
          MoreFuel(env, fuel - 1, fuel' - 1, env.initialisers[symbol.value], values);
        }
      case _ =>
    }
  }

  ghost predicate Covers(env: Env, visiting: set<Symbol>, fuel: nat) {
    |env.initialisers.Keys - visiting| <= fuel
  }

  lemma OneMoreVisited(env: Env, visiting: set<Symbol>, fuel: nat, s: Symbol)
    requires s in env.initialisers && s !in visiting && Covers(env, visiting, fuel)
    ensures fuel > 0 && Covers(env, visiting + {s}, fuel - 1)
  {
    assert env.initialisers.Keys - (visiting + {s}) == env.initialisers.Keys - visiting - {s};
  }

  lemma {:induction false} VisitingToUnfold(env: Env, fuel: nat, e: Expr, visiting: set<Symbol>, values: Values)
    requires Covers(env, visiting, fuel)
    requires Eval(env, e, visiting, values).Some?
    ensures Unfold(env, fuel, e, values) == Eval(env, e, visiting, values)
    decreases fuel, e, 1
  {
    hide EvalUnary, EvalBinary, Covers;
    match e {
      case Paren(inner) => VisitingToUnfold(env, fuel, inner, visiting, values);
      case Unary(op, operand) => VisitingToUnfold(env, fuel, operand, visiting, values);
      case Binary(op, left, right) =>
        VisitingToUnfold(env, fuel, left, visiting, values);
        VisitingToUnfold(env, fuel, right, visiting, values);
      case Ternary(condition, consequence, alternative) =>
        VisitingToUnfold(env, fuel, condition, visiting, values);
        if Eval(env, condition, visiting, values).value != 0 {
          VisitingToUnfold(env, fuel, consequence, visiting, values);
        } else {
          VisitingToUnfold(env, fuel, alternative, visiting, values);
        }
      case Identifier(_, _) => ConstantToUnfold(env, fuel, e, visiting, values);
      case _ =>
    }
  }

  lemma {:induction false} ConstantToUnfold(env: Env, fuel: nat, e: Expr, visiting: set<Symbol>, values: Values)
    requires Covers(env, visiting, fuel)
    requires e.Identifier? && Eval(env, e, visiting, values).Some?
    ensures Unfold(env, fuel, e, values) == Eval(env, e, visiting, values)
    decreases fuel, e, 0
  {
    hide EvalUnary, EvalBinary, Covers;
    if e.symbol.Some? {
      var s := e.symbol.value;
      if s in env.initialisers && s !in visiting
         && Eval(env, env.initialisers[s], visiting + {s}, values).Some? {
        OneMoreVisited(env, visiting, fuel, s);
        VisitingToUnfold(env, fuel - 1, env.initialisers[s], visiting + {s}, values);
      }
    }
  }

  /** No constant of the set has a value within less than the given fuel. */
  ghost predicate Blocked(env: Env, visiting: set<Symbol>, fuel: nat, values: Values) {
    forall c, m: nat :: c in visiting && c in env.initialisers && m < fuel ==>
      Unfold(env, m, env.initialisers[c], values) == None
  }

  lemma {:induction false} LeastFuel(env: Env, fuel: nat, e: Expr, values: Values) returns (least: nat)
    requires Unfold(env, fuel, e, values).Some?
    ensures least <= fuel && Unfold(env, least, e, values) == Unfold(env, fuel, e, values)
    ensures forall m: nat :: m < least ==> Unfold(env, m, e, values) == None
    decreases fuel
  {
    if m: nat :| m < fuel && Unfold(env, m, e, values).Some? {
      MoreFuel(env, m, fuel, e, values);
      least := LeastFuel(env, m, e, values);
    } else {
      least := fuel;
    }
  }

  lemma {:induction false} UnfoldToVisiting(env: Env, fuel: nat, e: Expr, visiting: set<Symbol>, values: Values)
    requires Unfold(env, fuel, e, values).Some? && Blocked(env, visiting, fuel, values)
    ensures Eval(env, e, visiting, values) == Unfold(env, fuel, e, values)
    decreases fuel, e
  {
    hide EvalUnary, EvalBinary;
    match e {
      case Paren(inner) => UnfoldToVisiting(env, fuel, inner, visiting, values);
      case Unary(op, operand) => UnfoldToVisiting(env, fuel, operand, visiting, values);
      case Binary(op, left, right) =>
        UnfoldToVisiting(env, fuel, left, visiting, values);
        UnfoldToVisiting(env, fuel, right, visiting, values);
      case Ternary(condition, consequence, alternative) =>
        UnfoldToVisiting(env, fuel, condition, visiting, values);
        if Unfold(env, fuel, condition, values).value != 0 {
          UnfoldToVisiting(env, fuel, consequence, visiting, values);
        } else {
          UnfoldToVisiting(env, fuel, alternative, visiting, values);
        }
      case Identifier(builtin, symbol) =>
        if symbol.Some? && fuel > 0 && symbol.value in env.initialisers
           && Unfold(env, fuel - 1, env.initialisers[symbol.value], values).Some? {
          var s := symbol.value;
          var least := LeastFuel(env, fuel - 1, env.initialisers[s], values);
          assert s !in visiting;
          UnfoldToVisiting(env, least, env.initialisers[s], visiting + {s}, values);
        }
      case _ =>
    }
  }

  /** Cutting cycles loses nothing: a value is found exactly when plain unfolding would reach one. */
  lemma CycleCheckLosesNothing(env: Env, e: Expr, values: Values, v: int)
    ensures Eval(env, e, {}, values) == Some(v) <==> exists fuel :: Unfold(env, fuel, e, values) == Some(v)
  {
    if Eval(env, e, {}, values) == Some(v) {
      VisitingToUnfold(env, |env.initialisers.Keys - {}|, e, {}, values);
    }
    if fuel :| Unfold(env, fuel, e, values) == Some(v) {
      UnfoldToVisiting(env, fuel, e, {}, values);
    }
  }

  /** A constant that is not known has the value of its initialiser: that cycles are cut cannot be seen. */
  lemma NameIsInitialiser(env: Env, s: Symbol, values: Values)
    requires s in env.constants && s in env.initialisers && s !in env.constantValues && s !in values
    ensures Eval(env, Identifier(None, Some(s)), {}, values) == Eval(env, env.initialisers[s], {}, values)
  {
    var name, init := Identifier(None, Some(s)), env.initialisers[s];
    var a, b := Eval(env, name, {}, values), Eval(env, init, {}, values);
    if b.Some? {
      CycleCheckLosesNothing(env, init, values, b.value);
      var fuel: nat :| Unfold(env, fuel, init, values) == b;
      UnfoldedName(env, s, values, fuel);
      CycleCheckLosesNothing(env, name, values, b.value);
    }
    if a.Some? {
      CycleCheckLosesNothing(env, name, values, a.value);
      var fuel: nat :| Unfold(env, fuel, name, values) == a;
      UnfoldedName(env, s, values, fuel - 1);
      CycleCheckLosesNothing(env, init, values, a.value);
    }
  }

  lemma UnfoldedName(env: Env, s: Symbol, values: Values, fuel: nat)
    requires s in env.constants && s in env.initialisers && s !in env.constantValues && s !in values
    ensures Unfold(env, fuel + 1, Identifier(None, Some(s)), values) == Unfold(env, fuel, env.initialisers[s], values)
  {
  }

  /** What the value of a name is: a builtin's, the one known, the constant's own, or that of its initialiser. */
  ghost predicate NameMeans(env: Env, builtin: Option<int>, symbol: Option<Symbol>, values: Values, r: Option<int>) {
    match symbol
    case None => r == builtin
    case Some(s) =>
      if s in values then r == Some(values[s])
      else if s !in env.constants then r == None
      else if s in env.constantValues then r == Some(env.constantValues[s])
      else if s !in env.initialisers then r == None
      else r == Eval(env, env.initialisers[s], {}, values)
  }

  /**
   The equations that evaluation satisfies, without any set of constants being visited: literals are 32-bit
   words read as signed, operators need all their operands, and a choice needs only the branch it takes.
   */
  lemma EvaluationEquations(env: Env, e: Expr, values: Values)
    ensures match e
      case Literal(unsigned) =>
        if unsigned.Some? && unsigned.value < 0x1_0000_0000 then
          Eval(env, e, {}, values)
            == Some(if unsigned.value < 0x8000_0000 then unsigned.value else unsigned.value - 0x1_0000_0000)
        else Eval(env, e, {}, values) == None
      case Paren(inner) => Eval(env, e, {}, values) == Eval(env, inner, {}, values)
      case Unary(op, operand) =>
        var v := Eval(env, operand, {}, values);
        Eval(env, e, {}, values) == if v.Some? then EvalUnary(op, v.value) else None
      case Binary(op, left, right) =>
        var a, b := Eval(env, left, {}, values), Eval(env, right, {}, values);
        Eval(env, e, {}, values) == if a.Some? && b.Some? then EvalBinary(op, a.value, b.value) else None
      case Ternary(condition, consequence, alternative) =>
        var c := Eval(env, condition, {}, values);
        Eval(env, e, {}, values) ==
          if c == None then None
          else if c.value == 0 then Eval(env, alternative, {}, values)
          else Eval(env, consequence, {}, values)
      case Identifier(builtin, symbol) => NameMeans(env, builtin, symbol, values, Eval(env, e, {}, values))
      case Opaque => Eval(env, e, {}, values) == None
  {
    hide EvalUnary, EvalBinary;
    if e.Identifier? && e.symbol.Some? {
      var s := e.symbol.value;
      assert Eval(env, e, {}, values) == Eval(env, Identifier(None, Some(s)), {}, values);
      if s in env.constants && s in env.initialisers && s !in env.constantValues && s !in values {
        NameIsInitialiser(env, s, values);
      }
    }
  }

  ghost predicate WithinCells(env: Env, e: Expr, values: Values) {
    && (forall s :: s in values ==> InCell(values[s]))
    && (forall s :: s in env.constantValues ==> InCell(env.constantValues[s]))
    && BuiltinsInCell(e) && forall s :: s in env.initialisers ==> BuiltinsInCell(env.initialisers[s])
  }

  ghost predicate BuiltinsInCell(e: Expr) {
    match e
    case Paren(inner) => BuiltinsInCell(inner)
    case Unary(_, operand) => BuiltinsInCell(operand)
    case Binary(_, left, right) => BuiltinsInCell(left) && BuiltinsInCell(right)
    case Ternary(c, t, f) => BuiltinsInCell(c) && BuiltinsInCell(t) && BuiltinsInCell(f)
    case Identifier(builtin, _) => builtin.Some? ==> InCell(builtin.value)
    case _ => true
  }

  /** Every value the evaluator returns fits a cell. */
  lemma {:induction false} EvalInCell(env: Env, e: Expr, visiting: set<Symbol>, values: Values)
    requires WithinCells(env, e, values)
    ensures Eval(env, e, visiting, values).Some? ==> InCell(Eval(env, e, visiting, values).value)
    decreases env.initialisers.Keys - visiting, e
  {
    match e {
      case Paren(inner) => EvalInCell(env, inner, visiting, values);
      case Unary(op, operand) => EvalInCell(env, operand, visiting, values);
      case Binary(op, left, right) =>
        EvalInCell(env, left, visiting, values);
        EvalInCell(env, right, visiting, values);
        var a, b := Eval(env, left, visiting, values), Eval(env, right, visiting, values);
        if a.Some? && b.Some? { BinaryInCell(op, a.value, b.value); }
      case Ternary(condition, consequence, alternative) =>
        EvalInCell(env, consequence, visiting, values);
        EvalInCell(env, alternative, visiting, values);
      case Identifier(builtin, symbol) =>
        if symbol.Some? && symbol.value in env.initialisers && symbol.value !in visiting {
          EvalInCell(env, env.initialisers[symbol.value], visiting + {symbol.value}, values);
        }
      case _ =>
    }
  }
}
