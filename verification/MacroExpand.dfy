/** Macro expansion over token pieces: arguments, substitution and the recursive expander. */
module MacroExpand {
  import opened Wrappers

  datatype Kind =
    | Identifier | LParen | RParen | LBracket | RBracket | LBrace | RBrace | Comma | Hash | OtherKind(code: nat)

  /** A token with its text and the offsets it has in its source. */
  datatype Piece = Piece(kind: Kind, text: string, start: nat, end: nat)

  datatype Definition = Definition(parameters: seq<string>, body: seq<Piece>, isFunction: bool)

  /** The macros in force, and the kind of token that two glued texts form, where they form one. */
  datatype Table = Table(definitions: map<string, Definition>, glued: map<string, Kind>) {
    predicate Valid() {
      forall name :: name in definitions && !definitions[name].isFunction ==> definitions[name].parameters == []
    }

    predicate Names(piece: Piece) {
      piece.kind == Identifier && piece.text in definitions
    }

    /** The piece names an object-like macro. */
    predicate NamesObject(piece: Piece) {
      Names(piece) && !definitions[piece.text].isFunction
    }
  }

  const MAXIMUM_EXPANSION_DEPTH: nat := 64
  const MAXIMUM_EXPANDED_TOKENS: nat := 1_000_000

  // ----- Arguments -----

  function Nesting(kind: Kind): int {
    if kind in {LParen, LBracket, LBrace} then 1 else if kind in {RParen, RBracket, RBrace} then -1 else 0
  }

  /** How many more brackets a stretch of pieces opens than it closes. */
  ghost function Depth(pieces: seq<Piece>): int {
    if pieces == [] then 0 else Depth(pieces[..|pieces| - 1]) + Nesting(pieces[|pieces| - 1].kind)
  }

  ghost predicate Separates(pieces: seq<Piece>, i: nat)
    requires i < |pieces|
  {
    pieces[i].kind == Comma && Depth(pieces[..i]) == 0
  }

  /** The arguments between the commas that are on no inner level. */
  ghost function Split(inner: seq<Piece>): (arguments: seq<seq<Piece>>)
    ensures |arguments| > 0
  {
    if inner == [] then [[]]
    else
      var n := |inner| - 1;
      var before := Split(inner[..n]);
      if Separates(inner, n) then before + [[]] else before[|before| - 1 := before[|before| - 1] + [inner[n]]]
  }

  ghost function Joined(arguments: seq<seq<Piece>>, commas: seq<Piece>): seq<Piece>
    requires |arguments| == |commas| + 1
  {
    if commas == [] then arguments[0]
    else Joined(arguments[..|commas|], commas[..|commas| - 1]) + [commas[|commas| - 1]] + arguments[|commas|]
  }

  /** Arguments joined by the commas between them give back the pieces they were parsed from. */
  lemma {:induction false} SplitRejoins(inner: seq<Piece>) returns (commas: seq<Piece>)
    ensures |Split(inner)| == |commas| + 1 && Joined(Split(inner), commas) == inner
    ensures forall c :: c in commas ==> c.kind == Comma
    decreases |inner|
  {
    if inner == [] {
      commas := [];
    } else {
      var n := |inner| - 1;
      var before := Split(inner[..n]);
      commas := SplitRejoins(inner[..n]);
      assert inner == inner[..n] + [inner[n]];
      if Separates(inner, n) {
        JoinedWithComma(before, commas, inner[n]);
        commas := commas + [inner[n]];
      } else {
        JoinedWithPiece(before, commas, inner[n]);
      }
    }
  }

  lemma JoinedWithComma(arguments: seq<seq<Piece>>, commas: seq<Piece>, comma: Piece)
    requires |arguments| == |commas| + 1
    ensures Joined(arguments + [[]], commas + [comma]) == Joined(arguments, commas) + [comma]
  {
    var longer := commas + [comma];
    assert longer[..|longer| - 1] == commas && (arguments + [[]])[..|longer|] == arguments;
  }

  lemma JoinedWithPiece(arguments: seq<seq<Piece>>, commas: seq<Piece>, piece: Piece)
    requires |arguments| == |commas| + 1
    ensures var last := |commas|;
      Joined(arguments[last := arguments[last] + [piece]], commas) == Joined(arguments, commas) + [piece]
  {
    var last := |commas|;
    if last > 0 {
      assert arguments[last := arguments[last] + [piece]][..last] == arguments[..last];
    }
  }

  /** No argument has a comma on its own outer level. */
  lemma {:induction false} ArgumentsHaveNoComma(inner: seq<Piece>, a: nat, i: nat)
    requires a < |Split(inner)| && i < |Split(inner)[a]|
    ensures !Separates(Split(inner)[a], i)
    decreases |inner|
  {
    if inner != [] {
      var n := |inner| - 1;
      var before := Split(inner[..n]);
      assert forall j :: 0 <= j <= n ==> inner[..n][..j] == inner[..j];
      if Separates(inner, n) {
        ArgumentsHaveNoComma(inner[..n], a, i);
      } else if a == |before| - 1 && i == |before[a]| {
        SplitDepth(inner[..n]);
        assert Split(inner)[a][..i] == before[a];
      } else {
        ArgumentsHaveNoComma(inner[..n], a, i);
        assert Split(inner)[a][..i] == before[a][..i];
      }
    }
  }

  lemma DepthSnoc(pieces: seq<Piece>, piece: Piece)
    ensures Depth(pieces + [piece]) == Depth(pieces) + Nesting(piece.kind) && Depth([]) == 0
  {
    assert (pieces + [piece])[..|pieces|] == pieces;
  }

  lemma {:induction false} SplitDepth(inner: seq<Piece>)
    ensures Depth(Split(inner)[|Split(inner)| - 1]) == Depth(inner)
    decreases |inner|
  {
    hide Depth;
    if inner != [] {
      var n := |inner| - 1;
      var before := Split(inner[..n]);
      SplitDepth(inner[..n]);
      assert inner == inner[..n] + [inner[n]];
      DepthSnoc(inner[..n], inner[n]);
      DepthSnoc(before[|before| - 1], inner[n]);
    }
  }

  /** The first closing parenthesis, from position k on, that is on the level of the call's own parenthesis. */
  ghost function ClosesAt(input: seq<Piece>, k: nat): (close: Option<nat>)
    requires k >= 2
    ensures close.Some? ==> k <= close.value < |input|
    decreases |input| - k
  {
    if k >= |input| then None
    else if input[k].kind == RParen && Depth(input[2..k]) == 0 then Some(k)
    else ClosesAt(input, k + 1)
  }

  ghost function CountOf(pieces: seq<Piece>, kinds: set<Kind>): nat {
    if pieces == [] then 0
    else CountOf(pieces[..|pieces| - 1], kinds) + if pieces[|pieces| - 1].kind in kinds then 1 else 0
  }

  /** The depth of a stretch is how many brackets of the three sorts it opens more than it closes. */
  lemma {:induction false} DepthIsBalance(pieces: seq<Piece>)
    ensures Depth(pieces)
      == CountOf(pieces, {LParen, LBracket, LBrace}) - CountOf(pieces, {RParen, RBracket, RBrace})
    decreases |pieces|
  {
    if pieces != [] {
      DepthIsBalance(pieces[..|pieces| - 1]);
    }
  }

  ghost predicate Closes(input: seq<Piece>, k: nat)
    requires 2 <= k < |input|
  {
    input[k].kind == RParen && Depth(input[2..k]) == 0
  }

  lemma {:induction false} ClosesAtIsFirst(input: seq<Piece>, k: nat)
    requires k >= 2
    ensures match ClosesAt(input, k)
      case Some(c) => Closes(input, c) && forall j :: k <= j < c ==> !Closes(input, j)
      case None => forall j :: k <= j < |input| ==> !Closes(input, j)
    decreases |input| - k
  {
    if k < |input| && !Closes(input, k) {
      ClosesAtIsFirst(input, k + 1);
    }
  }

  /** The arguments of the call that the input starts with, and how many pieces the call takes. */
  ghost function ArgumentsOf(input: seq<Piece>): (r: Option<(seq<seq<Piece>>, nat)>)
    ensures r.Some? ==> 3 <= r.value.1 <= |input|
  {
    var close := ClosesAt(input, 2);
    if close == None then None
    else Some((if close.value == 2 then [] else Split(input[2..close.value]), close.value + 1))
  }

  /**
   A call ends at the first closing parenthesis on its own level. Its arguments joined by commas are what is
   between the parentheses, and none of them has a comma on its outer level; nothing between them is no argument.
   */
  lemma ArgumentsMean(input: seq<Piece>)
    ensures ArgumentsOf(input) == None <==> forall j :: 2 <= j < |input| ==> !Closes(input, j)
    ensures ArgumentsOf(input).Some? ==>
      var (arguments, consumed) := ArgumentsOf(input).value;
      && Closes(input, consumed - 1) && (forall j :: 2 <= j < consumed - 1 ==> !Closes(input, j))
      && (arguments == [] <==> consumed == 3)
      && (arguments != [] ==> IsSplit(input[2..consumed - 1], arguments))
  {
    hide Split, Closes, Joined, Depth;
    ClosesAtIsFirst(input, 2);
    if ClosesAt(input, 2).Some? {
      SplitIsSplit(input[2..ClosesAt(input, 2).value]);
    }
  }

  ghost predicate IsSplit(inner: seq<Piece>, arguments: seq<seq<Piece>>) {
    && (exists commas: seq<Piece> :: |arguments| == |commas| + 1 && (forall c :: c in commas ==> c.kind == Comma)
          && Joined(arguments, commas) == inner)
    && forall a: nat, i: nat :: a < |arguments| && i < |arguments[a]| ==> !Separates(arguments[a], i)
  }

  lemma SplitIsSplit(inner: seq<Piece>)
    ensures IsSplit(inner, Split(inner))
  {
    var commas := SplitRejoins(inner);
    forall a: nat, i: nat | a < |Split(inner)| && i < |Split(inner)[a]| ensures !Separates(Split(inner)[a], i) {
      ArgumentsHaveNoComma(inner, a, i);
    }
  }

  method PieceArguments(input: seq<Piece>, index: nat) returns (arguments: seq<seq<Piece>>, consumed: nat, ok: bool)
    requires index + 1 < |input| && input[index + 1].kind == LParen
    ensures 0 < consumed <= |input| - index
    ensures ArgumentsOf(input[index..]) == if ok then Some((arguments, consumed)) else None
  {
    hide Depth, Split, Separates;
    ghost var tail := input[index..];
    var depth := 1;
    ScanFirst();
    var start := index + 2;
    arguments := [];
    var current := index + 2;
    assert tail[2..2] == [];
    while current < |input|
      invariant index + 2 <= start <= current <= |input|
      invariant depth == Depth(tail[2..current - index]) + 1
      invariant Split(tail[2..current - index]) == arguments + [tail[start - index..current - index]]
      invariant arguments == [] ==> start == index + 2
      invariant ClosesAt(tail, 2) == ClosesAt(tail, current - index)
    {
      assert input[start..current] == tail[start - index..current - index];
      ScanStep(tail, start - index, current - index, arguments);
      var kind := input[current].kind;
      if kind in {LParen, LBracket, LBrace} {
        depth := depth + 1;
      } else if kind == RParen {
        depth := depth - 1;
        if depth == 0 {
          if current > start || arguments != [] {
            arguments := arguments + [input[start..current]];
          }
          return arguments, current - index + 1, true;
        }
      } else if kind in {RBracket, RBrace} {
        depth := depth - 1;
      } else if kind == Comma && depth == 1 {
        arguments := arguments + [input[start..current]];
        start := current + 1;
      }
      current := current + 1;
    }
    return [], |input| - index, false;
  }

  lemma ScanFirst()
    ensures Depth([]) == 0 && Split([]) == [[]]
  {
  }

  lemma ScanStep(input: seq<Piece>, start: nat, current: nat, arguments: seq<seq<Piece>>)
    requires 2 <= start <= current < |input| && Split(input[2..current]) == arguments + [input[start..current]]
    ensures Depth(input[2..current + 1]) == Depth(input[2..current]) + Nesting(input[current].kind)
    ensures Split(input[2..current + 1]) ==
      if input[current].kind == Comma && Depth(input[2..current]) == 0
        then arguments + [input[start..current]] + [input[current + 1..current + 1]]
        else arguments + [input[start..current + 1]]
  {
    var inner := input[2..current + 1];
    assert inner[..|inner| - 1] == input[2..current];
    assert input[start..current + 1] == input[start..current] + [input[current]];
    assert input[current + 1..current + 1] == [];
  }

  // ----- Substitution -----

  function Digits(n: nat): string {
    var low := [(n % 10) as char + '0'];
    if n < 10 then low else Digits(n / 10) + low
  }

  /** A parameter is written by name or by position; of several that fit, the last counts. */
  function ParameterIndex(parameters: seq<string>, text: string): (index: Option<nat>)
    ensures index.Some? ==> index.value < |parameters|
  {
    if parameters == [] then None
    else
      var last := |parameters| - 1;
      if text == "%" + Digits(last) || text == parameters[last] then Some(last)
      else ParameterIndex(parameters[..last], text)
  }

  method IndexParameters(parameters: seq<string>) returns (indexes: map<string, nat>)
    ensures forall text ::
      ParameterIndex(parameters, text) == if text in indexes then Some(indexes[text]) else None
  {
    indexes := map[];
    for index := 0 to |parameters|
      invariant forall text ::
        ParameterIndex(parameters[..index], text) == if text in indexes then Some(indexes[text]) else None
    {
      assert parameters[..index + 1][..index] == parameters[..index];
      indexes := indexes[parameters[index] := index];
      indexes := indexes["%" + Digits(index) := index];
    }
    assert parameters[..|parameters|] == parameters;
  }

  /** Two pieces that touch become one where their texts together form one token. */
  function Glue(glued: map<string, Kind>, left: seq<Piece>, right: seq<Piece>): seq<Piece> {
    if left == [] || right == [] then left + right
    else
      var last, first := left[|left| - 1], right[0];
      var text := last.text + first.text;
      if text !in glued then left + right
      else left[..|left| - 1] + [Piece(glued[text], text, last.start, first.end)] + right[1..]
  }

  /** What a piece of the body stands for. */
  function Filled(definition: Definition, arguments: seq<seq<Piece>>, current: Piece): seq<Piece>
    requires |arguments| == |definition.parameters|
  {
    var index := ParameterIndex(definition.parameters, current.text);
    if index.Some? then arguments[index.value] else [current]
  }

  predicate Substitutable(current: Piece) {
    current.kind != Hash && current.text != "%%"
  }

  /** The first n pieces of the body with the arguments in place. */
  ghost function Substituted(glued: map<string, Kind>, definition: Definition, arguments: seq<seq<Piece>>,
      n: nat): Option<seq<Piece>>
    requires |arguments| == |definition.parameters| && n <= |definition.body|
  {
    if n == 0 then Some([])
    else
      var before := Substituted(glued, definition, arguments, n - 1);
      var current := definition.body[n - 1];
      if before == None || !Substitutable(current) then None
      else
        var pieces := Filled(definition, arguments, current);
        if n > 1 && definition.body[n - 2].end == current.start then Some(Glue(glued, before.value, pieces))
        else Some(before.value + pieces)
  }

  method Substitute(glued: map<string, Kind>, definition: Definition, arguments: seq<seq<Piece>>)
    returns (result: seq<Piece>, ok: bool)
    requires |arguments| == |definition.parameters|
    ensures Substituted(glued, definition, arguments, |definition.body|) == if ok then Some(result) else None
    ensures ok <==> forall piece :: piece in definition.body ==> piece.kind != Hash && piece.text != "%%"
    ensures ok ==> exists parts, stages ::
      IsSubstitution(glued, definition, arguments, parts, stages) && result == stages[|definition.body|]
      && TextOf(result) == TextOf(Flat(parts))
  {
    hide ParameterIndex, Glue, IsSubstitution, Gives, AreGlued;
    var indexes := IndexParameters(definition.parameters);
    result := [];
    for i := 0 to |definition.body|
      invariant Substituted(glued, definition, arguments, i) == Some(result)
    {
      var current := definition.body[i];
      if current.kind == Hash || current.text == "%%" {
        StaysRefused(glued, definition, arguments, i + 1, |definition.body|);
        return [], false;
      }
      var pieces := if current.text in indexes then arguments[indexes[current.text]] else [current];
      assert pieces == Filled(definition, arguments, current);
      result := if i != 0 && definition.body[i - 1].end == current.start then Glue(glued, result, pieces)
          else result + pieces;
    }
    ok := true;
    SubstituteMeans(glued, definition, arguments, result);
  }

  lemma SubstituteMeans(glued: map<string, Kind>, definition: Definition, arguments: seq<seq<Piece>>,
      result: seq<Piece>)
    requires |arguments| == |definition.parameters|
    requires Substituted(glued, definition, arguments, |definition.body|) == Some(result)
    ensures forall piece :: piece in definition.body ==> piece.kind != Hash && piece.text != "%%"
    ensures exists parts, stages ::
      IsSubstitution(glued, definition, arguments, parts, stages) && result == stages[|definition.body|]
      && TextOf(result) == TextOf(Flat(parts))
  {
    hide Substituted, Stage, TextOf, Flat;
    var n := |definition.body|;
    SubstitutedIff(glued, definition, arguments, n);
    var parts, stages := SubstitutedInStages(glued, definition, arguments, n);
    forall k | 0 <= k < n ensures Stage(glued, definition, arguments, k, stages[k], parts[k], stages[k + 1]) {
    }
    assert IsSubstitution(glued, definition, arguments, parts, stages);
    StagesKeepText(glued, definition, arguments, parts, stages, n);
    assert parts[..n] == parts;
  }

  lemma {:induction false} StaysRefused(glued: map<string, Kind>, definition: Definition, arguments: seq<seq<Piece>>,
      n: nat, m: nat)
    requires |arguments| == |definition.parameters| && n <= m <= |definition.body|
    requires Substituted(glued, definition, arguments, n) == None
    ensures Substituted(glued, definition, arguments, m) == None
    decreases m - n
  {
    if n < m {
      StaysRefused(glued, definition, arguments, n + 1, m);
    }
  }

  function TextOf(pieces: seq<Piece>): string {
    if pieces == [] then "" else pieces[0].text + TextOf(pieces[1..])
  }

  function FilledText(definition: Definition, arguments: seq<seq<Piece>>, n: nat): string
    requires |arguments| == |definition.parameters| && n <= |definition.body|
  {
    if n == 0 then ""
    else FilledText(definition, arguments, n - 1) + TextOf(Filled(definition, arguments, definition.body[n - 1]))
  }

  lemma {:induction false} TextOfBoth(a: seq<Piece>, b: seq<Piece>)
    ensures TextOf(a + b) == TextOf(a) + TextOf(b)
  {
    if a == [] {
      assert a + b == b;
    } else {
      TextOfBoth(a[1..], b);
      assert (a + b)[1..] == a[1..] + b && (a + b)[0] == a[0];
      hide TextOf;
      Associates(a[0].text, TextOf(a[1..]), TextOf(b));
      TextOfFirst(a);
      TextOfFirst(a + b);
    }
  }

  lemma TextOfFirst(a: seq<Piece>)
    requires a != []
    ensures TextOf(a) == a[0].text + TextOf(a[1..])
  {
  }

  lemma TextOfOne(piece: Piece)
    ensures TextOf([piece]) == piece.text
  {
    assert [piece][1..] == [];
  }

  lemma Associates(a: string, b: string, c: string)
    ensures a + b + c == a + (b + c)
  {
  }

  lemma GlueKeepsText(glued: map<string, Kind>, left: seq<Piece>, right: seq<Piece>)
    ensures TextOf(Glue(glued, left, right)) == TextOf(left) + TextOf(right)
  {
    hide TextOf;
    TextOfBoth(left, right);
    if left != [] && right != [] && left[|left| - 1].text + right[0].text in glued {
      var front, last, first, rest := left[..|left| - 1], left[|left| - 1], right[0], right[1..];
      var both := Piece(glued[last.text + first.text], last.text + first.text, last.start, first.end);
      assert left == front + [last] && right == [first] + rest;
      TextOfBoth(front, [last]);
      TextOfBoth([first], rest);
      TextOfBoth(front + [both], rest);
      TextOfBoth(front, [both]);
      TextOfOne(last);
      TextOfOne(first);
      TextOfOne(both);
      calc {
        TextOf(front) + (last.text + first.text) + TextOf(rest);
        { Associates(TextOf(front), last.text, first.text); }
        TextOf(front) + last.text + first.text + TextOf(rest);
        { Associates(TextOf(front) + last.text, first.text, TextOf(rest)); }
        TextOf(front) + last.text + (first.text + TextOf(rest));
      }
    }
  }

  /** Substitution writes the body with the arguments in it, whatever pieces it glues together. */
  lemma {:induction false} SubstitutionKeepsText(glued: map<string, Kind>, definition: Definition,
      arguments: seq<seq<Piece>>, n: nat)
    requires |arguments| == |definition.parameters| && n <= |definition.body|
    requires Substituted(glued, definition, arguments, n).Some?
    ensures TextOf(Substituted(glued, definition, arguments, n).value) == FilledText(definition, arguments, n)
  {
    if n > 0 {
      SubstitutionKeepsText(glued, definition, arguments, n - 1);
      var before := Substituted(glued, definition, arguments, n - 1).value;
      var pieces := Filled(definition, arguments, definition.body[n - 1]);
      GlueKeepsText(glued, before, pieces);
      TextOfBoth(before, pieces);
    }
  }

  // ----- What substitution does -----

  predicate IsDigit(c: char) {
    '0' <= c <= '9'
  }

  function DecimalValue(digits: string): int {
    if digits == "" then 0
    else 10 * DecimalValue(digits[..|digits| - 1]) + (digits[|digits| - 1] as int - '0' as int)
  }

  /** Digits only, no leading zero, and the value is the number. */
  ghost predicate IsDecimal(digits: string, n: nat) {
    && digits != "" && (forall c :: c in digits ==> IsDigit(c)) && (|digits| > 1 ==> digits[0] != '0')
    && DecimalValue(digits) == n
  }

  lemma {:induction false} DigitsAreDecimal(n: nat)
    ensures IsDecimal(Digits(n), n) && (n > 0 ==> Digits(n)[0] != '0')
    decreases n
  {
    var low := [(n % 10) as char + '0'];
    if n < 10 {
      assert low[..0] == "" && DecimalValue("") == 0;
    } else {
      DigitsAreDecimal(n / 10);
      assert (Digits(n / 10) + low)[..|Digits(n / 10)|] == Digits(n / 10);
    }
  }

  lemma {:induction false} DecimalIsUnique(digits: string, n: nat)
    requires IsDecimal(digits, n)
    ensures digits == Digits(n) && (digits[0] != '0' ==> n > 0)
    decreases |digits|
  {
    var front, low := digits[..|digits| - 1], digits[|digits| - 1];
    assert low in digits && digits == front + [low];
    if front == "" {
      assert DecimalValue(front) == 0;
      assert digits[0] == low;
    } else {
      var d := low as int - '0' as int;
      assert n == 10 * DecimalValue(front) + d && 0 <= d < 10;
      DecimalIsPositive(front);
      DecimalIsUnique(front, n / 10);
    }
  }

  lemma {:induction false} DecimalIsPositive(digits: string)
    requires digits != "" && (forall c :: c in digits ==> IsDigit(c)) && digits[0] != '0'
    ensures DecimalValue(digits) > 0
    decreases |digits|
  {
    var front, low := digits[..|digits| - 1], digits[|digits| - 1];
    assert low in digits && digits[0] in digits && digits == front + [low];
    if front == "" {
      assert DecimalValue(front) == 0;
    } else {
      DecimalIsPositive(front);
    }
  }

  /** The text stands for the parameter: it is its name, or a percent sign and its position in decimal. */
  ghost predicate StandsFor(parameters: seq<string>, i: nat, text: string)
    requires i < |parameters|
  {
    text == parameters[i] || (text != "" && text[0] == '%' && IsDecimal(text[1..], i))
  }

  ghost predicate LastFor(parameters: seq<string>, i: nat, text: string)
    requires i < |parameters|
  {
    StandsFor(parameters, i, text) && forall j: nat :: i < j < |parameters| ==> !StandsFor(parameters, j, text)
  }

  lemma Position(text: string, i: nat)
    ensures text == "%" + Digits(i) <==> text != "" && text[0] == '%' && IsDecimal(text[1..], i)
  {
    DigitsAreDecimal(i);
    if text == "%" + Digits(i) {
      assert text[1..] == Digits(i);
    }
    if text != "" && text[0] == '%' && IsDecimal(text[1..], i) {
      DecimalIsUnique(text[1..], i);
      assert text == [text[0]] + text[1..];
    }
  }

  lemma {:induction false} ParameterIndexMeans(parameters: seq<string>, text: string)
    ensures match ParameterIndex(parameters, text)
      case Some(i) => LastFor(parameters, i, text)
      case None => forall i: nat :: i < |parameters| ==> !StandsFor(parameters, i, text)
    decreases |parameters|
  {
    hide Digits, IsDecimal;
    if parameters != [] {
      var last := |parameters| - 1;
      Position(text, last);
      ParameterIndexMeans(parameters[..last], text);
      assert forall i: nat :: i < last ==>
        (StandsFor(parameters, i, text) <==> StandsFor(parameters[..last], i, text));
    }
  }

  /** A piece of a body gives the argument of the last parameter that it stands for, and otherwise itself. */
  ghost predicate Gives(definition: Definition, arguments: seq<seq<Piece>>, current: Piece, part: seq<Piece>)
    requires |arguments| == |definition.parameters|
  {
    var parameters := definition.parameters;
    || (exists i: nat :: i < |parameters| && LastFor(parameters, i, current.text) && part == arguments[i])
    || (part == [current] && forall i: nat :: i < |parameters| ==> !StandsFor(parameters, i, current.text))
  }

  ghost function Flat(parts: seq<seq<Piece>>): seq<Piece> {
    if parts == [] then [] else Flat(parts[..|parts| - 1]) + parts[|parts| - 1]
  }

  /** The pieces that two touching stretches become: one new piece where their ends form a token, or all of both. */
  ghost predicate AreGlued(glued: map<string, Kind>, left: seq<Piece>, right: seq<Piece>, both: seq<Piece>) {
    || (both == left + right
          && (left != [] && right != [] ==> left[|left| - 1].text + right[0].text !in glued))
    || exists front, back, a: Piece, b: Piece ::
         && left == front + [a] && right == [b] + back && a.text + b.text in glued
         && both == front + [Piece(glued[a.text + b.text], a.text + b.text, a.start, b.end)] + back
  }

  lemma GlueMeans(glued: map<string, Kind>, left: seq<Piece>, right: seq<Piece>)
    ensures AreGlued(glued, left, right, Glue(glued, left, right))
  {
    if left != [] && right != [] && left[|left| - 1].text + right[0].text in glued {
      var front, back, a, b := left[..|left| - 1], right[1..], left[|left| - 1], right[0];
      assert left == front + [a] && right == [b] + back;
    }
  }

  /**
   What one piece of the body gives, glued to what is there already exactly if the piece touches the one before
   it in the body.
   */
  ghost predicate Stage(glued: map<string, Kind>, definition: Definition, arguments: seq<seq<Piece>>, k: nat,
      before: seq<Piece>, part: seq<Piece>, after: seq<Piece>)
    requires |arguments| == |definition.parameters| && k < |definition.body|
  {
    var body := definition.body;
    && Gives(definition, arguments, body[k], part)
    && if k > 0 && body[k - 1].end == body[k].start then AreGlued(glued, before, part, after)
       else after == before + part
  }

  /** A substitution in stages, one for every piece of the body. */
  ghost predicate IsSubstitution(glued: map<string, Kind>, definition: Definition, arguments: seq<seq<Piece>>,
      parts: seq<seq<Piece>>, stages: seq<seq<Piece>>)
    requires |arguments| == |definition.parameters|
  {
    && |parts| == |definition.body| && |stages| == |definition.body| + 1 && stages[0] == []
    && forall k :: 0 <= k < |parts| ==> Stage(glued, definition, arguments, k, stages[k], parts[k], stages[k + 1])
  }

  lemma FilledIsGiven(definition: Definition, arguments: seq<seq<Piece>>, current: Piece)
    requires |arguments| == |definition.parameters|
    ensures Gives(definition, arguments, current, Filled(definition, arguments, current))
  {
    hide LastFor, StandsFor;
    ParameterIndexMeans(definition.parameters, current.text);
  }

  lemma {:induction false} SubstitutedInStages(glued: map<string, Kind>, definition: Definition,
      arguments: seq<seq<Piece>>, n: nat) returns (parts: seq<seq<Piece>>, stages: seq<seq<Piece>>)
    requires |arguments| == |definition.parameters| && n <= |definition.body|
    requires Substituted(glued, definition, arguments, n).Some?
    ensures |parts| == n && |stages| == n + 1 && stages[0] == []
    ensures forall k :: 0 <= k < n ==> Stage(glued, definition, arguments, k, stages[k], parts[k], stages[k + 1])
    ensures Substituted(glued, definition, arguments, n) == Some(stages[n])
    decreases n
  {
    hide Filled, Glue, Gives, AreGlued;
    if n == 0 {
      parts, stages := [], [[]];
    } else {
      parts, stages := SubstitutedInStages(glued, definition, arguments, n - 1);
      var current := definition.body[n - 1];
      var part := Filled(definition, arguments, current);
      FilledIsGiven(definition, arguments, current);
      GlueMeans(glued, stages[n - 1], part);
      parts, stages := parts + [part], stages + [Substituted(glued, definition, arguments, n).value];
    }
  }

  /** Substitution succeeds exactly if no piece of the body is a hash or a doubled percent sign. */
  lemma {:induction false} SubstitutedIff(glued: map<string, Kind>, definition: Definition,
      arguments: seq<seq<Piece>>, n: nat)
    requires |arguments| == |definition.parameters| && n <= |definition.body|
    ensures Substituted(glued, definition, arguments, n).Some? <==>
      forall k :: 0 <= k < n ==> definition.body[k].kind != Hash && definition.body[k].text != "%%"
    decreases n
  {
    hide Filled, Glue;
    if n > 0 {
      SubstitutedIff(glued, definition, arguments, n - 1);
    }
  }

  /** Gluing moves no text: that of the result is that of all parts in the order of the body. */
  lemma {:induction false} StagesKeepText(glued: map<string, Kind>, definition: Definition, arguments: seq<seq<Piece>>,
      parts: seq<seq<Piece>>, stages: seq<seq<Piece>>, n: nat)
    requires |arguments| == |definition.parameters| && n <= |definition.body|
    requires IsSubstitution(glued, definition, arguments, parts, stages)
    ensures TextOf(stages[n]) == TextOf(Flat(parts[..n]))
    decreases n
  {
    hide TextOf, Stage;
    if n > 0 {
      StagesKeepText(glued, definition, arguments, parts, stages, n - 1);
      assert parts[..n][..n - 1] == parts[..n - 1];
      TextOfBoth(Flat(parts[..n - 1]), parts[n - 1]);
      StageText(glued, definition, arguments, n - 1, stages[n - 1], parts[n - 1], stages[n]);
    } else {
      assert parts[..0] == [];
    }
  }

  lemma StageText(glued: map<string, Kind>, definition: Definition, arguments: seq<seq<Piece>>, k: nat,
      before: seq<Piece>, part: seq<Piece>, after: seq<Piece>)
    requires |arguments| == |definition.parameters| && k < |definition.body|
    requires Stage(glued, definition, arguments, k, before, part, after)
    ensures TextOf(after) == TextOf(before) + TextOf(part)
  {
    hide TextOf, AreGlued, Gives;
    TextOfBoth(before, part);
    if k > 0 && definition.body[k - 1].end == definition.body[k].start {
      GluedText(glued, before, part, after);
    }
  }

  lemma GluedText(glued: map<string, Kind>, left: seq<Piece>, right: seq<Piece>, both: seq<Piece>)
    requires AreGlued(glued, left, right, both)
    ensures TextOf(both) == TextOf(left) + TextOf(right)
  {
    hide TextOf;
    if both == left + right {
      TextOfBoth(left, right);
    } else {
      var front, back, a: Piece, b: Piece :|
        && left == front + [a] && right == [b] + back && a.text + b.text in glued
        && both == front + [Piece(glued[a.text + b.text], a.text + b.text, a.start, b.end)] + back;
      JoinedText(front, a, b, back, Piece(glued[a.text + b.text], a.text + b.text, a.start, b.end));
    }
  }

  lemma JoinedText(front: seq<Piece>, a: Piece, b: Piece, back: seq<Piece>, one: Piece)
    requires one.text == a.text + b.text
    ensures TextOf(front + [one] + back) == TextOf(front + [a]) + TextOf([b] + back)
  {
    hide *;
    TextOfBoth(front, [a]);
    TextOfBoth([b], back);
    TextOfBoth(front, [one]);
    TextOfBoth(front + [one], back);
    TextOfOne(a);
    TextOfOne(b);
    TextOfOne(one);
    FourAssociate(TextOf(front), a.text, b.text, TextOf(back));
  }

  lemma FourAssociate(a: string, b: string, c: string, d: string)
    ensures a + (b + c) + d == (a + b) + (c + d)
  {
  }

  // ----- Expansion -----

  /** What the call at the front of the input is replaced by before anything else happens to it. */
  ghost function Replacement(table: Table, input: seq<Piece>): (r: Option<(seq<Piece>, nat)>)
    requires table.Valid() && input != [] && table.Names(input[0])
    ensures r.Some? ==> 0 < r.value.1 <= |input|
  {
    var definition := table.definitions[input[0].text];
    var call := if definition.isFunction then ArgumentsOf(input) else Some(([], 1));
    if call == None || |call.value.0| != |definition.parameters| then None
    else
      var replaced := Substituted(table.glued, definition, call.value.0, |definition.body|);
      if replaced == None then None else Some((replaced.value, call.value.1))
  }

  /** The piece starts no call: it names no macro, or a function-like one without an opening parenthesis behind it. */
  predicate Stays(table: Table, input: seq<Piece>)
    requires input != []
  {
    !table.Names(input[0])
    || (table.definitions[input[0].text].isFunction && (|input| == 1 || input[1].kind != LParen))
  }

  /**
   Expansion with nothing disabled and no limit on its size, down to a given nesting. There is
   none if some call cannot be replaced or the nesting does not suffice.
   */
  ghost function Full(table: Table, fuel: nat, input: seq<Piece>): Option<seq<Piece>>
    requires table.Valid()
    decreases fuel, |input|
  {
    if input == [] then Some([])
    else if table.Names(input[0]) && fuel == 0 then None
    else if Stays(table, input) then Prepend([input[0]], Full(table, fuel, input[1..]))
    else
      var replaced := Replacement(table, input);
      if replaced == None then None
      else
        var inner := Full(table, fuel - 1, replaced.value.0);
        if inner == None then None else Prepend(inner.value, Full(table, fuel, input[replaced.value.1..]))
  }

  ghost function Prepend(front: seq<Piece>, rest: Option<seq<Piece>>): Option<seq<Piece>> {
    if rest == None then None else Some(front + rest.value)
  }

  lemma PrependTwice(a: seq<Piece>, b: seq<Piece>, rest: Option<seq<Piece>>)
    ensures Prepend(a, Prepend(b, rest)) == Prepend(a + b, rest)
  {
    if rest.Some? {
      assert a + (b + rest.value) == a + b + rest.value;
    }
  }

  /** The piece starts a call: an identifier that is defined, and if function-like before an opening parenthesis. */
  ghost predicate IsCall(table: Table, input: seq<Piece>) {
    && input != [] && input[0].kind == Identifier && input[0].text in table.definitions
    && (table.definitions[input[0].text].isFunction ==> |input| > 1 && input[1].kind == LParen)
  }

  /**
   What a call is replaced by: its body, with the arguments between its parentheses in it. There is nothing to
   replace it by exactly if its arguments do not end, are not as many as the parameters, or the body has a hash
   or a doubled percent sign.
   */
  lemma ReplacementMeans(table: Table, input: seq<Piece>)
    requires table.Valid() && IsCall(table, input)
    ensures var definition, call := table.definitions[input[0].text], Replacement(table, input);
      && (call == None <==>
            || (definition.isFunction && ArgumentsOf(input) == None)
            || (definition.isFunction && |ArgumentsOf(input).value.0| != |definition.parameters|)
            || exists k :: 0 <= k < |definition.body|
                 && (definition.body[k].kind == Hash || definition.body[k].text == "%%"))
      && (call.Some? ==>
            var arguments := if definition.isFunction then ArgumentsOf(input).value.0 else [];
            && call.value.1 == (if definition.isFunction then ArgumentsOf(input).value.1 else 1)
            && exists parts, stages ::
                 && IsSubstitution(table.glued, definition, arguments, parts, stages)
                 && call.value.0 == stages[|stages| - 1])
  {
    hide ArgumentsOf, Substituted, Stage;
    var definition := table.definitions[input[0].text];
    var call := if definition.isFunction then ArgumentsOf(input) else Some(([], 1));
    if call.Some? && |call.value.0| == |definition.parameters| {
      SubstitutedIff(table.glued, definition, call.value.0, |definition.body|);
      if Replacement(table, input).Some? {
        var parts, stages := SubstitutedInStages(table.glued, definition, call.value.0, |definition.body|);
        assert IsSubstitution(table.glued, definition, call.value.0, parts, stages);
      }
    }
  }

  /**
   Expansion in full goes from left to right. A piece that starts no call stays, a call gives way to the expansion
   in full of its replacement, and a name of a macro needs some nesting to be left.
   */
  lemma FullEquations(table: Table, fuel: nat, input: seq<Piece>)
    requires table.Valid()
    ensures Full(table, fuel, []) == Some([])
    ensures input != [] && (input[0].kind != Identifier || input[0].text !in table.definitions) ==>
      Full(table, fuel, input) == Prepend([input[0]], Full(table, fuel, input[1..]))
    ensures input != [] && input[0].kind == Identifier && input[0].text in table.definitions ==>
      Full(table, 0, input) == None
    ensures input != [] && fuel > 0 && !IsCall(table, input) ==>
      Full(table, fuel, input) == Prepend([input[0]], Full(table, fuel, input[1..]))
    ensures fuel > 0 && IsCall(table, input) ==>
      var call := Replacement(table, input);
      Full(table, fuel, input) ==
        if call == None || Full(table, fuel - 1, call.value.0) == None then None
        else Prepend(Full(table, fuel - 1, call.value.0).value, Full(table, fuel, input[call.value.1..]))
  {
    hide Replacement;
  }

  /**
   On the way of expansion in full some macro name is met that is disabled, which is to say inside the
   expansion of that macro; nothing is said of what follows a call that cannot be replaced.
   */
  ghost predicate Meets(table: Table, fuel: nat, input: seq<Piece>, disabled: set<string>)
    requires table.Valid()
    decreases fuel, |input|
  {
    input != []
    && if !table.Names(input[0]) then Meets(table, fuel, input[1..], disabled)
       else if input[0].text in disabled then true
       else if fuel == 0 then false
       else if Stays(table, input) then Meets(table, fuel, input[1..], disabled)
       else
         var replaced := Replacement(table, input);
         replaced.Some?
         && (Meets(table, fuel - 1, replaced.value.0, disabled + {input[0].text})
             || Meets(table, fuel, input[replaced.value.1..], disabled))
  }

  /** There is an expansion in full which is not too long, and no macro is met inside its own expansion. */
  ghost predicate Ready(table: Table, fuel: nat, input: seq<Piece>, disabled: set<string>, count: nat)
    requires table.Valid()
  {
    && Full(table, fuel, input).Some? && count + |Full(table, fuel, input).value| <= MAXIMUM_EXPANDED_TOKENS
    && !Meets(table, fuel, input, disabled)
  }

  /** Some piece starts a call. */
  ghost predicate HasCall(table: Table, input: seq<Piece>, n: nat)
    requires n <= |input|
  {
    exists i :: 0 <= i < n && !Stays(table, input[i..])
  }

  class Expander {
    const table: Table
    var complete: bool
    var changed: bool
    var count: nat

    constructor (t: Table)
      ensures table == t && complete && !changed && count == 0
    {
      table, complete, changed, count := t, true, false, 0;
    }

    /**
     Complete expansion is expansion in full. For every table it is complete, up to its limits, exactly if
     no macro is met inside its own expansion, and it changes something exactly if some piece starts a call.
     */
    method ExpandPieces(input: seq<Piece>, depth: nat, disabled: set<string>) returns (result: seq<Piece>)
      requires table.Valid() && depth <= MAXIMUM_EXPANSION_DEPTH
      modifies this
      ensures complete ==> old(complete) && count == old(count) + |result|
      ensures var fuel := MAXIMUM_EXPANSION_DEPTH - depth;
        complete ==> Full(table, fuel, input) == Some(result) && !Meets(table, fuel, input, disabled)
      ensures old(complete) && Ready(table, MAXIMUM_EXPANSION_DEPTH - depth, input, disabled, old(count)) ==> complete
      ensures complete && old(count) <= MAXIMUM_EXPANDED_TOKENS + 1 ==> count <= MAXIMUM_EXPANDED_TOKENS + 1
      ensures complete ==> (changed <==> old(changed) || HasCall(table, input, |input|))
      ensures (forall piece :: piece in input ==> !table.Names(piece)) ==> changed == old(changed)
      ensures input != [] && table.Names(input[0]) && input[0].text in disabled ==> !complete
      decreases MAXIMUM_EXPANSION_DEPTH - depth, 1
    {
      hide Full, Prepend, Meets, Stays;
      result := [];
      ghost var fuel := MAXIMUM_EXPANSION_DEPTH - depth;
      ghost var ready := complete && Ready(table, fuel, input, disabled, count);
      var index := 0;
      assert input[0..] == input;
      PrependNothing(Full(table, fuel, input));
      while index < |input|
        invariant index <= |input|
        invariant complete ==> old(complete) && count == old(count) + |result|
        invariant complete ==> Full(table, fuel, input) == Prepend(result, Full(table, fuel, input[index..]))
        invariant complete ==> (Meets(table, fuel, input, disabled) <==> Meets(table, fuel, input[index..], disabled))
        invariant complete && old(count) <= MAXIMUM_EXPANDED_TOKENS + 1 ==> count <= MAXIMUM_EXPANDED_TOKENS + 1
        invariant ready ==> complete
        invariant complete ==> (changed <==> old(changed) || HasCall(table, input, index))
        invariant (forall piece :: piece in input ==> !table.Names(piece)) ==> changed == old(changed)
        invariant index > 0 && table.Names(input[0]) && input[0].text in disabled ==> !complete
        decreases |input| - index
      {
        if ready {
          ReadyTail(table, fuel, input, disabled, old(count), result, index);
        }
        if count > MAXIMUM_EXPANDED_TOKENS {
          complete := false;
          return result + input[index..];
        }
        var pieces, consumed := ExpandNext(input, index, depth, disabled);
        PrependTwice(result, pieces, Full(table, fuel, input[index + consumed..]));
        CallsGrow(table, input, index, consumed);
        result, index := result + pieces, index + consumed;
      }
      AtEnd(table, fuel, input, result);
      NothingMet(table, fuel, input, disabled);
    }

    method ReplaceCall(input: seq<Piece>, index: nat) returns (replaced: seq<Piece>, consumed: nat, ok: bool)
      requires table.Valid() && index < |input| && table.Names(input[index]) && !Stays(table, input[index..])
      ensures 0 < consumed <= |input| - index
      ensures Replacement(table, input[index..]) == if ok then Some((replaced, consumed)) else None
    {
      hide Full, ArgumentsOf, Substituted;
      var definition := table.definitions[input[index].text];
      var arguments := [];
      consumed := 1;
      if definition.isFunction {
        arguments, consumed, ok := PieceArguments(input, index);
        if !ok || |arguments| != |definition.parameters| {
          return [], consumed, false;
        }
      }
      replaced, ok := Substitute(table.glued, definition, arguments);
    }

    /** What stands in the output for the piece at an index, or for the call that it starts. */
    method ExpandNext(input: seq<Piece>, index: nat, depth: nat, disabled: set<string>)
      returns (pieces: seq<Piece>, consumed: nat)
      requires table.Valid() && depth <= MAXIMUM_EXPANSION_DEPTH && index < |input| && count <= MAXIMUM_EXPANDED_TOKENS
      modifies this
      ensures 0 < consumed <= |input| - index
      ensures complete ==> old(complete) && count == old(count) + |pieces| && count <= MAXIMUM_EXPANDED_TOKENS + 1
      ensures var fuel := MAXIMUM_EXPANSION_DEPTH - depth;
        complete ==>
          && Full(table, fuel, input[index..]) == Prepend(pieces, Full(table, fuel, input[index + consumed..]))
          && (Meets(table, fuel, input[index..], disabled) <==> Meets(table, fuel, input[index + consumed..], disabled))
      ensures var fuel := MAXIMUM_EXPANSION_DEPTH - depth;
        old(complete) && Ready(table, fuel, input[index..], disabled, old(count)) ==> complete
      ensures complete ==> (changed <==> old(changed) || !Stays(table, input[index..]))
      ensures complete && Stays(table, input[index..]) ==> consumed == 1
      ensures !table.Names(input[index]) ==> changed == old(changed)
      ensures table.Names(input[index]) && input[index].text in disabled ==> !complete
      decreases MAXIMUM_EXPANSION_DEPTH - depth, 0
    {
      hide Full, Prepend, Meets, Replacement;
      var current := input[index];
      ghost var fuel := MAXIMUM_EXPANSION_DEPTH - depth;
      ghost var tail := input[index..];
      assert tail[0] == current;
      if !table.Names(current) {
        StepStays(table, fuel, input, index, disabled);
        count := count + 1;
        return [current], 1;
      }
      ghost var ready := complete && Ready(table, fuel, tail, disabled, count);
      if ready {
        ReadyName(table, fuel, tail, disabled, count);
      }
      var definition := table.definitions[current.text];
      if current.text in disabled {
        complete, count := false, count + 1;
        return [current], 1;
      }
      if depth >= MAXIMUM_EXPANSION_DEPTH {
        complete := false;
        return input[index..], |input| - index;
      }
      if definition.isFunction && (index + 1 >= |input| || input[index + 1].kind != LParen) {
        StepStays(table, fuel, input, index, disabled);
        count := count + 1;
        return [current], 1;
      }
      var replaced, ok;
      replaced, consumed, ok := ReplaceCall(input, index);
      if ready {
        ReadyCall(table, fuel, tail, disabled, count);
      }
      if !ok {
        complete, count := false, count + consumed;
        return input[index..index + consumed], consumed;
      }
      pieces := ExpandPieces(replaced, depth + 1, disabled + {current.text});
      if complete {
        StepReplaced(table, fuel, input, index, replaced, consumed, pieces, disabled);
      }
      changed := true;
    }
  }

  // ----- Tables without function-like macros -----

  predicate ObjectsOnly(table: Table) {
    forall name :: name in table.definitions ==> !table.definitions[name].isFunction
  }

  /** The body that an object-like macro is replaced by. */
  ghost function BodyOf(table: Table, name: string): Option<seq<Piece>>
    requires table.Valid() && ObjectsOnly(table) && name in table.definitions
  {
    var definition := table.definitions[name];
    Substituted(table.glued, definition, [], |definition.body|)
  }

  /** Whenever a disabled macro can be expanded in full, so can the input, which is part of its expansion. */
  ghost predicate Within(table: Table, disabled: set<string>, input: seq<Piece>)
    requires table.Valid() && ObjectsOnly(table)
  {
    forall name, f: nat {:trigger Unfolds(table, f, name)} :: name in disabled && Unfolds(table, f, name) ==>
      exists g: nat :: g <= f && Full(table, g, input).Some?
  }

  ghost predicate Unfolds(table: Table, f: nat, name: string)
    requires table.Valid() && ObjectsOnly(table)
  {
    name in table.definitions && BodyOf(table, name).Some? && Full(table, f, BodyOf(table, name).value).Some?
  }

  lemma {:induction false} PartOfFull(table: Table, fuel: nat, input: seq<Piece>, i: nat)
    requires table.Valid() && ObjectsOnly(table) && Full(table, fuel, input).Some? && i <= |input|
    ensures Full(table, fuel, input[i..]).Some?
    ensures i < |input| && table.Names(input[i]) ==> fuel > 0 && Unfolds(table, fuel - 1, input[i].text)
    decreases i
  {
    if i == 0 {
      assert input[0..] == input;
    } else {
      PartOfFull(table, fuel, input[1..], i - 1);
      assert input[1..][i - 1..] == input[i..];
    }
  }

  lemma {:induction false} DisabledNeverUnfolds(table: Table, disabled: set<string>, input: seq<Piece>, i: nat, f: nat)
    requires table.Valid() && ObjectsOnly(table) && Within(table, disabled, input)
    requires i < |input| && table.Names(input[i]) && input[i].text in disabled
    ensures !Unfolds(table, f, input[i].text)
    decreases f
  {
    if Unfolds(table, f, input[i].text) {
      var g: nat :| g <= f && Full(table, g, input).Some?;
      PartOfFull(table, g, input, i);
      DisabledNeverUnfolds(table, disabled, input, i, g - 1);
    }
  }

  lemma WithinGoesDown(table: Table, disabled: set<string>, input: seq<Piece>, i: nat, replaced: seq<Piece>)
    requires table.Valid() && ObjectsOnly(table) && Within(table, disabled, input)
    requires i < |input| && table.Names(input[i]) && BodyOf(table, input[i].text) == Some(replaced)
    ensures Within(table, disabled + {input[i].text}, replaced)
  {
    forall name, f: nat | name in disabled + {input[i].text} && Unfolds(table, f, name)
      ensures exists g: nat :: g <= f && Full(table, g, replaced).Some?
    {
      if name in disabled {
        var g: nat :| g <= f && Full(table, g, input).Some?;
        PartOfFull(table, g, input, i);
        assert g - 1 <= f && Full(table, g - 1, replaced).Some?;
      }
    }
  }

  lemma WithinTail(table: Table, disabled: set<string>, input: seq<Piece>, i: nat)
    requires table.Valid() && ObjectsOnly(table) && Within(table, disabled, input) && i <= |input|
    ensures Within(table, disabled, input[i..])
  {
    forall name, f: nat | name in disabled && Unfolds(table, f, name)
      ensures exists g: nat :: g <= f && Full(table, g, input[i..]).Some?
    {
      var g: nat :| g <= f && Full(table, g, input).Some?;
      PartOfFull(table, g, input, i);
    }
  }

  /** Without function-like macros, what can be expanded in full meets no macro inside its own expansion. */
  lemma {:induction false} ObjectsNeverMeet(table: Table, fuel: nat, input: seq<Piece>, disabled: set<string>)
    requires table.Valid() && ObjectsOnly(table) && Within(table, disabled, input) && Full(table, fuel, input).Some?
    ensures !Meets(table, fuel, input, disabled)
    decreases fuel, |input|
  {
    hide Replacement, Within, Unfolds;
    if input != [] {
      PartOfFull(table, fuel, input, 1);
      WithinTail(table, disabled, input, 1);
      ObjectsNeverMeet(table, fuel, input[1..], disabled);
      if table.Names(input[0]) {
        PartOfFull(table, fuel, input, 0);
        if input[0].text in disabled {
          DisabledNeverUnfolds(table, disabled, input, 0, fuel - 1);
        }
        ObjectReplaced(table, input);
        var replaced := Replacement(table, input).value.0;
        WithinGoesDown(table, disabled, input, 0, replaced);
        ObjectsNeverMeet(table, fuel - 1, replaced, disabled + {input[0].text});
      }
    }
  }

  lemma ObjectReplaced(table: Table, input: seq<Piece>)
    requires table.Valid() && ObjectsOnly(table) && input != [] && table.Names(input[0])
    ensures var body := BodyOf(table, input[0].text);
      Replacement(table, input) == if body == None then None else Some((body.value, 1))
  {
  }

  /** Without function-like macros expansion is complete whenever it exists and is not too long. */
  lemma ObjectsAreReady(table: Table, fuel: nat, input: seq<Piece>, count: nat)
    requires table.Valid() && ObjectsOnly(table) && Full(table, fuel, input).Some?
    requires count + |Full(table, fuel, input).value| <= MAXIMUM_EXPANDED_TOKENS
    ensures Ready(table, fuel, input, {}, count)
  {
    ObjectsNeverMeet(table, fuel, input, {});
  }

  // ----- Single steps -----

  lemma ReadyTail(
    table: Table, fuel: nat, input: seq<Piece>, disabled: set<string>, count: nat, result: seq<Piece>, index: nat)
    requires table.Valid() && Ready(table, fuel, input, disabled, count) && index <= |input|
    requires Full(table, fuel, input) == Prepend(result, Full(table, fuel, input[index..]))
    requires Meets(table, fuel, input, disabled) <==> Meets(table, fuel, input[index..], disabled)
    ensures count + |result| <= MAXIMUM_EXPANDED_TOKENS
    ensures Ready(table, fuel, input[index..], disabled, count + |result|)
  {
    hide Full, Meets;
  }

  lemma ReadyName(table: Table, fuel: nat, input: seq<Piece>, disabled: set<string>, count: nat)
    requires table.Valid() && Ready(table, fuel, input, disabled, count) && input != [] && table.Names(input[0])
    ensures fuel > 0 && input[0].text !in disabled
  {
  }

  lemma ReadyCall(table: Table, fuel: nat, input: seq<Piece>, disabled: set<string>, count: nat)
    requires table.Valid() && Ready(table, fuel, input, disabled, count) && input != [] && table.Names(input[0])
    requires !Stays(table, input)
    ensures fuel > 0 && Replacement(table, input).Some?
    ensures Ready(table, fuel - 1, Replacement(table, input).value.0, disabled + {input[0].text}, count)
  {
    hide Replacement;
  }

  lemma CallsGrow(table: Table, input: seq<Piece>, index: nat, consumed: nat)
    requires 0 < consumed && index + consumed <= |input|
    ensures Stays(table, input[index..]) ==>
      (HasCall(table, input, index + 1) <==> HasCall(table, input, index))
    ensures !Stays(table, input[index..]) ==> HasCall(table, input, index + consumed)
  {
    hide Stays;
  }

  lemma NothingMet(table: Table, fuel: nat, input: seq<Piece>, disabled: set<string>)
    requires table.Valid()
    ensures !Meets(table, fuel, input[|input|..], disabled)
  {
  }

  lemma StepStays(table: Table, fuel: nat, input: seq<Piece>, index: nat, disabled: set<string>)
    requires table.Valid() && index < |input| && Stays(table, input[index..])
    requires table.Names(input[index]) ==> fuel > 0 && input[index].text !in disabled
    ensures Full(table, fuel, input[index..]) == Prepend([input[index]], Full(table, fuel, input[index + 1..]))
    ensures Meets(table, fuel, input[index..], disabled) <==> Meets(table, fuel, input[index + 1..], disabled)
  {
    var tail := input[index..];
    assert tail[1..] == input[index + 1..];
  }

  lemma StepReplaced(table: Table, fuel: nat, input: seq<Piece>, index: nat, replaced: seq<Piece>, consumed: nat,
                     inner: seq<Piece>, disabled: set<string>)
    requires table.Valid() && index < |input| && fuel > 0 && index + consumed <= |input|
    requires table.Names(input[index]) && !Stays(table, input[index..]) && input[index].text !in disabled
    requires Replacement(table, input[index..]) == Some((replaced, consumed))
    requires Full(table, fuel - 1, replaced) == Some(inner)
    requires !Meets(table, fuel - 1, replaced, disabled + {input[index].text})
    ensures Full(table, fuel, input[index..]) == Prepend(inner, Full(table, fuel, input[index + consumed..]))
    ensures Meets(table, fuel, input[index..], disabled) <==> Meets(table, fuel, input[index + consumed..], disabled)
  {
    hide Replacement;
    var tail := input[index..];
    assert tail[consumed..] == input[index + consumed..];
  }

  lemma AtEnd(table: Table, fuel: nat, input: seq<Piece>, result: seq<Piece>)
    requires table.Valid()
    ensures Prepend(result, Full(table, fuel, input[|input|..])) == Some(result)
  {
    assert input[|input|..] == [] && result + [] == result;
  }

  lemma PrependNothing(rest: Option<seq<Piece>>)
    ensures Prepend([], rest) == rest
  {
    if rest.Some? {
      assert [] + rest.value == rest.value;
    }
  }

  /**
   The text that an object-like macro stands for. There is none exactly if the macro has no expansion in
   full, if that is too long, or if some macro is met inside its own expansion.
   */
  method ExpandIdentifier(table: Table, name: string) returns (text: Option<string>)
    requires table.Valid()
    ensures var input, fuel := [Piece(Identifier, name, 0, 0)], MAXIMUM_EXPANSION_DEPTH;
      && (text.Some? ==> table.NamesObject(input[0]) && !Meets(table, fuel, input, {}) && exists pieces ::
            Full(table, fuel, input) == Some(pieces) && text.value == TextOf(pieces))
      && (text == None && table.NamesObject(input[0]) && Full(table, fuel, input).Some? ==>
            |Full(table, fuel, input).value| > MAXIMUM_EXPANDED_TOKENS
            || (!ObjectsOnly(table) && Meets(table, fuel, input, {})))
  {
    hide Full, Meets;
    if name !in table.definitions || table.definitions[name].isFunction {
      return None;
    }
    var expander := new Expander(table);
    var input := [Piece(Identifier, name, 0, 0)];
    assert input[0..] == input && !Stays(table, input[0..]);
    assert HasCall(table, input, 1);
    if ObjectsOnly(table) && Full(table, MAXIMUM_EXPANSION_DEPTH, input).Some? {
      ObjectsNeverMeet(table, MAXIMUM_EXPANSION_DEPTH, input, {});
    }
    var pieces := expander.ExpandPieces(input, 0, {});
    if !expander.complete || !expander.changed {
      return None;
    }
    text := Some(TextOf(pieces));
  }

  // ----- What expansion in full means -----

  /** Nothing that an object-like macro stands for is left. */
  lemma {:induction false} FullIsNormal(table: Table, fuel: nat, input: seq<Piece>)
    requires table.Valid() && Full(table, fuel, input).Some?
    ensures forall piece :: piece in Full(table, fuel, input).value ==> !table.NamesObject(piece)
    decreases fuel, |input|
  {
    hide Replacement;
    if input != [] {
      if Stays(table, input) {
        FullIsNormal(table, fuel, input[1..]);
      } else {
        var replaced := Replacement(table, input).value;
        FullIsNormal(table, fuel - 1, replaced.0);
        FullIsNormal(table, fuel, input[replaced.1..]);
      }
    }
  }

  /** What starts a call in an expansion in full is a function-like name before an opening parenthesis. */
  lemma CallsLeft(table: Table, fuel: nat, input: seq<Piece>, i: nat)
    requires table.Valid() && Full(table, fuel, input).Some? && i < |Full(table, fuel, input).value|
    ensures var once := Full(table, fuel, input).value;
      !Stays(table, once[i..]) <==>
        table.Names(once[i]) && table.definitions[once[i].text].isFunction && i + 1 < |once|
            && once[i + 1].kind == LParen
  {
    FullIsNormal(table, fuel, input);
    var once := Full(table, fuel, input).value;
    assert !table.NamesObject(once[i]);
  }

  /** Where no piece of an expansion starts a call, expanding it again changes nothing. */
  lemma FullIsFixed(table: Table, fuel: nat, again: nat, input: seq<Piece>)
    requires table.Valid() && Full(table, fuel, input).Some? && again > 0
    requires !HasCall(table, Full(table, fuel, input).value, |Full(table, fuel, input).value|)
    ensures Full(table, again, Full(table, fuel, input).value) == Full(table, fuel, input)
  {
    var once := Full(table, fuel, input).value;
    forall i | 0 <= i < |once| ensures Stays(table, once[i..]) {
    }
    NormalStays(table, again, once);
  }

  /** Without function-like macros no piece of an expansion starts a call. */
  lemma ObjectsAreFixed(table: Table, fuel: nat, again: nat, input: seq<Piece>)
    requires table.Valid() && ObjectsOnly(table) && Full(table, fuel, input).Some?
    ensures Full(table, again, Full(table, fuel, input).value) == Full(table, fuel, input)
  {
    FullIsNormal(table, fuel, input);
    var once := Full(table, fuel, input).value;
    forall i | 0 <= i < |once| ensures Stays(table, once[i..]) && !table.Names(once[i]) {
      assert once[i..][0] == once[i] && once[i] in once && !table.NamesObject(once[i]);
    }
    NormalStays(table, again, once);
  }

  lemma {:induction false} NormalStays(table: Table, fuel: nat, input: seq<Piece>)
    requires table.Valid() && forall i :: 0 <= i < |input| ==> Stays(table, input[i..])
    requires fuel > 0 || forall i :: 0 <= i < |input| ==> !table.Names(input[i])
    ensures Full(table, fuel, input) == Some(input)
    decreases |input|
  {
    if input != [] {
      assert input[0..] == input;
      forall i | 0 <= i < |input[1..]| ensures Stays(table, input[1..][i..]) {
        assert input[1..][i..] == input[i + 1..];
      }
      NormalStays(table, fuel, input[1..]);
      assert [input[0]] + input[1..] == input;
    }
  }

  /** The nesting limit decides whether there is an expansion, not what it is. */
  lemma {:induction false} MoreNesting(table: Table, fuel: nat, more: nat, input: seq<Piece>)
    requires table.Valid() && fuel <= more && Full(table, fuel, input).Some?
    ensures Full(table, more, input) == Full(table, fuel, input)
    decreases fuel, |input|
  {
    hide Replacement;
    if input != [] {
      if Stays(table, input) {
        MoreNesting(table, fuel, more, input[1..]);
      } else {
        var replaced := Replacement(table, input).value;
        MoreNesting(table, fuel - 1, more - 1, replaced.0);
        MoreNesting(table, fuel, more, input[replaced.1..]);
      }
    }
  }

  /** One macro call somewhere in the pieces is replaced. */
  ghost predicate StepsTo(table: Table, a: seq<Piece>, b: seq<Piece>)
    requires table.Valid()
  {
    exists front, call, replaced ::
      ReplacesFront(table, call, replaced) && a == front + call && b == front + replaced
  }

  ghost predicate ReplacesFront(table: Table, a: seq<Piece>, b: seq<Piece>)
    requires table.Valid()
  {
    && a != [] && table.Names(a[0]) && Replacement(table, a).Some?
    && b == Replacement(table, a).value.0 + a[Replacement(table, a).value.1..]
  }

  ghost predicate Rewrites(table: Table, steps: nat, a: seq<Piece>, b: seq<Piece>)
    requires table.Valid()
  {
    if steps == 0 then a == b
    else exists c :: Rewrites(table, steps - 1, a, c) && StepsTo(table, c, b)
  }

  lemma {:induction false} ClosesAtExtends(input: seq<Piece>, more: seq<Piece>, k: nat)
    requires k >= 2 && ClosesAt(input, k).Some?
    ensures ClosesAt(input + more, k) == ClosesAt(input, k)
    decreases |input| - k
  {
    assert (input + more)[2..k] == input[2..k];
    if !(input[k].kind == RParen && Depth(input[2..k]) == 0) {
      ClosesAtExtends(input, more, k + 1);
    }
  }

  /** What follows a call does not matter to its replacement. */
  lemma ReplacementExtends(table: Table, input: seq<Piece>, more: seq<Piece>)
    requires table.Valid() && input != [] && table.Names(input[0]) && Replacement(table, input).Some?
    ensures Replacement(table, input + more) == Replacement(table, input)
  {
    if table.definitions[input[0].text].isFunction {
      ClosesAtExtends(input, more, 2);
      var close := ClosesAt(input, 2).value;
      assert (input + more)[2..close] == input[2..close];
    }
  }

  /** Replacing a call with pieces before and behind it. */
  lemma StepInContext(table: Table, front: seq<Piece>, input: seq<Piece>, back: seq<Piece>)
    requires table.Valid() && input != [] && table.Names(input[0]) && Replacement(table, input).Some?
    ensures var r := Replacement(table, input).value;
      StepsTo(table, front + input + back, front + r.0 + (input[r.1..] + back))
  {
    hide Replacement;
    ReplacementExtends(table, input, back);
    var r := Replacement(table, input).value;
    var call := input + back;
    assert call[r.1..] == input[r.1..] + back;
    assert ReplacesFront(table, call, r.0 + (input[r.1..] + back));
    assert front + input + back == front + call;
    assert front + r.0 + (input[r.1..] + back) == front + (r.0 + (input[r.1..] + back));
  }

  lemma StartsRewriting(table: Table, input: seq<Piece>)
    requires table.Valid()
    ensures Rewrites(table, 0, input, input)
  {
  }

  lemma RewritesOnce(table: Table, steps: nat, a: seq<Piece>, b: seq<Piece>, c: seq<Piece>)
    requires table.Valid() && Rewrites(table, steps, a, b) && StepsTo(table, b, c)
    ensures Rewrites(table, steps + 1, a, c)
  {
    hide StepsTo;
  }

  lemma CallsOfTail(table: Table, input: seq<Piece>)
    ensures input == [] ==> !HasCall(table, input, |input|)
    ensures input != [] && !Stays(table, input) ==> HasCall(table, input, |input|)
    ensures input != [] && Stays(table, input) ==>
      (HasCall(table, input, |input|) <==> HasCall(table, input[1..], |input[1..]|))
  {
    hide Stays;
    if input != [] {
      assert input[0..] == input;
      assert forall i :: 0 <= i < |input| - 1 ==> input[1..][i..] == input[i + 1..];
      if i :| 0 < i < |input| && !Stays(table, input[i..]) {
        assert input[1..][i - 1..] == input[i..];
      }
    }
  }

  /** Whatever stands around it, the input can be rewritten to its expansion one call at a time. */
  lemma {:induction false} RewritesInPlace(
    table: Table, fuel: nat, start: seq<Piece>, steps: nat, front: seq<Piece>, input: seq<Piece>, back: seq<Piece>)
    returns (more: nat)
    requires table.Valid() && Full(table, fuel, input).Some?
    requires Rewrites(table, steps, start, front + input + back)
    ensures Rewrites(table, more, start, front + Full(table, fuel, input).value + back)
    ensures more >= steps && (more == steps <==> !HasCall(table, input, |input|))
    decreases fuel, |input|
  {
    hide Rewrites, Replacement, StepsTo, HasCall;
    CallsOfTail(table, input);
    if input == [] {
      more := steps;
    } else if Stays(table, input) {
      var rest := Full(table, fuel, input[1..]).value;
      assert front + input + back == front + [input[0]] + input[1..] + back;
      more := RewritesInPlace(table, fuel, start, steps, front + [input[0]], input[1..], back);
      assert front + [input[0]] + rest + back == front + ([input[0]] + rest) + back;
    } else {
      var r := Replacement(table, input).value;
      var inner, tail := Full(table, fuel - 1, r.0).value, input[r.1..];
      var rest := Full(table, fuel, tail).value;
      StepInContext(table, front, input, back);
      RewritesOnce(table, steps, start, front + input + back, front + r.0 + (tail + back));
      more := RewritesInPlace(table, fuel - 1, start, steps + 1, front, r.0, tail + back);
      assert front + inner + (tail + back) == front + inner + tail + back;
      more := RewritesInPlace(table, fuel, start, more, front + inner, tail, back);
      assert front + inner + rest + back == front + (inner + rest) + back;
    }
  }

  /** Expansion only ever replaces macro calls by their bodies, and none exactly if no piece starts a call. */
  lemma FullRewrites(table: Table, fuel: nat, input: seq<Piece>) returns (steps: nat)
    requires table.Valid() && Full(table, fuel, input).Some?
    ensures Rewrites(table, steps, input, Full(table, fuel, input).value)
    ensures steps == 0 <==> !HasCall(table, input, |input|)
  {
    hide Rewrites, Full, HasCall;
    StartsRewriting(table, input);
    assert [] + input + [] == input;
    steps := RewritesInPlace(table, fuel, input, 0, [], input, []);
    assert [] + Full(table, fuel, input).value + [] == Full(table, fuel, input).value;
  }

  // ----- Function-like macros -----

  // #define A() B
  // #define B(x) x

  const NAME_A := Piece(Identifier, "A", 0, 1)
  const NAME_B := Piece(Identifier, "B", 10, 11)
  const NAME_X := Piece(Identifier, "x", 20, 21)
  const OPENING := Piece(LParen, "(", 1, 2)
  const CLOSING := Piece(RParen, ")", 2, 3)
  const ONE := Piece(OtherKind(0), "1", 4, 5)

  const TWO_MACROS := Table(map["A" := Definition([], [NAME_B], true), "B" := Definition(["x"], [NAME_X], true)], map[])

  lemma ReplacedA()
    ensures Replacement(TWO_MACROS, [NAME_A, OPENING, CLOSING, OPENING, ONE, CLOSING]) == Some(([NAME_B], 3))
  {
    var input, definition := [NAME_A, OPENING, CLOSING, OPENING, ONE, CLOSING], TWO_MACROS.definitions["A"];
    assert input[2..2] == [] && ClosesAt(input, 2) == Some(2);
    assert Substituted(map[], definition, [], 0) == Some([]);
    assert Filled(definition, [], NAME_B) == [NAME_B] && [] + [NAME_B] == [NAME_B];
    assert Substituted(map[], definition, [], 1) == Some([NAME_B]);
  }

  lemma ReplacedB()
    ensures Replacement(TWO_MACROS, [NAME_B, OPENING, ONE, CLOSING]) == Some(([ONE], 4))
  {
    var input, definition := [NAME_B, OPENING, ONE, CLOSING], TWO_MACROS.definitions["B"];
    assert input[2..3] == [ONE] && [ONE][..0] == [];
    assert Depth([ONE]) == Depth([]) + Nesting(ONE.kind) == 0;
    assert ClosesAt(input, 2) == ClosesAt(input, 3) == Some(3);
    assert Split([ONE]) == [[ONE]] by {
      assert Split([]) == [[]] && !Separates([ONE], 0);
      assert [] + [ONE] == [ONE];
    }
    assert Substituted(map[], definition, [[ONE]], 0) == Some([]);
    assert Filled(definition, [[ONE]], NAME_X) == [ONE] && [] + [ONE] == [ONE];
    assert Substituted(map[], definition, [[ONE]], 1) == Some([ONE]);
  }

  lemma NameAlone(table: Table, fuel: nat, name: Piece)
    requires table.Valid() && table.Names(name) && table.definitions[name.text].isFunction && fuel > 0
    ensures Full(table, fuel, [name]) == Some([name])
  {
    assert [name][1..] == [] && Full(table, fuel, []) == Some([]) && [name] + [] == [name];
  }

  lemma CallThenRest(table: Table, fuel: nat, input: seq<Piece>, replaced: seq<Piece>, inner: seq<Piece>,
                     consumed: nat, rest: seq<Piece>)
    requires table.Valid() && fuel > 0 && input != [] && table.Names(input[0]) && !Stays(table, input)
    requires Replacement(table, input) == Some((replaced, consumed))
    requires Full(table, fuel - 1, replaced) == Some(inner) && Full(table, fuel, input[consumed..]) == Some(rest)
    ensures Full(table, fuel, input) == Some(inner + rest)
  {
    hide Replacement;
  }

  /**
   A() followed by (1) expands to B followed by (1), which expands to 1: the result is not rescanned with what
   follows.
   */
  lemma FunctionLikeNotFixed(fuel: nat)
    requires fuel >= 2
    ensures var input, once := [NAME_A, OPENING, CLOSING, OPENING, ONE, CLOSING], [NAME_B, OPENING, ONE, CLOSING];
      TWO_MACROS.Valid() && Full(TWO_MACROS, fuel, input) == Some(once) && Full(TWO_MACROS, fuel, once) == Some([ONE])
  {
    hide Replacement, Full;
    var input, once := [NAME_A, OPENING, CLOSING, OPENING, ONE, CLOSING], [NAME_B, OPENING, ONE, CLOSING];
    var behind := [OPENING, ONE, CLOSING];
    ReplacedA();
    ReplacedB();
    NormalStays(TWO_MACROS, fuel, behind);
    NameAlone(TWO_MACROS, fuel - 1, NAME_B);
    assert input[3..] == behind && [NAME_B] + behind == once;
    CallThenRest(TWO_MACROS, fuel, input, [NAME_B], [NAME_B], 3, behind);
    NormalStays(TWO_MACROS, fuel - 1, [ONE]);
    NormalStays(TWO_MACROS, fuel, []);
    assert once[4..] == [] && [ONE] + [] == [ONE];
    CallThenRest(TWO_MACROS, fuel, once, [ONE], [ONE], 4, []);
  }

  // #define ID(x) x

  const NAME_ID := Piece(Identifier, "ID", 30, 32)
  const IDENTITY := Table(map["ID" := Definition(["x"], [NAME_X], true)], map[])
  const INNER := [NAME_ID, OPENING, ONE, CLOSING]
  const NESTED := [NAME_ID, OPENING] + INNER + [CLOSING]

  lemma ReplacedIdentity()
    ensures IDENTITY.Valid() && Replacement(IDENTITY, INNER) == Some(([ONE], 4))
  {
    var definition := IDENTITY.definitions["ID"];
    assert INNER[2..3] == [ONE] && [ONE][..0] == [];
    assert Depth([ONE]) == Depth([]) + Nesting(ONE.kind) == 0;
    assert ClosesAt(INNER, 2) == ClosesAt(INNER, 3) == Some(3);
    assert Split([ONE]) == [[ONE]] by {
      assert Split([]) == [[]] && !Separates([ONE], 0);
      assert [] + [ONE] == [ONE];
    }
    FilledIdentity([ONE]);
  }

  lemma FilledIdentity(argument: seq<Piece>)
    ensures Substituted(map[], IDENTITY.definitions["ID"], [argument], 1) == Some(argument)
  {
    var definition := IDENTITY.definitions["ID"];
    assert Substituted(map[], definition, [argument], 0) == Some([]);
    assert Filled(definition, [argument], NAME_X) == argument && [] + argument == argument;
  }

  lemma DepthOfInner()
    ensures Depth(INNER[..1]) == 0 && Depth(INNER[..2]) == 1 && Depth(INNER[..3]) == 1 && Depth(INNER) == 0
  {
    hide Depth;
    var none: seq<Piece> := [];
    var one, two := none + [NAME_ID], none + [NAME_ID] + [OPENING];
    DepthSnoc(none, NAME_ID);
    DepthSnoc(one, OPENING);
    DepthSnoc(two, ONE);
    DepthSnoc(two + [ONE], CLOSING);
    assert one == INNER[..1] && two == INNER[..2] && two + [ONE] == INNER[..3] && two + [ONE] + [CLOSING] == INNER;
  }

  lemma {:induction false} OneArgument(inner: seq<Piece>)
    requires forall i :: 0 <= i < |inner| ==> inner[i].kind != Comma
    ensures Split(inner) == [inner]
    decreases |inner|
  {
    if inner != [] {
      var n := |inner| - 1;
      OneArgument(inner[..n]);
      assert inner[..n] + [inner[n]] == inner;
    }
  }

  lemma NestedCloses()
    ensures ClosesAt(NESTED, 2) == Some(6) && NESTED[2..6] == INNER
  {
    DepthOfInner();
    hide Depth;
    assert NESTED[2..5] == INNER[..3] && NESTED[2..6] == INNER;
    assert ClosesAt(NESTED, 6) == Some(6);
    assert ClosesAt(NESTED, 5) == ClosesAt(NESTED, 6);
    assert ClosesAt(NESTED, 4) == ClosesAt(NESTED, 5);
    assert ClosesAt(NESTED, 3) == ClosesAt(NESTED, 4);
  }

  lemma NestedArguments()
    ensures ArgumentsOf(NESTED) == Some(([INNER], 7))
  {
    NestedCloses();
    OneArgument(INNER);
    hide ClosesAt, Split, Depth;
  }

  lemma ReplacedNested()
    ensures Replacement(IDENTITY, NESTED) == Some((INNER, 7))
  {
    hide ArgumentsOf, Substituted;
    NestedArguments();
    FilledIdentity(INNER);
  }

  /** ID(ID(1)) expands to 1, but on the way ID is met inside its own expansion. */
  lemma NestedCallMeets(fuel: nat)
    requires fuel >= 2
    ensures IDENTITY.Valid() && Full(IDENTITY, fuel, NESTED) == Some([ONE]) && Meets(IDENTITY, fuel, NESTED, {})
  {
    hide Replacement, Full;
    ReplacedIdentity();
    ReplacedNested();
    NormalStays(IDENTITY, fuel - 2, [ONE]);
    NormalStays(IDENTITY, fuel - 1, []);
    NormalStays(IDENTITY, fuel, []);
    assert INNER[4..] == [] && NESTED[7..] == [] && [ONE] + [] == [ONE];
    CallThenRest(IDENTITY, fuel - 1, INNER, [ONE], [ONE], 4, []);
    CallThenRest(IDENTITY, fuel, NESTED, INNER, [ONE], 7, []);
    assert Meets(IDENTITY, fuel - 1, INNER, {"ID"});
  }

  /** So the expander, called with nothing disabled, gives up on a call inside an argument of the same macro. */
  method NestedCallGivesUp() returns (complete: bool)
    ensures !complete && Full(IDENTITY, MAXIMUM_EXPANSION_DEPTH, NESTED) == Some([ONE])
  {
    NestedCallMeets(MAXIMUM_EXPANSION_DEPTH);
    var expander := new Expander(IDENTITY);
    var result := expander.ExpandPieces(NESTED, 0, {});
    complete := expander.complete;
  }

  // #define M() F
  // #define F(x) M()(x)

  const NAME_M := Piece(Identifier, "M", 40, 41)
  const NAME_F := Piece(Identifier, "F", 50, 51)
  const BODY_F := [NAME_M, OPENING, CLOSING, OPENING, NAME_X, CLOSING]
  const RETURNING := Table(map["M" := Definition([], [NAME_F], true), "F" := Definition(["x"], BODY_F, true)], map[])
  const CALL_F := [NAME_F, OPENING, ONE, CLOSING]

  lemma StepSubstituted(
    definition: Definition, arguments: seq<seq<Piece>>, n: nat, before: seq<Piece>, part: seq<Piece>, after: seq<Piece>)
    requires |arguments| == |definition.parameters| && n < |definition.body| && Substitutable(definition.body[n])
    requires Substituted(map[], definition, arguments, n) == Some(before)
    requires Filled(definition, arguments, definition.body[n]) == part && after == before + part
    ensures Substituted(map[], definition, arguments, n + 1) == Some(after)
  {
  }

  lemma FilledPiece(text: string)
    requires text in {"M", "(", ")", "x"}
    ensures ParameterIndex(["x"], text) == if text == "x" then Some(0) else None
  {
    assert |"%" + Digits(0)| >= 1 && ("%" + Digits(0))[0] == '%';
    assert ["x"][..0] == [];
  }

  lemma FilledBody()
    ensures Substituted(map[], RETURNING.definitions["F"], [[ONE]], 6)
      == Some([NAME_M, OPENING, CLOSING, OPENING, ONE, CLOSING])
  {
    hide Substituted, ParameterIndex;
    var f, arguments := RETURNING.definitions["F"], [[ONE]];
    FilledPiece("M");
    FilledPiece("(");
    FilledPiece(")");
    FilledPiece("x");
    NothingSubstituted(f, arguments);
    StepSubstituted(f, arguments, 0, [], [NAME_M], [NAME_M]);
    StepSubstituted(f, arguments, 1, [NAME_M], [OPENING], [NAME_M, OPENING]);
    StepSubstituted(f, arguments, 2, [NAME_M, OPENING], [CLOSING], [NAME_M, OPENING, CLOSING]);
    StepSubstituted(f, arguments, 3, [NAME_M, OPENING, CLOSING], [OPENING], [NAME_M, OPENING, CLOSING, OPENING]);
    StepSubstituted(f, arguments, 4, [NAME_M, OPENING, CLOSING, OPENING], [ONE],
                    [NAME_M, OPENING, CLOSING, OPENING, ONE]);
    StepSubstituted(f, arguments, 5, [NAME_M, OPENING, CLOSING, OPENING, ONE], [CLOSING],
                    [NAME_M, OPENING, CLOSING, OPENING, ONE, CLOSING]);
  }

  lemma NothingSubstituted(definition: Definition, arguments: seq<seq<Piece>>)
    requires |arguments| == |definition.parameters|
    ensures Substituted(map[], definition, arguments, 0) == Some([])
  {
  }

  lemma ReplacedF()
    ensures RETURNING.Valid() && Replacement(RETURNING,
      CALL_F) == Some(([NAME_M, OPENING, CLOSING, OPENING, ONE, CLOSING], 4))
  {
    FilledBody();
    hide Substituted;
    assert CALL_F[2..3] == [ONE] && [ONE][..0] == [];
    assert Depth([ONE]) == Depth([]) + Nesting(ONE.kind) == 0;
    assert ClosesAt(CALL_F, 2) == ClosesAt(CALL_F, 3) == Some(3);
    OneArgument([ONE]);
  }

  lemma ReplacedM()
    ensures Replacement(RETURNING, [NAME_M, OPENING, CLOSING, OPENING, ONE, CLOSING]) == Some(([NAME_F], 3))
  {
    var input, definition := [NAME_M, OPENING, CLOSING, OPENING, ONE, CLOSING], RETURNING.definitions["M"];
    NothingSubstituted(definition, []);
    assert Filled(definition, [], NAME_F) == [NAME_F];
    StepSubstituted(definition, [], 0, [], [NAME_F], [NAME_F]);
    assert input[2..2] == [] && ClosesAt(input, 2) == Some(2);
  }

  /** F(1) has itself as its expansion in full although it starts a call. */
  lemma CallReplacedByItself(fuel: nat)
    requires fuel >= 3
    ensures RETURNING.Valid() && Full(RETURNING, fuel, CALL_F) == Some(CALL_F) && HasCall(RETURNING, CALL_F, |CALL_F|)
  {
    hide Replacement, Full;
    var input, behind := [NAME_M, OPENING, CLOSING, OPENING, ONE, CLOSING], [OPENING, ONE, CLOSING];
    ReplacedF();
    ReplacedM();
    NormalStays(RETURNING, fuel - 1, behind);
    NormalStays(RETURNING, fuel, []);
    NameAlone(RETURNING, fuel - 2, NAME_F);
    assert input[3..] == behind && CALL_F[4..] == [] && [NAME_F] + behind == CALL_F && CALL_F + [] == CALL_F;
    CallThenRest(RETURNING, fuel - 1, input, [NAME_F], [NAME_F], 3, behind);
    CallThenRest(RETURNING, fuel, CALL_F, input, CALL_F, 4, []);
    assert CALL_F[0..] == CALL_F && !Stays(RETURNING, CALL_F[0..]);
  }

  // #define SUB(x, y) x-y

  const NAME_SUB := Piece(Identifier, "SUB", 60, 63)
  const NAME_Y := Piece(Identifier, "y", 72, 73)
  const MINUS := Piece(OtherKind(1), "-", 71, 72)
  const COMMA := Piece(Comma, ",", 5, 6)
  const THREE := Piece(OtherKind(0), "3", 6, 7)
  const SUBTRACT :=
    Table(map["SUB" := Definition(["x", "y"], [Piece(Identifier, "x", 70, 71), MINUS, NAME_Y], true)], map[])

  /** The first argument takes the place of the first parameter: SUB(1,3) is replaced by 1-3. */
  lemma ArgumentsInPlace()
    ensures SUBTRACT.Valid()
    ensures Replacement(SUBTRACT, [NAME_SUB, OPENING, ONE, COMMA, THREE, CLOSING]) == Some(([ONE, MINUS, THREE], 6))
  {
    hide Replacement;
    var input := [NAME_SUB, OPENING, ONE, COMMA, THREE, CLOSING];
    TwoArguments();
    SubtractBody();
    ReplacementOf(SUBTRACT, input, [[ONE], [THREE]], 6, [ONE, MINUS, THREE]);
  }

  lemma ReplacementOf(table: Table, input: seq<Piece>, arguments: seq<seq<Piece>>, consumed: nat, result: seq<Piece>)
    requires table.Valid() && input != [] && table.Names(input[0]) && table.definitions[input[0].text].isFunction
    requires ArgumentsOf(input) == Some((arguments, consumed))
    requires var definition := table.definitions[input[0].text];
      |arguments| == |definition.parameters|
      && Substituted(table.glued, definition, arguments, |definition.body|) == Some(result)
    ensures Replacement(table, input) == Some((result, consumed))
  {
    hide ArgumentsOf, Substituted;
  }

  lemma TwoArguments()
    ensures ArgumentsOf([NAME_SUB, OPENING, ONE, COMMA, THREE, CLOSING]) == Some(([[ONE], [THREE]], 6))
  {
    var input := [NAME_SUB, OPENING, ONE, COMMA, THREE, CLOSING];
    var none: seq<Piece> := [];
    DepthSnoc(none, ONE);
    DepthSnoc([ONE], COMMA);
    DepthSnoc([ONE, COMMA], THREE);
    hide Depth;
    assert none + [ONE] == [ONE] && [ONE] + [COMMA] == [ONE, COMMA] && [ONE, COMMA] + [THREE] == [ONE, COMMA, THREE];
    assert input[2..5] == [ONE, COMMA, THREE];
    assert ClosesAt(input, 5) == Some(5);
    assert ClosesAt(input, 2) == ClosesAt(input, 3) == ClosesAt(input, 4) == ClosesAt(input, 5);
    SplitAtComma();
  }

  lemma SplitAtComma()
    ensures Split([ONE, COMMA, THREE]) == [[ONE], [THREE]]
  {
    OneArgument([ONE]);
    var none: seq<Piece> := [];
    DepthSnoc(none, ONE);
    assert none + [ONE] == [ONE];
    hide Depth;
    assert [ONE, COMMA][..1] == [ONE] && Separates([ONE, COMMA], 1);
    assert Split([ONE, COMMA]) == [[ONE], []];
    assert [ONE, COMMA, THREE][..2] == [ONE, COMMA] && !Separates([ONE, COMMA, THREE], 2);
    assert none + [THREE] == [THREE];
  }

  lemma SubtractBody()
    ensures SUBTRACT.Valid()
    ensures Substituted(map[], SUBTRACT.definitions["SUB"], [[ONE], [THREE]], 3) == Some([ONE, MINUS, THREE])
  {
    var d, arguments := SUBTRACT.definitions["SUB"], [[ONE], [THREE]];
    NothingSubstituted(d, arguments);
    TwoNames("x");
    TwoNames("-");
    TwoNames("y");
    hide Substituted, ParameterIndex;
    StepSubstituted(d, arguments, 0, [], [ONE], [ONE]);
    StepSubstituted(d, arguments, 1, [ONE], [MINUS], [ONE, MINUS]);
    StepSubstituted(d, arguments, 2, [ONE, MINUS], [THREE], [ONE, MINUS, THREE]);
  }

  lemma TwoNames(text: string)
    requires text in {"x", "-", "y"}
    ensures ParameterIndex(["x", "y"], text) == if text == "y" then Some(1) else if text == "x" then Some(0) else None
  {
    assert |"%" + Digits(0)| >= 1 && ("%" + Digits(0))[0] == '%';
    assert |"%" + Digits(1)| >= 1 && ("%" + Digits(1))[0] == '%';
    assert ["x", "y"][..1] == ["x"] && ["x"][..0] == [];
  }
}
