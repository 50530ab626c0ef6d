/** Applying the text edits that fixes ask for. */
module Fixes {
  import opened Wrappers
  import opened Strings

  datatype Edit = Edit(start: int, end: int, text: string)

  // ----- The order of edits -----

  predicate Precedes(a: Edit, b: Edit) {
    || a.start < b.start
    || (a.start == b.start && (a.end < b.end || (a.end == b.end && Less(a.text, b.text))))
  }

  predicate UpTo(a: Edit, b: Edit) {
    a == b || Precedes(a, b)
  }

  lemma PrecedesIsTotal(a: Edit, b: Edit)
    ensures UpTo(a, b) || Precedes(b, a)
  {
    LessIsTotal(a.text, b.text);
  }

  lemma UpToTransitive(a: Edit, b: Edit, c: Edit)
    requires UpTo(a, b) && UpTo(b, c)
    ensures UpTo(a, c)
  {
    if Less(a.text, b.text) && Less(b.text, c.text) {
      LessTransitive(a.text, b.text, c.text);
    }
  }

  predicate Sorted(edits: seq<Edit>) {
    forall i, j :: 0 <= i < j < |edits| ==> UpTo(edits[i], edits[j])
  }

  function Inserted(edit: Edit, sorted: seq<Edit>): (r: seq<Edit>)
    ensures forall e :: e in r <==> e == edit || e in sorted
  {
    if sorted == [] || UpTo(edit, sorted[0]) then [edit] + sorted
    else
      var rest := Inserted(edit, sorted[1..]);
      assert forall e :: e in sorted <==> e == sorted[0] || e in sorted[1..];
      [sorted[0]] + rest
  }

  lemma {:induction false} InsertedIsSorted(edit: Edit, sorted: seq<Edit>)
    requires Sorted(sorted)
    ensures Sorted(Inserted(edit, sorted))
  {
    hide UpTo;
    if sorted == [] {
    } else if UpTo(edit, sorted[0]) {
      forall j | 0 <= j < |sorted| ensures UpTo(edit, sorted[j]) {
        if j > 0 {
          UpToTransitive(edit, sorted[0], sorted[j]);
        }
      }
    } else {
      InsertedIsSorted(edit, sorted[1..]);
      var rest := Inserted(edit, sorted[1..]);
      NotUpTo(edit, sorted[0]);
      forall j | 0 <= j < |rest| ensures UpTo(sorted[0], rest[j]) {
        assert rest[j] in rest;
        if rest[j] != edit {
          var k :| 0 <= k < |sorted[1..]| && sorted[1..][k] == rest[j];
          assert rest[j] == sorted[k + 1];
        }
      }
    }
  }

  lemma NotUpTo(a: Edit, b: Edit)
    ensures UpTo(a, b) || UpTo(b, a)
  {
    PrecedesIsTotal(a, b);
  }

  method SortEdits(edits: seq<Edit>) returns (sorted: seq<Edit>)
    ensures Sorted(sorted) && forall e :: e in sorted <==> e in edits
  {
    sorted := [];
    for i := 0 to |edits|
      invariant Sorted(sorted) && forall e :: e in sorted <==> e in edits[..i]
    {
      InsertedIsSorted(edits[i], sorted);
      sorted := Inserted(edits[i], sorted);
      assert edits[..i + 1] == edits[..i] + [edits[i]];
    }
    assert edits[..|edits|] == edits;
  }

  // ----- Which edits go together -----

  predicate InBounds(edit: Edit, size: nat) {
    0 <= edit.start <= edit.end <= size
  }

  /** Two edits that start at different places and do not overlap. */
  predicate Apart(a: Edit, b: Edit) {
    a.start != b.start && (a.end <= b.start || b.end <= a.start)
  }

  ghost predicate Acceptable(edits: set<Edit>, size: nat) {
    && (forall e :: e in edits ==> InBounds(e, size))
    && (forall a, b :: a in edits && b in edits && a != b ==> Apart(a, b))
  }

  /** Two edits go together exactly if neither starts where the other does or inside what the other replaces. */
  lemma ApartMeans(a: Edit, b: Edit, size: nat)
    requires InBounds(a, size) && InBounds(b, size)
    ensures Apart(a, b) <==>
      a.start != b.start && !(a.start <= b.start < a.end) && !(b.start <= a.start < b.end)
  {
  }

  /** Edits from left to right, each after the end of the one before. */
  predicate InOrder(edits: seq<Edit>, size: nat) {
    && (forall i :: 0 <= i < |edits| ==> InBounds(edits[i], size))
    && (forall i :: 0 <= i < |edits| - 1 ==> edits[i].end <= edits[i + 1].start && edits[i].start < edits[i + 1].start)
  }

  ghost function SetOf(edits: seq<Edit>): set<Edit> {
    set e | e in edits
  }

  lemma SetOfSnoc(edits: seq<Edit>, edit: Edit)
    ensures SetOf(edits + [edit]) == SetOf(edits) + {edit}
    ensures edit in edits ==> SetOf(edits) + {edit} == SetOf(edits)
  {
  }

  lemma {:induction false} InOrderIsApart(edits: seq<Edit>, size: nat, i: nat, j: nat)
    requires InOrder(edits, size) && i < j < |edits|
    ensures edits[i].end <= edits[j].start && edits[i].start < edits[j].start
    decreases j - i
  {
    if i + 1 < j {
      InOrderIsApart(edits, size, i, j - 1);
      assert InBounds(edits[j - 1], size);
    }
  }

  lemma InOrderIsAcceptable(edits: seq<Edit>, size: nat)
    requires InOrder(edits, size)
    ensures Acceptable(SetOf(edits), size)
  {
    forall a, b | a in SetOf(edits) && b in SetOf(edits) && a != b ensures Apart(a, b) {
      var i :| 0 <= i < |edits| && edits[i] == a;
      var j :| 0 <= j < |edits| && edits[j] == b;
      if i < j {
        InOrderIsApart(edits, size, i, j);
      } else {
        InOrderIsApart(edits, size, j, i);
      }
    }
  }

  /** Edits are refused exactly if one is out of bounds or two of them clash; repeated edits count once. */
  method ValidateEdits(size: nat, edits: seq<Edit>) returns (result: Option<seq<Edit>>)
    ensures result.Some? <==> Acceptable(SetOf(edits), size)
    ensures result.Some? ==> InOrder(result.value, size) && SetOf(result.value) == SetOf(edits)
  {
    hide UpTo;
    var sorted := SortEdits(edits);
    var accepted: seq<Edit> := [];
    for i := 0 to |sorted|
      invariant InOrder(accepted, size) && SetOf(accepted) == SetOf(sorted[..i])
      invariant i == 0 ==> accepted == []
      invariant i > 0 ==> |accepted| > 0 && accepted[|accepted| - 1] == sorted[i - 1]
    {
      var edit := sorted[i];
      assert edit in sorted && edit in edits;
      assert sorted[..i + 1] == sorted[..i] + [edit];
      SetOfSnoc(sorted[..i], edit);
      SetOfSnoc(accepted, edit);
      if edit.start < 0 || edit.end < edit.start || edit.end > size {
        assert edit in SetOf(edits) && !InBounds(edit, size);
        return None;
      }
      if accepted != [] {
        var previous := accepted[|accepted| - 1];
        assert previous == sorted[i - 1] && previous in sorted;
        if edit == previous {
          continue;
        }
        StartsRise(sorted, i);
        if edit.start < previous.end || edit.start == previous.start {
          assert previous in SetOf(edits) && edit in SetOf(edits);
          NotApart(previous, edit, size);
          return None;
        }
      }
      accepted := accepted + [edit];
    }
    assert sorted[..|sorted|] == sorted;
    InOrderIsAcceptable(accepted, size);
    result := Some(accepted);
  }

  lemma StartsRise(sorted: seq<Edit>, i: nat)
    requires Sorted(sorted) && 0 < i < |sorted|
    ensures sorted[i - 1].start <= sorted[i].start
  {
    assert UpTo(sorted[i - 1], sorted[i]);
  }

  lemma NotApart(previous: Edit, edit: Edit, size: nat)
    requires edit != previous && previous.start <= edit.start <= edit.end
    requires edit.start < previous.end || edit.start == previous.start
    ensures !Apart(previous, edit)
  {
  }

  // ----- Splicing -----

  /** The text with all edits made, from left to right: kept stretches and replacements. */
  function Rewritten(source: string, edits: seq<Edit>, from: nat): string
    requires from <= |source| && InOrder(edits, |source|) && (edits != [] ==> from <= edits[0].start)
    decreases |edits|
  {
    if edits == [] then source[from..]
    else
      assert |edits| > 1 ==> edits[0].end <= edits[1].start;
      source[from..edits[0].start] + edits[0].text + Rewritten(source, edits[1..], edits[0].end)
  }

  lemma RewrittenFrom(source: string, edits: seq<Edit>, from: nat, later: nat)
    requires from <= later <= |source| && InOrder(edits, |source|) && (edits != [] ==> later <= edits[0].start)
    ensures Rewritten(source, edits, from) == source[from..later] + Rewritten(source, edits, later)
  {
    if edits != [] {
      var start, text := edits[0].start, edits[0].text;
      var rest := Rewritten(source, edits[1..], edits[0].end);
      assert Rewritten(source, edits, from) == source[from..start] + text + rest;
      assert Rewritten(source, edits, later) == source[later..start] + text + rest;
      hide Rewritten;
      Regroup(source[from..start], source[from..later], source[later..start], text, rest);
    } else {
      assert source[from..] == source[from..later] + source[later..];
    }
  }

  lemma Regroup(whole: string, first: string, second: string, text: string, rest: string)
    requires |whole| == |first| + |second| && whole[..|first|] == first && whole[|first|..] == second
    ensures whole + text + rest == first + (second + text + rest)
  {
    assert whole == first + second;
  }

  /** Splicing from right to left makes the text that one pass from left to right would write. */
  method Splice(source: string, edits: seq<Edit>) returns (updated: string)
    requires InOrder(edits, |source|)
    ensures updated == Rewritten(source, edits, 0)
  {
    updated := source;
    var i := |edits|;
    ghost var at := |source|;
    assert edits[i..] == [];
    while i > 0
      invariant 0 <= i <= |edits| && at <= |source|
      invariant i < |edits| ==> at == edits[i].start
      invariant i == |edits| ==> at == |source|
      invariant InOrder(edits[i..], |source|)
      invariant updated == source[..at] + Rewritten(source, edits[i..], at)
    {
      i := i - 1;
      var edit := edits[i];
      assert InBounds(edit, |source|);
      SpliceOne(source, edits, i, at, updated);
      updated := updated[..edit.start] + edit.text + updated[edit.end..];
      at := edit.start;
    }
    assert edits[0..] == edits;
    RewrittenFrom(source, edits, 0, at);
    assert source[..at] == source[0..at];
  }

  lemma SpliceOne(source: string, edits: seq<Edit>, i: nat, at: nat, updated: string)
    requires i < |edits| && InOrder(edits, |source|) && at <= |source|
    requires at == if i + 1 < |edits| then edits[i + 1].start else |source|
    requires updated == source[..at] + Rewritten(source, edits[i + 1..], at)
    ensures InBounds(edits[i], |source|) && edits[i].end <= at <= |updated|
    ensures InOrder(edits[i..], |source|)
    ensures updated[..edits[i].start] + edits[i].text + updated[edits[i].end..]
      == source[..edits[i].start] + Rewritten(source, edits[i..], edits[i].start)
  {
    var edit, rest := edits[i], edits[i + 1..];
    assert InBounds(edit, |source|);
    RewrittenFrom(source, rest, edit.end, at);
    RewrittenHere(source, edits, i);
    hide Rewritten, InOrder, InBounds;
    var right := Rewritten(source, rest, at);
    CutAt(source[..at], right, edit.start, edit.end);
    assert source[..at][..edit.start] == source[..edit.start];
    assert source[..at][edit.end..] == source[edit.end..at];
    var tail := Rewritten(source, rest, edit.end);
    assert source[..edit.start] + edit.text + tail == source[..edit.start] + (edit.text + tail);
  }

  lemma CutAt(left: string, right: string, start: nat, end: nat)
    requires start <= end <= |left|
    ensures (left + right)[..start] == left[..start] && (left + right)[end..] == left[end..] + right
  {
  }

  lemma RewrittenHere(source: string, edits: seq<Edit>, i: nat)
    requires i < |edits| && InOrder(edits, |source|)
    ensures InBounds(edits[i], |source|) && InOrder(edits[i..], |source|) && InOrder(edits[i + 1..], |source|)
    ensures i + 1 < |edits| ==> edits[i].end <= edits[i + 1].start
    ensures Rewritten(source, edits[i..], edits[i].start) == edits[i].text + Rewritten(source, edits[i + 1..],
      edits[i].end)
  {
    assert InBounds(edits[i], |source|);
    assert edits[i..][1..] == edits[i + 1..];
    assert source[edits[i].start..edits[i].start] == "";
    assert "" + edits[i].text == edits[i].text;
  }

  function Growth(edits: seq<Edit>): int {
    if edits == [] then 0 else |edits[0].text| - (edits[0].end - edits[0].start) + Growth(edits[1..])
  }

  lemma {:induction false} LengthOfRewritten(source: string, edits: seq<Edit>, from: nat)
    requires from <= |source| && InOrder(edits, |source|) && (edits != [] ==> from <= edits[0].start)
    ensures |Rewritten(source, edits, from)| == |source| - from + Growth(edits)
    decreases |edits|
  {
    if edits != [] {
      assert |edits| > 1 ==> edits[0].end <= edits[1].start;
      LengthOfRewritten(source, edits[1..], edits[0].end);
    }
  }

  /** The order in which edits are collected does not matter: their set decides the list they are applied in. */
  lemma {:induction false} OrderIsUnique(a: seq<Edit>, b: seq<Edit>, size: nat)
    requires InOrder(a, size) && InOrder(b, size) && SetOf(a) == SetOf(b)
    ensures a == b
    decreases |a|
  {
    hide InBounds;
    SameEmptiness(a, b);
    SameEmptiness(b, a);
    if a != [] {
      FirstIsLeast(a, size);
      FirstIsLeast(b, size);
      assert a[0] in SetOf(a) && b[0] in SetOf(b);
      assert a[0] in SetOf(b) && b[0] in SetOf(a);
      assert a[0] == b[0];
      assert SetOf(a[1..]) == SetOf(a) - {a[0]} && SetOf(b[1..]) == SetOf(b) - {b[0]};
      OrderIsUnique(a[1..], b[1..], size);
      assert a == [a[0]] + a[1..] && b == [b[0]] + b[1..];
    }
  }

  lemma SameEmptiness(a: seq<Edit>, b: seq<Edit>)
    requires SetOf(a) <= SetOf(b)
    ensures a != [] ==> b != []
  {
    if a != [] {
      assert a[0] in SetOf(a);
    }
  }

  lemma FirstIsLeast(edits: seq<Edit>, size: nat)
    requires InOrder(edits, size) && edits != []
    ensures forall e :: e in SetOf(edits) ==> e == edits[0] || edits[0].start < e.start
    ensures SetOf(edits[1..]) == SetOf(edits) - {edits[0]}
  {
    forall e | e in SetOf(edits) ensures e == edits[0] || edits[0].start < e.start {
      var i :| 0 <= i < |edits| && edits[i] == e;
      if i > 0 {
        InOrderIsApart(edits, size, 0, i);
      }
    }
    forall i | 0 < i < |edits| ensures edits[i] != edits[0] {
      InOrderIsApart(edits, size, 0, i);
    }
    assert edits == [edits[0]] + edits[1..];
  }

  // ----- All files -----

  /** A finding in a file, with the edits of its fix if it has one. */
  datatype Finding = Finding(path: nat, fix: Option<seq<Edit>>)

  datatype Change = Change(path: nat, before: string, after: string)

  ghost function EditsOf(findings: seq<Finding>, path: nat): set<Edit> {
    set f, e | f in findings && f.path == path && f.fix.Some? && e in f.fix.value :: e
  }

  /** What a file becomes: the one text that making all the edits leaves. */
  ghost predicate IsOutcome(source: string, edits: set<Edit>, after: string) {
    exists list :: InOrder(list, |source|) && SetOf(list) == edits && after == Rewritten(source, list, 0)
  }

  lemma OutcomeIsUnique(source: string, edits: set<Edit>, a: string, b: string)
    requires IsOutcome(source, edits, a) && IsOutcome(source, edits, b)
    ensures a == b
  {
    var x :| InOrder(x, |source|) && SetOf(x) == edits && a == Rewritten(source, x, 0);
    var y :| InOrder(y, |source|) && SetOf(y) == edits && b == Rewritten(source, y, 0);
    OrderIsUnique(x, y, |source|);
  }

  /** Every fix has a source to apply to, and the edits of each file go together. */
  ghost predicate CanApply(sources: map<nat, string>, findings: seq<Finding>) {
    && (forall f :: f in findings && f.fix.Some? ==> f.path in sources)
    && (forall path :: path in sources ==> Acceptable(EditsOf(findings, path), |sources[path]|))
  }

  method CollectEdits(sources: map<nat, string>, findings: seq<Finding>) returns (byPath: Option<map<nat, seq<Edit>>>)
    ensures byPath.Some? <==> forall f :: f in findings && f.fix.Some? ==> f.path in sources
    ensures byPath.Some? ==> forall path :: path in byPath.value ==>
      path in sources && SetOf(byPath.value[path]) == EditsOf(findings, path)
    ensures byPath.Some? ==> forall path :: path !in byPath.value ==> EditsOf(findings, path) == {}
  {
    var edits: map<nat, seq<Edit>> := map[];
    for i := 0 to |findings|
      invariant forall f :: f in findings[..i] && f.fix.Some? ==> f.path in sources
      invariant forall path :: path in edits ==> path in sources
      invariant forall path :: SetOf(if path in edits then edits[path] else []) == EditsOf(findings[..i], path)
    {
      var finding := findings[i];
      assert findings[..i + 1] == findings[..i] + [finding] && finding in findings;
      CollectOne(findings[..i], finding);
      if finding.fix == None {
        continue;
      }
      if finding.path !in sources {
        return None;
      }
      var had := if finding.path in edits then edits[finding.path] else [];
      SetOfBoth(had, finding.fix.value);
      edits := edits[finding.path := had + finding.fix.value];
    }
    assert findings[..|findings|] == findings;
    byPath := Some(edits);
  }

  lemma SetOfBoth(a: seq<Edit>, b: seq<Edit>)
    ensures SetOf(a + b) == SetOf(a) + SetOf(b)
  {
  }

  ghost function OwnEdits(finding: Finding, path: nat): set<Edit> {
    if finding.path == path && finding.fix.Some? then SetOf(finding.fix.value) else {}
  }

  lemma CollectOne(findings: seq<Finding>, finding: Finding)
    ensures forall path :: EditsOf(findings + [finding], path) == EditsOf(findings, path) + OwnEdits(finding, path)
  {
    forall path: nat ensures EditsOf(findings + [finding], path) == EditsOf(findings, path) + OwnEdits(finding, path) {
      var more := findings + [finding];
      assert finding in more && forall f :: f in more <==> f in findings || f == finding;
    }
  }

  ghost predicate Changes(sources: map<nat, string>, findings: seq<Finding>, path: nat, change: Change) {
    && path in sources && change.path == path && change.before == sources[path] != change.after
    && IsOutcome(sources[path], EditsOf(findings, path), change.after)
  }

  /**
   A plan is refused exactly if its fixes cannot all be applied; otherwise it changes the files
   whose text changes, each to the outcome of all its edits.
   */
  method Build(sources: map<nat, string>, findings: seq<Finding>) returns (plan: Option<map<nat, Change>>)
    ensures plan.Some? <==> CanApply(sources, findings)
    ensures plan.Some? ==> forall path :: path in plan.value ==> Changes(sources, findings, path, plan.value[path])
    ensures plan.Some? ==> forall path :: path in sources && path !in plan.value ==>
      IsOutcome(sources[path], EditsOf(findings, path), sources[path])
  {
    var collected := CollectEdits(sources, findings);
    if collected == None {
      return None;
    }
    var byPath := collected.value;
    var changes: map<nat, Change> := map[];
    var left := byPath.Keys;
    while left != {}
      invariant left <= byPath.Keys
      invariant forall path :: path in byPath && path !in left ==> Acceptable(EditsOf(findings, path), |sources[path]|)
      invariant forall path :: path in changes ==>
        path in byPath && path !in left && Changes(sources, findings, path, changes[path])
      invariant forall path :: path in byPath && path !in left && path !in changes ==>
        IsOutcome(sources[path], EditsOf(findings, path), sources[path])
      decreases left
    {
      var path :| path in left;
      var source := sources[path];
      var edits := ValidateEdits(|source|, byPath[path]);
      if edits == None {
        return None;
      }
      var updated := Splice(source, edits.value);
      assert IsOutcome(source, EditsOf(findings, path), updated);
      if source != updated {
        changes := changes[path := Change(path, source, updated)];
      }
      left := left - {path};
    }
    forall path | path in sources && path !in byPath
      ensures Acceptable(EditsOf(findings, path), |sources[path]|)
        && IsOutcome(sources[path], EditsOf(findings, path), sources[path])
    {
      NoEdits(sources[path]);
    }
    plan := Some(changes);
  }

  lemma NoEdits(source: string)
    ensures Acceptable({}, |source|) && IsOutcome(source, {}, source)
  {
    assert InOrder([], |source|) && SetOf([]) == {} && source == Rewritten(source, [], 0);
  }
}
