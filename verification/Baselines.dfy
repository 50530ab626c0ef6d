/** Fingerprints of diagnostics, and what a baseline leaves over from a later run. */
module Baselines {
  import opened Wrappers

  /**
   A diagnostic; `base` stands for what its fingerprint is made from (path, rule, code, message
   and excerpt). Only eligible ones get a fingerprint.
   */
  datatype Diagnostic = Diagnostic(eligible: bool, base: nat)

  /** The hash is taken to be injective, so a fingerprint is what it is made from. */
  datatype Fingerprint = Fingerprint(base: nat, occurrence: nat)

  /** Every position once, in the order in which diagnostics are counted. */
  ghost predicate IsOrder(order: seq<nat>, n: nat) {
    && |order| == n && (forall i: nat :: i < n ==> i in order)
    && (forall i :: 0 <= i < n ==> order[i] < n)
    && (forall i, j :: 0 <= i < j < n ==> order[i] != order[j])
  }

  predicate Has(d: Diagnostic, base: nat) {
    d.eligible && d.base == base
  }

  /** How many of the first n diagnostics in the order have the base. */
  ghost function CountIn(diagnostics: seq<Diagnostic>, order: seq<nat>, n: nat, base: nat): nat
    requires IsOrder(order, |diagnostics|) && n <= |order|
  {
    if n == 0 then 0 else CountIn(diagnostics, order, n - 1, base) + if Has(diagnostics[order[n - 1]], base) then 1
      else 0
  }

  ghost function Indices(diagnostics: seq<Diagnostic>, base: nat): set<nat> {
    set i: nat | i < |diagnostics| && Has(diagnostics[i], base)
  }

  /** How many diagnostics have the base. */
  ghost function Count(diagnostics: seq<Diagnostic>, base: nat): nat {
    |Indices(diagnostics, base)|
  }

  ghost function Placed(diagnostics: seq<Diagnostic>, order: seq<nat>, n: nat, base: nat): set<nat>
    requires IsOrder(order, |diagnostics|) && n <= |order|
  {
    set k: nat | k < n && Has(diagnostics[order[k]], base) :: order[k]
  }

  lemma {:induction false} CountInIsPlaced(diagnostics: seq<Diagnostic>, order: seq<nat>, n: nat, base: nat)
    requires IsOrder(order, |diagnostics|) && n <= |order|
    ensures CountIn(diagnostics, order, n, base) == |Placed(diagnostics, order, n, base)|
  {
    if n > 0 {
      CountInIsPlaced(diagnostics, order, n - 1, base);
      var before := Placed(diagnostics, order, n - 1, base);
      if Has(diagnostics[order[n - 1]], base) {
        assert order[n - 1] !in before;
        assert Placed(diagnostics, order, n, base) == before + {order[n - 1]};
      } else {
        assert Placed(diagnostics, order, n, base) == before;
      }
    }
  }

  lemma CountInIsCount(diagnostics: seq<Diagnostic>, order: seq<nat>, base: nat)
    requires IsOrder(order, |diagnostics|)
    ensures CountIn(diagnostics, order, |order|, base) == Count(diagnostics, base)
  {
    CountInIsPlaced(diagnostics, order, |order|, base);
    forall i | i in Indices(diagnostics, base) ensures i in Placed(diagnostics, order, |order|, base) {
      assert i in order;
    }
    assert Placed(diagnostics, order, |order|, base) == Indices(diagnostics, base);
  }

  lemma {:induction false} CountInGrows(diagnostics: seq<Diagnostic>, order: seq<nat>, m: nat, n: nat, base: nat)
    requires IsOrder(order, |diagnostics|) && m <= n <= |order|
    ensures CountIn(diagnostics, order, m, base) <= CountIn(diagnostics, order, n, base)
    decreases n - m
  {
    if m < n {
      CountInGrows(diagnostics, order, m, n - 1, base);
    }
  }

  /** The fingerprint of the diagnostic at a place in the order: how many with its base came before it. */
  ghost function PrintAt(diagnostics: seq<Diagnostic>, order: seq<nat>, k: nat): Option<Fingerprint>
    requires IsOrder(order, |diagnostics|) && k < |order|
  {
    var d := diagnostics[order[k]];
    if d.eligible then Some(Fingerprint(d.base, CountIn(diagnostics, order, k, d.base))) else None
  }

  ghost predicate ArePrints(diagnostics: seq<Diagnostic>, order: seq<nat>, entries: seq<Option<Fingerprint>>,
      indexed: map<nat, nat>) {
    && IsOrder(order, |diagnostics|) && |entries| == |order|
    && (forall k :: 0 <= k < |order| ==> entries[k] == PrintAt(diagnostics, order, k))
    && (forall k :: 0 <= k < |order| ==> order[k] in indexed && indexed[order[k]] == k)
  }

  method FingerprintDiagnostics(diagnostics: seq<Diagnostic>, order: seq<nat>)
    returns (entries: seq<Option<Fingerprint>>, indexed: map<nat, nat>)
    requires IsOrder(order, |diagnostics|)
    ensures ArePrints(diagnostics, order, entries, indexed)
  {
    entries, indexed := [], map[];
    var occurrences: map<nat, nat> := map[];
    for k := 0 to |order|
      invariant |entries| == k
      invariant forall j :: 0 <= j < k ==> entries[j] == PrintAt(diagnostics, order, j)
      invariant forall j :: 0 <= j < k ==> order[j] in indexed && indexed[order[j]] == j
      invariant forall base :: CountIn(diagnostics, order, k, base) == if base in occurrences then occurrences[base]
        else 0
    {
      var d := diagnostics[order[k]];
      indexed := indexed[order[k] := k];
      if !d.eligible {
        entries := entries + [None];
        continue;
      }
      var occurrence := if d.base in occurrences then occurrences[d.base] else 0;
      occurrences := occurrences[d.base := occurrence + 1];
      entries := entries + [Some(Fingerprint(d.base, occurrence))];
    }
  }

  /** The fingerprints of a run: for each base, as many as there are diagnostics with it. */
  ghost predicate InRun(diagnostics: seq<Diagnostic>, f: Fingerprint) {
    f.occurrence < Count(diagnostics, f.base)
  }

  lemma {:induction false} PrintWithOccurrence(diagnostics: seq<Diagnostic>, order: seq<nat>, n: nat,
      f: Fingerprint) returns (k: nat)
    requires IsOrder(order, |diagnostics|) && n <= |order| && f.occurrence < CountIn(diagnostics, order, n, f.base)
    ensures k < n && PrintAt(diagnostics, order, k) == Some(f)
  {
    if f.occurrence < CountIn(diagnostics, order, n - 1, f.base) {
      k := PrintWithOccurrence(diagnostics, order, n - 1, f);
    } else {
      k := n - 1;
    }
  }

  lemma PrintsDiffer(diagnostics: seq<Diagnostic>, order: seq<nat>, j: nat, k: nat)
    requires IsOrder(order, |diagnostics|) && j < k < |order| && PrintAt(diagnostics, order, j).Some?
    ensures PrintAt(diagnostics, order, j) != PrintAt(diagnostics, order, k)
  {
    CountInGrows(diagnostics, order, j + 1, k, diagnostics[order[j]].base);
  }

  lemma PrintIsInRun(diagnostics: seq<Diagnostic>, order: seq<nat>, k: nat)
    requires IsOrder(order, |diagnostics|) && k < |order| && PrintAt(diagnostics, order, k).Some?
    ensures InRun(diagnostics, PrintAt(diagnostics, order, k).value)
  {
    var base := diagnostics[order[k]].base;
    CountInGrows(diagnostics, order, k + 1, |order|, base);
    CountInIsCount(diagnostics, order, base);
  }

  ghost predicate NoRepeats(entries: seq<Fingerprint>) {
    forall i, j :: 0 <= i < j < |entries| ==> entries[i] != entries[j]
  }

  /** A baseline holds every fingerprint of its run once, whatever order the diagnostics came in. */
  method Generate(diagnostics: seq<Diagnostic>, order: seq<nat>) returns (file: seq<Fingerprint>)
    requires IsOrder(order, |diagnostics|)
    ensures IsBaselineOf(file, diagnostics)
  {
    var entries, indexed := FingerprintDiagnostics(diagnostics, order);
    hide InRun, PrintAt, CountIn;
    file := [];
    for k := 0 to |entries|
      invariant NoRepeats(file)
      invariant forall f :: f in file <==> exists j :: 0 <= j < k && entries[j] == Some(f)
    {
      if entries[k].Some? {
        forall j | 0 <= j < k && entries[j].Some? ensures entries[j] != entries[k] {
          PrintsDiffer(diagnostics, order, j, k);
        }
        file := file + [entries[k].value];
      }
    }
    forall f ensures f in file <==> InRun(diagnostics, f) {
      RunIsPrinted(diagnostics, order, f);
    }
  }

  lemma RunIsPrinted(diagnostics: seq<Diagnostic>, order: seq<nat>, f: Fingerprint)
    requires IsOrder(order, |diagnostics|)
    ensures InRun(diagnostics, f) <==> exists k :: 0 <= k < |order| && PrintAt(diagnostics, order, k) == Some(f)
  {
    CountInIsCount(diagnostics, order, f.base);
    if InRun(diagnostics, f) {
      var k := PrintWithOccurrence(diagnostics, order, |order|, f);
    }
    if k :| 0 <= k < |order| && PrintAt(diagnostics, order, k) == Some(f) {
      PrintIsInRun(diagnostics, order, k);
    }
  }

  // ----- Applying a baseline -----

  /** The diagnostics at the given positions, in the order of the input. */
  function Selected(diagnostics: seq<Diagnostic>, kept: set<nat>, n: nat): seq<Diagnostic>
    requires n <= |diagnostics|
  {
    if n == 0 then []
    else Selected(diagnostics, kept, n - 1) + if n - 1 in kept then [diagnostics[n - 1]] else []
  }

  ghost predicate Keeps(file: seq<Fingerprint>, diagnostics: seq<Diagnostic>, order: seq<nat>, k: nat)
    requires IsOrder(order, |diagnostics|) && k < |order|
  {
    var own := PrintAt(diagnostics, order, k);
    own == None || own.value !in file
  }

  ghost function Kept(file: seq<Fingerprint>, diagnostics: seq<Diagnostic>, order: seq<nat>): set<nat>
    requires IsOrder(order, |diagnostics|)
  {
    set k: nat | k < |order| && Keeps(file, diagnostics, order, k) :: order[k]
  }

  /**
   What stays is every diagnostic whose fingerprint is not in the baseline; what the baseline has in vain is
   stale.
   */
  method Apply(file: seq<Fingerprint>, diagnostics: seq<Diagnostic>, order: seq<nat>)
    returns (remaining: seq<Diagnostic>, current: set<Fingerprint>, stale: int)
    requires IsOrder(order, |diagnostics|)
    ensures remaining == Selected(diagnostics, Kept(file, diagnostics, order), |diagnostics|)
    ensures forall f :: f in current <==> f in file && InRun(diagnostics, f)
    ensures stale == |file| - |current|
  {
    hide InRun, PrintAt, CountIn, Kept, Seen, ArePrints, IsOrder;
    var entries, indexed := FingerprintDiagnostics(diagnostics, order);
    NothingSeen(diagnostics, order);
    var existing := set f | f in file;
    remaining, current := [], {};
    for i := 0 to |diagnostics|
      invariant remaining == Selected(diagnostics, Kept(file, diagnostics, order), i)
      invariant forall f :: f in current <==> f in file && Seen(diagnostics, order, i, f)
    {
      IndexedAt(diagnostics, order, entries, indexed, i);
      var k := indexed[i];
      KeptAt(file, diagnostics, order, k);
      SeenNext(diagnostics, order, k);
      if entries[k] == None || entries[k].value !in existing {
        remaining := remaining + [diagnostics[i]];
      } else {
        current := current + {entries[k].value};
      }
    }
    stale := |file| - |current|;
    forall f ensures f in current <==> f in file && InRun(diagnostics, f) {
      AllSeen(diagnostics, order, f);
    }
  }

  /** One of the first n diagnostics of the input has the fingerprint. */
  ghost predicate Seen(diagnostics: seq<Diagnostic>, order: seq<nat>, n: nat, f: Fingerprint)
    requires IsOrder(order, |diagnostics|)
  {
    exists k :: 0 <= k < |order| && order[k] < n && PrintAt(diagnostics, order, k) == Some(f)
  }

  lemma NothingSeen(diagnostics: seq<Diagnostic>, order: seq<nat>)
    requires IsOrder(order, |diagnostics|)
    ensures forall f :: !Seen(diagnostics, order, 0, f)
  {
  }

  lemma IndexedAt(diagnostics: seq<Diagnostic>, order: seq<nat>, entries: seq<Option<Fingerprint>>,
      indexed: map<nat, nat>, i: nat)
    requires ArePrints(diagnostics, order, entries, indexed) && i < |diagnostics|
    ensures i in indexed && indexed[i] < |order| == |entries| && order[indexed[i]] == i
    ensures entries[indexed[i]] == PrintAt(diagnostics, order, indexed[i])
  {
    assert i in order;
  }

  lemma KeptAt(file: seq<Fingerprint>, diagnostics: seq<Diagnostic>, order: seq<nat>, k: nat)
    requires IsOrder(order, |diagnostics|) && k < |order|
    ensures order[k] in Kept(file, diagnostics, order) <==> Keeps(file, diagnostics, order, k)
  {
  }

  lemma AllSeen(diagnostics: seq<Diagnostic>, order: seq<nat>, f: Fingerprint)
    requires IsOrder(order, |diagnostics|)
    ensures Seen(diagnostics, order, |diagnostics|, f) <==> InRun(diagnostics, f)
  {
    RunIsPrinted(diagnostics, order, f);
  }

  lemma SeenNext(diagnostics: seq<Diagnostic>, order: seq<nat>, k: nat)
    requires IsOrder(order, |diagnostics|) && k < |order|
    ensures forall f :: Seen(diagnostics, order, order[k] + 1, f) <==>
      (Seen(diagnostics, order, order[k], f) || PrintAt(diagnostics, order, k) == Some(f))
  {
    hide PrintAt;
  }

  // ----- The counting law -----

  ghost function KeptWith(diagnostics: seq<Diagnostic>, kept: set<nat>, base: nat): set<nat> {
    set i | i in kept && i < |diagnostics| && Has(diagnostics[i], base)
  }

  /** How many of the first n in the order have the base and stay, when the baseline has `covered` of them. */
  ghost function Over(diagnostics: seq<Diagnostic>, order: seq<nat>, n: nat, base: nat, covered: nat): set<nat>
    requires IsOrder(order, |diagnostics|) && n <= |order|
  {
    set k: nat | k < n && Has(diagnostics[order[k]], base) && CountIn(diagnostics, order, k, base) >= covered ::
        order[k]
  }

  lemma {:induction false} OverCount(diagnostics: seq<Diagnostic>, order: seq<nat>, n: nat, base: nat, covered: nat)
    requires IsOrder(order, |diagnostics|) && n <= |order|
    ensures var total := CountIn(diagnostics, order, n, base);
      |Over(diagnostics, order, n, base, covered)| == if total > covered then total - covered else 0
  {
    hide IsOrder, Over;
    if n == 0 {
      NothingOver(diagnostics, order, base, covered);
    } else {
      OverCount(diagnostics, order, n - 1, base, covered);
      OverNext(diagnostics, order, n, base, covered);
    }
  }

  lemma NothingOver(diagnostics: seq<Diagnostic>, order: seq<nat>, base: nat, covered: nat)
    requires IsOrder(order, |diagnostics|)
    ensures Over(diagnostics, order, 0, base, covered) == {}
  {
  }

  lemma OverNext(diagnostics: seq<Diagnostic>, order: seq<nat>, n: nat, base: nat, covered: nat)
    requires IsOrder(order, |diagnostics|) && 0 < n <= |order|
    ensures var before := Over(diagnostics, order, n - 1, base, covered);
      Over(diagnostics, order, n, base, covered) ==
        if Has(diagnostics[order[n - 1]], base) && CountIn(diagnostics, order, n - 1, base) >= covered
          then before + {order[n - 1]}
        else before
    ensures order[n - 1] !in Over(diagnostics, order, n - 1, base, covered)
  {
    hide CountIn;
  }

  /** By how much the first number of diagnostics with the base exceeds the second. */
  ghost function Excess(a: seq<Diagnostic>, b: seq<Diagnostic>, base: nat): nat {
    if Count(a, base) > Count(b, base) then Count(a, base) - Count(b, base) else 0
  }

  ghost predicate IsBaselineOf(file: seq<Fingerprint>, run: seq<Diagnostic>) {
    NoRepeats(file) && forall f :: f in file <==> InRun(run, f)
  }

  /** At how many positions a diagnostic with the base is kept, and that nothing without a fingerprint is dropped. */
  lemma PositionsKept(first: seq<Diagnostic>, file: seq<Fingerprint>, second: seq<Diagnostic>, order: seq<nat>,
      base: nat)
    requires IsOrder(order, |second|) && IsBaselineOf(file, first)
    ensures |KeptWith(second, Kept(file, second, order), base)| == Excess(second, first, base)
    ensures forall i :: 0 <= i < |second| && !second[i].eligible ==> i in Kept(file, second, order)
  {
    var kept, covered := Kept(file, second, order), Count(first, base);
    OverCount(second, order, |order|, base, covered);
    CountInIsCount(second, order, base);
    forall i | 0 <= i < |second| ensures i in KeptWith(second, kept, base) <==>
        i in Over(second, order, |order|, base, covered) {
      assert i in order;
      var k :| 0 <= k < |order| && order[k] == i;
      KeptAt(file, second, order, k);
    }
    assert KeptWith(second, kept, base) == Over(second, order, |order|, base, covered);
    forall i | 0 <= i < |second| && !second[i].eligible ensures i in kept {
      assert i in order;
      var k :| 0 <= k < |order| && order[k] == i;
      assert Keeps(file, second, order, k);
    }
  }

  lemma CountSnoc(diagnostics: seq<Diagnostic>, d: Diagnostic, base: nat)
    ensures Count(diagnostics + [d], base) == Count(diagnostics, base) + if Has(d, base) then 1 else 0
  {
    var before, after := Indices(diagnostics, base), Indices(diagnostics + [d], base);
    if Has(d, base) {
      assert after == before + {|diagnostics|};
    } else {
      assert after == before;
    }
  }

  /** Where the first n diagnostics have the base and are kept. */
  ghost function KeptBelow(diagnostics: seq<Diagnostic>, kept: set<nat>, n: nat, base: nat): set<nat>
    requires n <= |diagnostics|
  {
    set i | i in kept && i < n && Has(diagnostics[i], base)
  }

  lemma KeptBelowNext(diagnostics: seq<Diagnostic>, kept: set<nat>, n: nat, base: nat)
    requires 0 < n <= |diagnostics|
    ensures |KeptBelow(diagnostics, kept, n, base)| == |KeptBelow(diagnostics, kept, n - 1, base)|
      + if n - 1 in kept && Has(diagnostics[n - 1], base) then 1 else 0
  {
    var before, after := KeptBelow(diagnostics, kept, n - 1, base), KeptBelow(diagnostics, kept, n, base);
    if n - 1 in kept && Has(diagnostics[n - 1], base) {
      assert after == before + {n - 1};
    } else {
      assert after == before;
    }
  }

  lemma NothingKeptBelow(diagnostics: seq<Diagnostic>, kept: set<nat>, base: nat)
    ensures Count([], base) == |KeptBelow(diagnostics, kept, 0, base)| == 0
  {
    assert Indices([], base) == {} && KeptBelow(diagnostics, kept, 0, base) == {};
  }

  lemma {:induction false} CountSelected(diagnostics: seq<Diagnostic>, kept: set<nat>, n: nat, base: nat)
    requires n <= |diagnostics|
    ensures Count(Selected(diagnostics, kept, n), base) == |KeptBelow(diagnostics, kept, n, base)|
    decreases n
  {
    hide Count, KeptBelow, Has;
    if n == 0 {
      NothingKeptBelow(diagnostics, kept, base);
    } else {
      var before := Selected(diagnostics, kept, n - 1);
      CountSelected(diagnostics, kept, n - 1, base);
      KeptBelowNext(diagnostics, kept, n, base);
      CountSnoc(before, diagnostics[n - 1], base);
      assert Selected(diagnostics, kept, n) == if n - 1 in kept then before + [diagnostics[n - 1]] else before;
    }
  }

  /** The diagnostics without a fingerprint, in order. */
  function Unprinted(diagnostics: seq<Diagnostic>): seq<Diagnostic> {
    if diagnostics == [] then []
    else
      var last := diagnostics[|diagnostics| - 1];
      Unprinted(diagnostics[..|diagnostics| - 1]) + if last.eligible then [] else [last]
  }

  lemma {:induction false} UnprintedSelected(diagnostics: seq<Diagnostic>, kept: set<nat>, n: nat)
    requires n <= |diagnostics| && forall i :: 0 <= i < |diagnostics| && !diagnostics[i].eligible ==> i in kept
    ensures Unprinted(Selected(diagnostics, kept, n)) == Unprinted(diagnostics[..n])
    decreases n
  {
    if n > 0 {
      UnprintedSelected(diagnostics, kept, n - 1);
      UnprintedSnoc(Selected(diagnostics, kept, n - 1), diagnostics[n - 1]);
      UnprintedSnoc(diagnostics[..n - 1], diagnostics[n - 1]);
      assert diagnostics[..n] == diagnostics[..n - 1] + [diagnostics[n - 1]];
      var before := Selected(diagnostics, kept, n - 1);
      assert Selected(diagnostics, kept, n) == if n - 1 in kept then before + [diagnostics[n - 1]] else before;
    } else {
      assert diagnostics[..n] == [];
    }
  }

  lemma UnprintedSnoc(diagnostics: seq<Diagnostic>, d: Diagnostic)
    ensures Unprinted(diagnostics + [d]) == Unprinted(diagnostics) + if d.eligible then [] else [d]
  {
    assert (diagnostics + [d])[..|diagnostics|] == diagnostics;
  }

  /**
   Applying the baseline of one run to another returns, of each base, the excess over the first
   run, and everything that has no fingerprint in its order.
   */
  lemma CountingLaw(first: seq<Diagnostic>, file: seq<Fingerprint>, second: seq<Diagnostic>, order: seq<nat>, base: nat)
    requires IsOrder(order, |second|) && IsBaselineOf(file, first)
    ensures var remaining := Selected(second, Kept(file, second, order), |second|);
      Count(remaining, base) == Excess(second, first, base) && Unprinted(remaining) == Unprinted(second)
  {
    hide Kept, Keeps;
    var kept := Kept(file, second, order);
    PositionsKept(first, file, second, order, base);
    CountSelected(second, kept, |second|, base);
    assert KeptWith(second, kept, base) == KeptBelow(second, kept, |second|, base);
    UnprintedSelected(second, kept, |second|);
    assert second[..|second|] == second;
  }

  // ----- Stale entries -----

  /** The excess of the first run over the second, summed over the bases below n. */
  ghost function ExcessBelow(first: seq<Diagnostic>, second: seq<Diagnostic>, n: nat): nat {
    if n == 0 then 0 else ExcessBelow(first, second, n - 1) + Excess(first, second, n - 1)
  }

  predicate BasesBelow(diagnostics: seq<Diagnostic>, n: nat) {
    forall d :: d in diagnostics && d.eligible ==> d.base < n
  }

  ghost predicate IsStale(first: seq<Diagnostic>, second: seq<Diagnostic>, f: Fingerprint) {
    Count(second, f.base) <= f.occurrence < Count(first, f.base)
  }

  lemma {:induction false} PrintsBetween(base: nat, lo: nat, hi: nat) returns (prints: set<Fingerprint>)
    ensures forall f :: f in prints <==> f.base == base && lo <= f.occurrence < hi
    ensures |prints| == if hi > lo then hi - lo else 0
    decreases hi
  {
    if hi <= lo {
      prints := {};
    } else {
      var fewer := PrintsBetween(base, lo, hi - 1);
      prints := fewer + {Fingerprint(base, hi - 1)};
    }
  }

  /** For each base as many fingerprints are stale as the first run exceeds the second. */
  lemma StaleOfBase(first: seq<Diagnostic>, second: seq<Diagnostic>, base: nat, stale: set<Fingerprint>)
    requires forall f :: f in stale <==> f.base == base && IsStale(first, second, f)
    ensures |stale| == Excess(first, second, base)
  {
    var prints := PrintsBetween(base, Count(second, base), Count(first, base));
    assert stale == prints;
  }

  lemma {:induction false} StaleBelow(first: seq<Diagnostic>, second: seq<Diagnostic>, n: nat, stale: set<Fingerprint>)
    requires forall f :: f in stale <==> f.base < n && IsStale(first, second, f)
    ensures |stale| == ExcessBelow(first, second, n)
    decreases n
  {
    hide IsStale, Excess;
    if n == 0 {
      assert stale == {};
    } else {
      var own := set f | f in stale && f.base == n - 1;
      StaleBelow(first, second, n - 1, stale - own);
      StaleOfBase(first, second, n - 1, own);
      assert stale == (stale - own) + own;
    }
  }

  lemma NoCountAbove(diagnostics: seq<Diagnostic>, n: nat, base: nat)
    requires BasesBelow(diagnostics, n) && base >= n
    ensures Count(diagnostics, base) == 0
  {
    assert Indices(diagnostics, base) == {};
  }

  /** The number of stale entries is the excess of the first run over the second, summed over all bases. */
  lemma StaleLaw(first: seq<Diagnostic>, file: seq<Fingerprint>, second: seq<Diagnostic>, current: set<Fingerprint>,
      n: nat)
    requires IsBaselineOf(file, first) && BasesBelow(first, n)
    requires forall f :: f in current <==> f in file && InRun(second, f)
    ensures |file| - |current| == ExcessBelow(first, second, n)
  {
    var all := set f | f in file;
    SizeWithoutRepeats(file);
    assert current <= all;
    forall f ensures f in all - current <==> f.base < n && IsStale(first, second, f) {
      if f.base >= n { NoCountAbove(first, n, f.base); }
    }
    StaleBelow(first, second, n, all - current);
  }

  lemma {:induction false} SizeWithoutRepeats(file: seq<Fingerprint>)
    requires NoRepeats(file)
    ensures |set f | f in file| == |file|
    decreases |file|
  {
    if file != [] {
      var front, last := file[..|file| - 1], file[|file| - 1];
      SizeWithoutRepeats(front);
      assert file == front + [last] && last !in front;
      assert (set f | f in file) == (set f | f in front) + {last};
    }
  }

  /** What the baseline of one run does to another, whatever the order in which either is counted. */
  method ApplyGenerated(first: seq<Diagnostic>, order: seq<nat>, second: seq<Diagnostic>, order': seq<nat>)
    returns (remaining: seq<Diagnostic>, stale: int)
    requires IsOrder(order, |first|) && IsOrder(order', |second|)
    ensures forall base :: Count(remaining, base) == Excess(second, first, base)
    ensures Unprinted(remaining) == Unprinted(second)
    ensures forall n: nat :: BasesBelow(first, n) ==> stale == ExcessBelow(first, second, n)
  {
    hide IsOrder, InRun, Kept, Count, Excess, ExcessBelow, BasesBelow, NoRepeats;
    var file := Generate(first, order);
    var current;
    remaining, current, stale := Apply(file, second, order');
    forall base: nat ensures Count(remaining, base) == Excess(second, first, base)
        && Unprinted(remaining) == Unprinted(second) {
      CountingLaw(first, file, second, order', base);
    }
    assert Unprinted(remaining) == Unprinted(second) by { CountingLaw(first, file, second, order', 0); }
    forall n: nat | BasesBelow(first, n) ensures stale == ExcessBelow(first, second, n) {
      StaleLaw(first, file, second, current, n);
    }
  }

  // ----- The order of what remains -----

  /** The positions that were picked: below a bound, rising, and exactly those kept. */
  ghost predicate IsPick(picks: seq<nat>, kept: set<nat>, n: nat) {
    && (forall i, j :: 0 <= i < j < |picks| ==> picks[i] < picks[j])
    && forall i: nat :: i in picks <==> i in kept && i < n
  }

  ghost predicate ArePicked(diagnostics: seq<Diagnostic>, picks: seq<nat>, selected: seq<Diagnostic>) {
    && |picks| == |selected|
    && forall k :: 0 <= k < |picks| ==> picks[k] < |diagnostics| && selected[k] == diagnostics[picks[k]]
  }

  lemma PickNone(diagnostics: seq<Diagnostic>, kept: set<nat>)
    ensures IsPick([], kept, 0) && ArePicked(diagnostics, [], Selected(diagnostics, kept, 0))
  {
  }

  lemma PickOneMore(picks: seq<nat>, kept: set<nat>, n: nat) returns (more: seq<nat>)
    requires IsPick(picks, kept, n)
    ensures more == if n in kept then picks + [n] else picks
    ensures IsPick(more, kept, n + 1)
  {
    more := if n in kept then picks + [n] else picks;
    forall k | 0 <= k < |picks| ensures picks[k] < n {
      assert picks[k] in picks;
    }
    forall i: nat ensures i in more <==> i in kept && i < n + 1 {
      assert i in picks <==> i in kept && i < n;
    }
  }

  lemma SelectedNext(diagnostics: seq<Diagnostic>, kept: set<nat>, n: nat, picks: seq<nat>)
    requires n < |diagnostics| && ArePicked(diagnostics, picks, Selected(diagnostics, kept, n))
    ensures ArePicked(diagnostics, if n in kept then picks + [n] else picks, Selected(diagnostics, kept, n + 1))
  {
    var before, after := Selected(diagnostics, kept, n), Selected(diagnostics, kept, n + 1);
    assert after == if n in kept then before + [diagnostics[n]] else before;
  }

  /** What is returned are the diagnostics at the kept positions, each once and in the order of the input. */
  lemma {:induction false} SelectedInOrder(diagnostics: seq<Diagnostic>, kept: set<nat>, n: nat)
    returns (picks: seq<nat>)
    requires n <= |diagnostics|
    ensures IsPick(picks, kept, n) && ArePicked(diagnostics, picks, Selected(diagnostics, kept, n))
    decreases n
  {
    hide *;
    if n == 0 {
      picks := [];
      PickNone(diagnostics, kept);
    } else {
      var before := SelectedInOrder(diagnostics, kept, n - 1);
      picks := PickOneMore(before, kept, n - 1);
      SelectedNext(diagnostics, kept, n - 1, before);
    }
  }
}
