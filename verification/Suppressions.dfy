/** Deciding whether a diagnostic is suppressed by the comments before it. */
module Suppressions {
  import opened Wrappers

  datatype Kind = Disable | Enable | DisableNextLine

  datatype Directive = Directive(kind: Kind, all: bool, ids: seq<string>, line: int) {
    predicate MatchesRule(rule: string) {
      all || rule in ids
    }
  }

  // ----- Opening and closing -----

  /** An opening or a closing of one suppression, by the directive at an index. */
  datatype Event = Event(owner: nat, opens: bool)

  /** The openings left over from the first n events when every closing takes the last opening before it. */
  ghost function LeftOpen(events: seq<Event>, n: nat): (stack: seq<nat>)
    requires n <= |events|
    ensures forall h :: 0 <= h < |stack| ==> stack[h] < n
  {
    if n == 0 then []
    else
      var before := LeftOpen(events, n - 1);
      if events[n - 1].opens then before + [n - 1] else if before == [] then [] else before[..|before| - 1]
  }

  /** How many more openings than closings there are between two positions. */
  ghost function Balance(events: seq<Event>, from: nat, upTo: nat): int
    requires upTo <= |events|
    decreases upTo
  {
    if upTo <= from then 0
    else if events[upTo - 1].opens then Balance(events, from, upTo - 1) + 1
    else Balance(events, from, upTo - 1) - 1
  }

  /** Behind this opening there are never more closings than openings to match them. */
  ghost predicate NeverClosed(events: seq<Event>, n: nat, p: nat)
    requires n <= |events|
  {
    p < n && events[p].opens && StaysAbove(events, p + 1, n)
  }

  ghost predicate StaysAbove(events: seq<Event>, from: nat, n: nat)
    requires n <= |events|
  {
    forall q: nat :: from <= q <= n ==> Balance(events, from, q) >= 0
  }

  /** An opening on the stack is never closed, and as many are above it as the balance behind it says. */
  lemma {:induction false} OnStack(events: seq<Event>, n: nat, h: nat)
    requires n <= |events| && h < |LeftOpen(events, n)|
    ensures var p := LeftOpen(events, n)[h];
      NeverClosed(events, n, p) && Balance(events, p + 1, n) == |LeftOpen(events, n)| - 1 - h
  {
    var before := LeftOpen(events, n - 1);
    if h < |before| {
      OnStack(events, n - 1, h);
    }
  }

  lemma {:induction false} NeverClosedIsOnStack(events: seq<Event>, n: nat, p: nat) returns (h: nat)
    requires n <= |events| && NeverClosed(events, n, p)
    ensures h < |LeftOpen(events, n)| && LeftOpen(events, n)[h] == p
  {
    if p == n - 1 {
      h := |LeftOpen(events, n - 1)|;
    } else {
      h := NeverClosedIsOnStack(events, n - 1, p);
      OnStack(events, n - 1, h);
      assert Balance(events, p + 1, n) >= 0;
    }
  }

  /** What the stack keeps is exactly the openings that are never closed. */
  lemma LeftOpenMeans(events: seq<Event>, n: nat, p: nat)
    requires n <= |events|
    ensures p in LeftOpen(events, n) <==> NeverClosed(events, n, p)
  {
    if p in LeftOpen(events, n) {
      var h :| 0 <= h < |LeftOpen(events, n)| && LeftOpen(events, n)[h] == p;
      OnStack(events, n, h);
    }
    if NeverClosed(events, n, p) {
      var h := NeverClosedIsOnStack(events, n, p);
    }
  }

  // ----- Directives -----

  /** Where in the list the directives behind a line start. */
  ghost function UpToLine(directives: seq<Directive>, line: int): (n: nat)
    ensures n <= |directives|
    ensures forall i :: 0 <= i < n ==> directives[i].line <= line
    ensures n < |directives| ==> directives[n].line > line
  {
    if directives == [] || directives[0].line > line then 0 else 1 + UpToLine(directives[1..], line)
  }

  /** The openings and closings that the first k names of a directive make for a rule. */
  ghost function NameEvents(d: Directive, index: nat, rule: string, k: nat): seq<Event>
    requires k <= |d.ids|
  {
    if k == 0 then []
    else if d.ids[k - 1] == rule then NameEvents(d, index, rule, k - 1) + [Event(index, d.kind == Disable)]
    else NameEvents(d, index, rule, k - 1)
  }

  /** What a directive opens or closes: for all rules together, or for a rule by its name. */
  ghost function EventsOf(d: Directive, index: nat, rule: Option<string>): seq<Event> {
    if d.kind == DisableNextLine then []
    else match rule
      case None => if d.all then [Event(index, d.kind == Disable)] else []
      case Some(name) => NameEvents(d, index, name, |d.ids|)
  }

  ghost function EventsFor(directives: seq<Directive>, n: nat, rule: Option<string>): seq<Event>
    requires n <= |directives|
  {
    if n == 0 then [] else EventsFor(directives, n - 1, rule) + EventsOf(directives[n - 1], n - 1, rule)
  }

  /** How often the directive names the rule. */
  ghost function NamedTimes(ids: seq<string>, rule: string): nat {
    if ids == [] then 0 else NamedTimes(ids[..|ids| - 1], rule) + if ids[|ids| - 1] == rule then 1 else 0
  }

  lemma {:induction false} NameEventsMean(d: Directive, index: nat, rule: string, k: nat)
    requires k <= |d.ids|
    ensures |NameEvents(d, index, rule, k)| == NamedTimes(d.ids[..k], rule)
    ensures forall e :: e in NameEvents(d, index, rule, k) ==> e.owner == index && (e.opens <==> d.kind == Disable)
    decreases k
  {
    if k > 0 {
      NameEventsMean(d, index, rule, k - 1);
      assert d.ids[..k][..k - 1] == d.ids[..k - 1];
    }
  }

  /**
   A disable opens and an enable closes, and a next-line directive does neither: the suppression of all rules
   once if it is about all, and that of a rule as often as it names it.
   */
  lemma EventsMean(d: Directive, index: nat, rule: string)
    ensures d.kind == DisableNextLine ==> EventsOf(d, index, None) == EventsOf(d, index, Some(rule)) == []
    ensures d.kind != DisableNextLine ==>
      && |EventsOf(d, index, None)| == (if d.all then 1 else 0)
      && |EventsOf(d, index, Some(rule))| == NamedTimes(d.ids, rule)
    ensures forall e :: e in EventsOf(d, index, None) + EventsOf(d, index, Some(rule)) ==>
      e.owner == index && (e.opens <==> d.kind == Disable)
  {
    NameEventsMean(d, index, rule, |d.ids|);
    assert d.ids[..|d.ids|] == d.ids;
  }

  /** A directive is about a rule if it is about all rules or names it. */
  lemma MatchesMeans(d: Directive, rule: string)
    ensures d.MatchesRule(rule) <==> d.all || NamedTimes(d.ids, rule) > 0
  {
    NamedIff(d.ids, rule);
  }

  lemma {:induction false} NamedIff(ids: seq<string>, rule: string)
    ensures NamedTimes(ids, rule) > 0 <==> rule in ids
    decreases |ids|
  {
    if ids != [] {
      NamedIff(ids[..|ids| - 1], rule);
      assert ids == ids[..|ids| - 1] + [ids[|ids| - 1]];
    }
  }

  /** The directive opens a suppression of all rules, or of this rule, that nothing up to the line closes. */
  ghost predicate Holds(directives: seq<Directive>, rule: string, line: int, i: nat) {
    var n := UpToLine(directives, line);
    OwnsOpen(EventsFor(directives, n, None), i) || OwnsOpen(EventsFor(directives, n, Some(rule)), i)
  }

  ghost predicate OwnsOpen(events: seq<Event>, i: nat) {
    exists p: nat :: NeverClosed(events, |events|, p) && events[p].owner == i
  }

  /** The owners of the openings left over, oldest first. */
  ghost function Owners(events: seq<Event>): (owners: seq<nat>) {
    var stack := LeftOpen(events, |events|);
    seq(|stack|, h requires 0 <= h < |stack| => events[stack[h]].owner)
  }

  lemma {:induction false} SamePrefix(events: seq<Event>, more: seq<Event>, n: nat)
    requires n <= |events|
    ensures LeftOpen(events + more, n) == LeftOpen(events, n)
  {
    if n > 0 {
      SamePrefix(events, more, n - 1);
    }
  }

  lemma OwnersSnoc(events: seq<Event>, e: Event)
    ensures var owners := Owners(events);
      Owners(events + [e]) == if e.opens then owners + [e.owner] else if owners == [] then []
          else owners[..|owners| - 1]
  {
    SamePrefix(events, [e], |events|);
  }

  lemma OwnersMean(events: seq<Event>, i: nat)
    ensures i in Owners(events) <==> OwnsOpen(events, i)
  {
    var stack := LeftOpen(events, |events|);
    if i in Owners(events) {
      var h :| 0 <= h < |stack| && events[stack[h]].owner == i;
      OnStack(events, |events|, h);
    }
    if p: nat :| NeverClosed(events, |events|, p) && events[p].owner == i {
      var h := NeverClosedIsOnStack(events, |events|, p);
      assert Owners(events)[h] == i;
    }
  }

  function StackOf(active: map<string, seq<nat>>, rule: string): seq<nat> {
    if rule in active then active[rule] else []
  }

  /** Opens or closes a suppression for every name in the directive, in order. */
  method UpdateNames(active: map<string, seq<nat>>, d: Directive, index: nat, ghost rule: string,
      ghost events: seq<Event>)
    returns (updated: map<string, seq<nat>>)
    requires d.kind != DisableNextLine && StackOf(active, rule) == Owners(events)
    ensures StackOf(updated, rule) == Owners(events + EventsOf(d, index, Some(rule)))
  {
    hide Owners;
    updated := active;
    assert events + [] == events;
    for k := 0 to |d.ids|
      invariant StackOf(updated, rule) == Owners(events + NameEvents(d, index, rule, k))
    {
      var id := d.ids[k];
      if id == rule {
        OwnersSnoc(events + NameEvents(d, index, rule, k), Event(index, d.kind == Disable));
        assert events + (NameEvents(d, index, rule, k) + [Event(index, d.kind == Disable)])
          == events + NameEvents(d, index, rule, k) + [Event(index, d.kind == Disable)];
      }
      var stack := StackOf(updated, id);
      if d.kind == Disable {
        updated := updated[id := stack + [index]];
      } else if |stack| > 0 {
        updated := updated[id := stack[..|stack| - 1]];
      }
    }
  }

  method UpdateAll(activeAll: seq<nat>, d: Directive, index: nat, ghost events: seq<Event>) returns (updated: seq<nat>)
    requires d.kind != DisableNextLine && activeAll == Owners(events)
    ensures updated == Owners(events + EventsOf(d, index, None))
  {
    updated := activeAll;
    if !d.all {
      assert events + [] == events;
      return;
    }
    OwnersSnoc(events, Event(index, d.kind == Disable));
    if d.kind == Disable {
      updated := activeAll + [index];
    } else if |activeAll| > 0 {
      updated := activeAll[..|activeAll| - 1];
    }
  }

  ghost function Marks(used: array?<bool>): set<array<bool>> {
    if used == null then {} else {used}
  }

  method MarkUsed(used: array<bool>, active: seq<nat>)
    requires forall h :: 0 <= h < |active| ==> active[h] < used.Length
    modifies used
    ensures forall i :: 0 <= i < used.Length ==> used[i] == (old(used[i]) || i in active)
  {
    for h := 0 to |active|
      invariant forall i :: 0 <= i < used.Length ==> used[i] == (old(used[i]) || i in active[..h])
    {
      used[active[h]] := true;
      assert active[..h + 1] == active[..h] + [active[h]];
    }
    assert active[..|active|] == active;
  }

  lemma {:induction false} OwnersExist(directives: seq<Directive>, n: nat, rule: Option<string>, p: nat)
    requires n <= |directives| && p < |EventsFor(directives, n, rule)|
    ensures EventsFor(directives, n, rule)[p].owner < n
  {
    var before := EventsFor(directives, n - 1, rule);
    if p < |before| {
      OwnersExist(directives, n - 1, rule, p);
    } else if rule.Some? && directives[n - 1].kind != DisableNextLine {
      NamesOwned(directives[n - 1], n - 1, rule.value, |directives[n - 1].ids|, p - |before|);
    }
  }

  lemma {:induction false} NamesOwned(d: Directive, index: nat, rule: string, k: nat, p: nat)
    requires k <= |d.ids| && p < |NameEvents(d, index, rule, k)|
    ensures NameEvents(d, index, rule, k)[p].owner == index
  {
    if p < |NameEvents(d, index, rule, k - 1)| {
      NamesOwned(d, index, rule, k - 1, p);
    }
  }

  /**
   The diagnostic is suppressed exactly if some suppression of its rule, or of all rules, is open
   at its line, and exactly the directives that opened those are marked. Marking changes no answer.
   */
  method BlockSuppresses(directives: seq<Directive>, used: array?<bool>, rule: string,
      line: int) returns (suppressed: bool)
    requires used != null ==> used.Length == |directives|
    modifies Marks(used)
    ensures suppressed <==> exists i :: Holds(directives, rule, line, i)
    ensures used != null ==> forall i :: 0 <= i < used.Length ==>
      used[i] == (old(used[i]) || Holds(directives, rule, line, i))
  {
    hide EventsFor, EventsOf, Owners, UpToLine;
    var activeAll, activeNames := OpenAt(directives, rule, line);
    var active := StackOf(activeNames, rule);
    ghost var n := UpToLine(directives, line);
    OwnersInRange(directives, n, None);
    OwnersInRange(directives, n, Some(rule));
    forall i: nat ensures Holds(directives, rule, line, i) <==> i in activeAll || i in active {
      OwnersMean(EventsFor(directives, n, None), i);
      OwnersMean(EventsFor(directives, n, Some(rule)), i);
    }
    if |activeAll| == 0 && |active| == 0 {
      return false;
    }
    ghost var witness' := if |activeAll| > 0 then activeAll[0] else active[0];
    assert Holds(directives, rule, line, witness');
    if used != null {
      MarkUsed(used, activeAll);
      MarkUsed(used, active);
    }
    suppressed := true;
  }

  method OpenAt(directives: seq<Directive>, rule: string, line: int)
    returns (activeAll: seq<nat>, active: map<string, seq<nat>>)
    ensures var n := UpToLine(directives, line);
      activeAll == Owners(EventsFor(directives, n, None))
          && StackOf(active, rule) == Owners(EventsFor(directives, n, Some(rule)))
  {
    activeAll, active := [], map[];
    NoEvents(directives, None);
    NoEvents(directives, Some(rule));
    hide Owners, EventsOf, EventsFor, UpToLine;
    var i := 0;
    while i < |directives| && directives[i].line <= line
      invariant 0 <= i <= |directives|
      invariant forall j :: 0 <= j < i ==> directives[j].line <= line
      invariant activeAll == Owners(EventsFor(directives, i, None))
      invariant StackOf(active, rule) == Owners(EventsFor(directives, i, Some(rule)))
    {
      var d := directives[i];
      NextEvents(directives, i, None);
      NextEvents(directives, i, Some(rule));
      if d.kind != DisableNextLine {
        activeAll := UpdateAll(activeAll, d, i, EventsFor(directives, i, None));
        active := UpdateNames(active, d, i, rule, EventsFor(directives, i, Some(rule)));
      }
      i := i + 1;
    }
    LineReached(directives, line, i);
  }

  lemma NoEvents(directives: seq<Directive>, rule: Option<string>)
    ensures Owners(EventsFor(directives, 0, rule)) == []
  {
  }

  lemma NextEvents(directives: seq<Directive>, i: nat, rule: Option<string>)
    requires i < |directives|
    ensures EventsFor(directives, i + 1, rule) == EventsFor(directives, i, rule) + EventsOf(directives[i], i, rule)
    ensures directives[i].kind == DisableNextLine ==>
      EventsFor(directives, i + 1, rule) == EventsFor(directives, i, rule)
  {
  }

  lemma OwnersInRange(directives: seq<Directive>, n: nat, rule: Option<string>)
    requires n <= |directives|
    ensures forall h :: 0 <= h < |Owners(EventsFor(directives, n, rule))| ==>
      Owners(EventsFor(directives, n, rule))[h] < |directives|
  {
    var events := EventsFor(directives, n, rule);
    forall h | 0 <= h < |Owners(events)| ensures Owners(events)[h] < |directives| {
      OwnersExist(directives, n, rule, LeftOpen(events, |events|)[h]);
    }
  }

  lemma {:induction false} LineReached(directives: seq<Directive>, line: int, i: nat)
    requires i <= |directives| && forall j :: 0 <= j < i ==> directives[j].line <= line
    requires i < |directives| ==> directives[i].line > line
    ensures UpToLine(directives, line) == i
  {
    if i > 0 {
      LineReached(directives[1..], line, i - 1);
    }
  }

  /** In a list sorted by line, the directives that count are those not behind the line. */
  lemma SortedLines(directives: seq<Directive>, line: int, i: nat)
    requires forall j, k :: 0 <= j < k < |directives| ==> directives[j].line <= directives[k].line
    requires i < |directives|
    ensures i < UpToLine(directives, line) <==> directives[i].line <= line
  {
    hide UpToLine;
    var n := UpToLine(directives, line);
    assert n <= i ==> directives[n].line <= directives[i].line;
  }

  /** A next-line directive for the rule on the line before. */
  predicate NextLine(directives: seq<Directive>, rule: string, line: int, i: nat) {
    i < |directives| && directives[i].kind == DisableNextLine && directives[i].MatchesRule(rule)
        && directives[i].line + 1 == line
  }

  ghost predicate Suppressing(directives: seq<Directive>, rule: string, line: int, i: nat) {
    if exists j :: NextLine(directives, rule, line, j) then
      NextLine(directives, rule, line, i) && forall j :: 0 <= j < i ==> !NextLine(directives, rule, line, j)
    else Holds(directives, rule, line, i)
  }

  /** The first next-line directive that fits decides alone; otherwise the open suppressions do. */
  method IsSuppressed(directives: seq<Directive>, used: array?<bool>, rule: string,
      line: int) returns (suppressed: bool)
    requires used != null ==> used.Length == |directives|
    modifies Marks(used)
    ensures suppressed <==>
      (exists i :: NextLine(directives, rule, line, i)) || (exists i :: Holds(directives, rule, line, i))
    ensures used != null ==>
      forall i :: 0 <= i < used.Length ==> used[i] == (old(used[i]) || Suppressing(directives, rule, line, i))
  {
    for i := 0 to |directives|
      invariant forall j :: 0 <= j < i ==> !NextLine(directives, rule, line, j)
      invariant used != null ==> forall j :: 0 <= j < used.Length ==> used[j] == old(used[j])
    {
      var d := directives[i];
      if d.kind != DisableNextLine || !d.MatchesRule(rule) {
        continue;
      }
      if d.line + 1 == line {
        assert NextLine(directives, rule, line, i);
        if used != null {
          used[i] := true;
        }
        return true;
      }
    }
    suppressed := BlockSuppresses(directives, used, rule, line);
  }
}
