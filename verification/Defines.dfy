/**
 The set of known preprocessor names, kept as a base list with additions and removals behind a
 cursor that moves over the source. Names stand for their rank in string order; 0 is the empty name.
 */
module Defines {
  import opened Wrappers

  // ----- Sorted lists of names -----

  predicate Sorted(names: seq<nat>) {
    forall i, j :: 0 <= i < j < |names| ==> names[i] < names[j]
  }

  /** The first position whose name is not below the given one. */
  method SearchNames(names: seq<nat>, name: nat) returns (index: nat)
    requires Sorted(names)
    ensures index <= |names|
    ensures forall i :: 0 <= i < index ==> names[i] < name
    ensures forall i :: index <= i < |names| ==> name <= names[i]
  {
    var low, high: nat := 0, |names|;
    while low < high
      invariant low <= high <= |names|
      invariant forall i :: 0 <= i < low ==> names[i] < name
      invariant forall i :: high <= i < |names| ==> name <= names[i]
    {
      var middle := (low + high) / 2;
      if names[middle] < name {
        low := middle + 1;
      } else {
        high := middle;
      }
    }
    index := low;
  }

  method ContainsSorted(names: seq<nat>, name: nat) returns (found: bool)
    requires Sorted(names)
    ensures found <==> name in names
  {
    var index := SearchNames(names, name);
    found := index < |names| && names[index] == name;
  }

  method InsertSorted(names: seq<nat>, name: nat) returns (grown: seq<nat>)
    requires Sorted(names) && name !in names
    ensures Sorted(grown) && |grown| == |names| + 1
    ensures forall x :: x in grown <==> x in names || x == name
  {
    var index := SearchNames(names, name);
    grown := names[..index] + [name] + names[index..];
    assert names == names[..index] + names[index..];
  }

  method RemoveSorted(names: seq<nat>, name: nat) returns (shrunk: seq<nat>, found: bool)
    requires Sorted(names)
    ensures (found <==> name in names) && (!found ==> shrunk == names)
    ensures Sorted(shrunk) && forall x :: x in shrunk <==> x in names && x != name
  {
    var index := SearchNames(names, name);
    if index >= |names| || names[index] != name {
      return names, false;
    }
    shrunk, found := names[..index] + names[index + 1..], true;
    assert names == names[..index] + [name] + names[index + 1..];
  }

  lemma SortedSnoc(names: seq<nat>, name: nat)
    requires Sorted(names) && forall x :: x in names ==> x < name
    ensures Sorted(names + [name])
  {
    forall i | 0 <= i < |names| ensures names[i] < name {
      assert names[i] in names;
    }
  }

  // ----- A base list with changes -----

  class DefineValues {
    var base: seq<nat>
    var added: seq<nat>
    var removed: seq<nat>
    var materialized: Option<seq<nat>>

    ghost predicate Valid()
      reads this
    {
      && Sorted(base) && Sorted(added) && Sorted(removed)
      && (forall x :: x in added ==> x !in base)
      && (forall x :: x in removed ==> x in base)
      && (materialized.Some? ==> Sorted(materialized.value) && forall x :: x in materialized.value <==> Known(x))
    }

    /** The names in force. */
    ghost predicate Known(name: nat)
      reads this
    {
      (name in base || name in added) && name !in removed
    }

    constructor (names: seq<nat>)
      requires Sorted(names)
      ensures Valid() && forall x :: Known(x) <==> x in names
    {
      base, added, removed, materialized := names, [], [], None;
    }

    method Reset(names: seq<nat>)
      requires Sorted(names)
      modifies this
      ensures Valid() && forall x :: Known(x) <==> x in names
    {
      base, added, removed, materialized := names, [], [], None;
    }

    method Contains(name: nat) returns (found: bool)
      requires Valid()
      ensures found <==> Known(name)
    {
      var gone := ContainsSorted(removed, name);
      if gone {
        return false;
      }
      found := ContainsSorted(added, name);
      if !found {
        found := ContainsSorted(base, name);
      }
    }

    method Add(name: nat)
      requires Valid()
      modifies this
      ensures Valid() && base == old(base)
      ensures forall x :: Known(x) <==> old(Known(x)) || (x == name && name != 0)
    {
      if name == 0 {
        return;
      }
      var restored;
      removed, restored := RemoveSorted(removed, name);
      if restored {
        materialized := None;
        return;
      }
      var inBase := ContainsSorted(base, name);
      var inAdded := ContainsSorted(added, name);
      if inBase || inAdded {
        return;
      }
      added := InsertSorted(added, name);
      materialized := None;
    }

    method Remove(name: nat)
      requires Valid()
      modifies this
      ensures Valid() && base == old(base)
      ensures forall x :: Known(x) <==> old(Known(x)) && x != name
    {
      var dropped;
      added, dropped := RemoveSorted(added, name);
      if dropped {
        materialized := None;
        return;
      }
      var inBase := ContainsSorted(base, name);
      var inRemoved := ContainsSorted(removed, name);
      if !inBase || inRemoved {
        return;
      }
      removed := InsertSorted(removed, name);
      materialized := None;
    }

    /** The names in force as one sorted list, merged from base and changes and remembered. */
    method View() returns (known: seq<nat>)
      requires Valid()
      modifies this`materialized
      ensures Valid() && forall x :: Known(x) <==> old(Known(x))
      ensures Sorted(known) && forall x :: x in known <==> Known(x)
    {
      if added == [] && removed == [] {
        return base;
      }
      if materialized.Some? {
        return materialized.value;
      }
      known := Merge();
      materialized := Some(known);
    }

    /** What is left of the base and the additions from the given positions on. */
    ghost predicate MergedUpTo(known: seq<nat>, baseIndex: nat, addedIndex: nat)
      requires baseIndex <= |base| && addedIndex <= |added|
      reads this
    {
      && Sorted(known)
      && (forall x :: x in known <==> (x in base[..baseIndex] && x !in removed) || x in added[..addedIndex])
      && (forall x, i :: x in known && baseIndex <= i < |base| ==> x < base[i])
      && (forall x, i :: x in known && addedIndex <= i < |added| ==> x < added[i])
    }

    lemma TakeBase(known: seq<nat>, baseIndex: nat, addedIndex: nat)
      requires Valid() && baseIndex < |base| && addedIndex <= |added| && MergedUpTo(known, baseIndex, addedIndex)
      requires base[baseIndex] !in removed && (addedIndex < |added| ==> base[baseIndex] < added[addedIndex])
      ensures MergedUpTo(known + [base[baseIndex]], baseIndex + 1, addedIndex)
    {
      assert base[..baseIndex + 1] == base[..baseIndex] + [base[baseIndex]];
      SortedSnoc(known, base[baseIndex]);
    }

    lemma TakeAdded(known: seq<nat>, baseIndex: nat, addedIndex: nat)
      requires Valid() && baseIndex <= |base| && addedIndex < |added| && MergedUpTo(known, baseIndex, addedIndex)
      requires baseIndex < |base| ==> added[addedIndex] <= base[baseIndex]
      ensures MergedUpTo(known + [added[addedIndex]], baseIndex, addedIndex + 1)
    {
      assert added[..addedIndex + 1] == added[..addedIndex] + [added[addedIndex]];
      assert added[addedIndex] in added && (baseIndex < |base| ==> base[baseIndex] in base);
      SortedSnoc(known, added[addedIndex]);
    }

    method Merge() returns (known: seq<nat>)
      requires Valid()
      ensures Sorted(known) && forall x :: x in known <==> Known(x)
    {
      known := [];
      var baseIndex, addedIndex, removedIndex: nat := 0, 0, 0;
      while baseIndex < |base| || addedIndex < |added|
        invariant baseIndex <= |base| && addedIndex <= |added| && removedIndex <= |removed|
        invariant MergedUpTo(known, baseIndex, addedIndex)
        invariant forall i, j :: 0 <= i < removedIndex && baseIndex <= j < |base| ==> removed[i] < base[j]
        decreases |base| - baseIndex + |added| - addedIndex
      {
        baseIndex, removedIndex := SkipRemoved(known, baseIndex, addedIndex, removedIndex);
        hide MergedUpTo, Sorted;
        if baseIndex < |base| && (addedIndex >= |added| || base[baseIndex] < added[addedIndex]) {
          TakeBase(known, baseIndex, addedIndex);
          known := known + [base[baseIndex]];
          baseIndex := baseIndex + 1;
        } else if addedIndex < |added| {
          TakeAdded(known, baseIndex, addedIndex);
          known := known + [added[addedIndex]];
          addedIndex := addedIndex + 1;
        }
      }
      assert base[..baseIndex] == base && added[..addedIndex] == added;
    }

    method SkipRemoved(known: seq<nat>, from: nat, addedIndex: nat, removedFrom: nat)
        returns (baseIndex: nat, removedIndex: nat)
      requires Valid() && from <= |base| && addedIndex <= |added| && removedFrom <= |removed|
      requires MergedUpTo(known, from, addedIndex)
      requires forall i, j :: 0 <= i < removedFrom && from <= j < |base| ==> removed[i] < base[j]
      ensures from <= baseIndex <= |base| && removedIndex <= |removed|
      ensures MergedUpTo(known, baseIndex, addedIndex)
      ensures forall i, j :: 0 <= i < removedIndex && baseIndex <= j < |base| ==> removed[i] < base[j]
      ensures baseIndex < |base| ==> base[baseIndex] !in removed
    {
      baseIndex, removedIndex := from, removedFrom;
      while baseIndex < |base|
        invariant from <= baseIndex <= |base| && removedIndex <= |removed|
        invariant MergedUpTo(known, baseIndex, addedIndex)
        invariant forall i, j :: 0 <= i < removedIndex && baseIndex <= j < |base| ==> removed[i] < base[j]
      {
        while removedIndex < |removed| && removed[removedIndex] < base[baseIndex]
          invariant removedIndex <= |removed|
          invariant forall i, j :: 0 <= i < removedIndex && baseIndex <= j < |base| ==> removed[i] < base[j]
        {
          removedIndex := removedIndex + 1;
        }
        if removedIndex >= |removed| || removed[removedIndex] != base[baseIndex] {
          assert base[baseIndex] !in removed;
          return;
        }
        assert base[..baseIndex + 1] == base[..baseIndex] + [base[baseIndex]];
        baseIndex := baseIndex + 1;
      }
    }
  }

  // ----- Moving over the source -----

  /** A #define or #undef; only active ones with a name count. */
  datatype Directive = Directive(start: nat, active: bool, undef: bool, name: nat)

  /** What an include left defined. */
  datatype Snapshot = Snapshot(offset: nat, defines: seq<nat>)

  /** Directives and snapshots in source order; endinput is 0 if the source has none. */
  datatype Source = Source(names: seq<nat>, directives: seq<Directive>, snapshots: seq<Snapshot>, endinput: nat) {
    ghost predicate Valid() {
      && Sorted(names)
      && (forall i, j :: 0 <= i < j < |directives| ==> directives[i].start <= directives[j].start)
      && (forall i, j :: 0 <= i < j < |snapshots| ==> snapshots[i].offset <= snapshots[j].offset)
      && (forall i :: 0 <= i < |snapshots| ==> Sorted(snapshots[i].defines))
    }

    predicate Before(start: nat, offset: int) {
      start < offset && (endinput == 0 || start < endinput)
    }

    predicate Counts(i: nat)
      requires i < |directives|
    {
      directives[i].active && directives[i].name != 0
    }
  }

  /** The snapshot in force at an offset: the last one before it. */
  ghost predicate InForce(m: Source, offset: int, s: nat) {
    && s <= |m.snapshots|
    && (forall i :: 0 <= i < s ==> m.Before(m.snapshots[i].offset, offset))
    && (forall i :: s <= i < |m.snapshots| ==> !m.Before(m.snapshots[i].offset, offset))
  }

  /** The directive decides about the name, and does not come before the s-th snapshot. */
  ghost predicate Speaks(m: Source, s: nat, name: nat, i: nat)
    requires s <= |m.snapshots|
  {
    && i < |m.directives| && m.Counts(i) && m.directives[i].name == name
    && (s > 0 ==> m.snapshots[s - 1].offset <= m.directives[i].start)
  }

  ghost predicate SpeaksBefore(m: Source, offset: int, s: nat, name: nat, i: nat)
    requires s <= |m.snapshots|
  {
    Speaks(m, s, name, i) && m.Before(m.directives[i].start, offset)
  }

  ghost predicate SpeaksLast(m: Source, offset: int, s: nat, name: nat, i: nat)
    requires s <= |m.snapshots|
  {
    SpeaksBefore(m, offset, s, name, i) && forall j: nat :: j > i ==> !SpeaksBefore(m, offset, s, name, j)
  }

  ghost predicate KnownInitially(m: Source, s: nat, name: nat)
    requires s <= |m.snapshots|
  {
    name in if s == 0 then m.names else m.snapshots[s - 1].defines
  }

  /**
   What is known at an offset, read off the source: the last directive about the name since the
   snapshot in force decides, and without one the snapshot (or the initial list) does.
   */
  ghost predicate KnownAt(m: Source, offset: int, name: nat) {
    exists s: nat :: InForce(m, offset, s) && DecidedAt(m, offset, s, name)
  }

  ghost predicate DecidedAt(m: Source, offset: int, s: nat, name: nat)
    requires s <= |m.snapshots|
  {
    || (exists i: nat :: SpeaksLast(m, offset, s, name, i) && !m.directives[i].undef)
    || ((forall i: nat :: !SpeaksBefore(m, offset, s, name, i)) && KnownInitially(m, s, name))
  }

  /**
   The names known after the first d directives and s snapshots, the last snapshot coming before the
   directives it precedes.
   */
  ghost predicate KnownAfter(m: Source, d: nat, s: nat, name: nat)
    requires d <= |m.directives| && s <= |m.snapshots|
    decreases d
  {
    if d > 0 && (s == 0 || m.snapshots[s - 1].offset <= m.directives[d - 1].start) then
      if m.Counts(d - 1) && m.directives[d - 1].name == name then !m.directives[d - 1].undef
      else KnownAfter(m, d - 1, s, name)
    else KnownInitially(m, s, name)
  }

  /** What has been taken comes before what has not; a snapshot comes before a directive at the same offset. */
  ghost predicate IsCut(m: Source, d: nat, s: nat) {
    && d <= |m.directives| && s <= |m.snapshots|
    && (forall i, j :: 0 <= i < d && s <= j < |m.snapshots| ==> m.directives[i].start < m.snapshots[j].offset)
    && (forall i, j :: d <= i < |m.directives| && 0 <= j < s ==> m.snapshots[j].offset <= m.directives[i].start)
  }

  /** The sources differ at most in which directives are active. */
  ghost predicate SameButActivity(m: Source, m': Source) {
    && m.names == m'.names && m.snapshots == m'.snapshots && m.endinput == m'.endinput
    && |m.directives| == |m'.directives|
    && forall i :: 0 <= i < |m.directives| ==> m'.directives[i] == m.directives[i].(active := m'.directives[i].active)
  }

  lemma {:induction false} SameKnownAfter(m: Source, m': Source, d: nat, s: nat, name: nat)
    requires SameButActivity(m, m') && d <= |m.directives| && s <= |m.snapshots|
    requires forall i :: 0 <= i < d ==> m.directives[i] == m'.directives[i]
    ensures KnownAfter(m, d, s, name) <==> KnownAfter(m', d, s, name)
    decreases d
  {
    if d > 0 {
      SameKnownAfter(m, m', d - 1, s, name);
    }
  }

  /** What is known at an offset depends only on the directives before it. */
  lemma SameKnownAt(m: Source, m': Source, offset: int, name: nat)
    requires SameButActivity(m, m')
    requires forall i :: 0 <= i < |m.directives| && m.Before(m.directives[i].start, offset) ==>
      m.directives[i] == m'.directives[i]
    ensures KnownAt(m, offset, name) <==> KnownAt(m', offset, name)
  {
    assert forall s: nat :: InForce(m, offset, s) <==> InForce(m', offset, s);
    forall s: nat | s <= |m.snapshots| ensures DecidedAt(m, offset, s, name) <==> DecidedAt(m', offset, s, name) {
      assert forall i: nat :: SpeaksBefore(m, offset, s, name, i) <==> SpeaksBefore(m', offset, s, name, i);
      assert forall i: nat :: SpeaksLast(m, offset, s, name, i) <==> SpeaksLast(m', offset, s, name, i);
      assert forall i: nat :: SpeaksLast(m, offset, s, name, i) ==> m.directives[i] == m'.directives[i];
    }
  }

  class DefineCursor {
    var model: Source
    var offset: int
    var directiveIndex: nat
    var snapshotIndex: nat
    const values: DefineValues

    ghost predicate Valid()
      reads this, values
    {
      && InStep()
      && (forall i :: 0 <= i < directiveIndex ==> model.Before(model.directives[i].start, offset))
      && (forall i :: 0 <= i < snapshotIndex ==> model.Before(model.snapshots[i].offset, offset))
    }

    constructor (m: Source)
      requires m.Valid()
      ensures Valid() && model == m && offset == -1 && fresh(values)
    {
      model := m;
      offset, directiveIndex, snapshotIndex := -1, 0, 0;
      values := new DefineValues(m.names);
    }

    /** The labels that the cursor reads have changed, but not for any directive it has taken. */
    method Reread(m: Source)
      requires Valid() && m.Valid() && SameButActivity(model, m)
      requires forall i :: 0 <= i < |m.directives| && model.Before(model.directives[i].start, offset) ==>
        m.directives[i] == model.directives[i]
      modifies this`model
      ensures Valid() && model == m
    {
      hide KnownAfter, DefineValues.Known, DefineValues.Valid;
      assert directiveIndex <= |model.directives|;
      forall name: nat
        ensures KnownAfter(m, directiveIndex, snapshotIndex, name)
          <==> KnownAfter(model, directiveIndex, snapshotIndex, name)
      {
        SameKnownAfter(model, m, directiveIndex, snapshotIndex, name);
      }
      model := m;
    }

    method Reset()
      requires Valid()
      modifies this`offset, this`directiveIndex, this`snapshotIndex, values
      ensures Valid() && offset == -1 && directiveIndex == snapshotIndex == 0
    {
      offset, directiveIndex, snapshotIndex := -1, 0, 0;
      values.Reset(model.names);
    }

    /** The values agree with what has been taken so far. */
    ghost predicate InStep()
      reads this, values
    {
      && model.Valid() && values.Valid() && IsCut(model, directiveIndex, snapshotIndex)
      && forall name :: values.Known(name) <==> KnownAfter(model, directiveIndex, snapshotIndex, name)
    }

    method UseSnapshot()
      requires InStep() && snapshotIndex < |model.snapshots|
      requires directiveIndex < |model.directives| ==>
        model.snapshots[snapshotIndex].offset <= model.directives[directiveIndex].start
      modifies this`snapshotIndex, values
      ensures InStep() && snapshotIndex == old(snapshotIndex) + 1
    {
      hide KnownAfter, DefineValues.Known, DefineValues.Valid;
      TakeSnapshot(model, directiveIndex, snapshotIndex);
      values.Reset(model.snapshots[snapshotIndex].defines);
      snapshotIndex := snapshotIndex + 1;
    }

    method UseDirective()
      requires InStep() && directiveIndex < |model.directives|
      requires snapshotIndex < |model.snapshots| ==>
        model.directives[directiveIndex].start < model.snapshots[snapshotIndex].offset
      modifies this`directiveIndex, values
      ensures InStep() && directiveIndex == old(directiveIndex) + 1
    {
      hide KnownAfter, DefineValues.Known, DefineValues.Valid;
      TakeDirective(model, directiveIndex, snapshotIndex);
      var node := model.directives[directiveIndex];
      if node.active && node.name != 0 {
        if node.undef {
          values.Remove(node.name);
        } else {
          values.Add(node.name);
        }
      }
      ghost var d := directiveIndex;
      assert forall name :: values.Known(name) <==> KnownWith(model, d, snapshotIndex, name);
      directiveIndex := directiveIndex + 1;
      forall name: nat ensures values.Known(name) <==> KnownAfter(model, directiveIndex, snapshotIndex, name) {
        assert KnownAfter(model, d + 1, snapshotIndex, name) <==> KnownWith(model, d, snapshotIndex, name);
      }
    }

    /** Everything taken so far lies before the offset. */
    ghost predicate TakenBefore(to: int)
      requires directiveIndex <= |model.directives| && snapshotIndex <= |model.snapshots|
      reads this
    {
      && (forall i :: 0 <= i < directiveIndex ==> model.Before(model.directives[i].start, to))
      && (forall i :: 0 <= i < snapshotIndex ==> model.Before(model.snapshots[i].offset, to))
    }

    /** Nothing before the offset is left. */
    ghost predicate NoneLeft(to: int)
      requires directiveIndex <= |model.directives| && snapshotIndex <= |model.snapshots|
      reads this
    {
      && (directiveIndex < |model.directives| ==> !model.Before(model.directives[directiveIndex].start, to))
      && (snapshotIndex < |model.snapshots| ==> !model.Before(model.snapshots[snapshotIndex].offset, to))
    }

    /** Takes the next directive or snapshot before the offset, if there is one. */
    method TakeNext(to: int) returns (more: bool)
      requires directiveIndex <= |model.directives| && snapshotIndex <= |model.snapshots| && InStep() && TakenBefore(to)
      modifies this`directiveIndex, this`snapshotIndex, values
      ensures directiveIndex <= |model.directives| && snapshotIndex <= |model.snapshots| && InStep() && TakenBefore(to)
      ensures more ==> directiveIndex + snapshotIndex == old(directiveIndex + snapshotIndex) + 1
      ensures !more ==> NoneLeft(to)
    {
      hide KnownAfter, IsCut, Sorted, DefineValues.Known, DefineValues.Valid, Source.Valid;
      var directiveReady := directiveIndex < |model.directives|
          && model.Before(model.directives[directiveIndex].start, to);
      var snapshotReady := snapshotIndex < |model.snapshots| && model.Before(model.snapshots[snapshotIndex].offset, to);
      if !directiveReady && !snapshotReady {
        return false;
      }
      if snapshotReady
         && (!directiveReady || model.snapshots[snapshotIndex].offset <= model.directives[directiveIndex].start) {
        UseSnapshot();
      } else {
        UseDirective();
      }
      more := true;
    }

    lemma TakenEarlier(to: int)
      requires Valid() && (offset <= to || directiveIndex == snapshotIndex == 0)
      ensures directiveIndex <= |model.directives| && snapshotIndex <= |model.snapshots|
      ensures InStep() && TakenBefore(to)
    {
    }

    /** Once everything before an offset has been taken, the values are what is known there. */
    lemma KnownNow(to: int)
      requires directiveIndex <= |model.directives| && snapshotIndex <= |model.snapshots|
      requires InStep() && TakenBefore(to) && NoneLeft(to)
      ensures forall name :: values.Known(name) <==> KnownAt(model, to, name)
    {
      hide KnownAfter, KnownAt, DefineValues.Known, DefineValues.Valid;
      forall name ensures KnownAfter(model, directiveIndex, snapshotIndex, name) <==> KnownAt(model, to, name) {
        AllTaken(model, to, directiveIndex, snapshotIndex, name);
      }
    }

    method Advance(to: int)
      requires Valid()
      modifies this`offset, this`directiveIndex, this`snapshotIndex, values
      ensures Valid() && offset == to
      ensures forall name :: values.Known(name) <==> KnownAt(model, to, name)
    {
      hide KnownAfter, KnownAt, IsCut, Sorted, DefineValues.Known, DefineValues.Valid, Source.Valid, Source.Before;
      if to < offset {
        Reset();
      }
      TakenEarlier(to);
      var more := true;
      while more
        invariant directiveIndex <= |model.directives| && snapshotIndex <= |model.snapshots|
        invariant InStep() && TakenBefore(to) && (!more ==> NoneLeft(to))
        decreases |model.directives| + |model.snapshots| - directiveIndex - snapshotIndex, more
      {
        more := TakeNext(to);
      }
      KnownNow(to);
      offset := to;
    }

    method ContainsAt(at: int, name: nat) returns (found: bool)
      requires Valid()
      modifies this`offset, this`directiveIndex, this`snapshotIndex, values
      ensures Valid() && offset == at && (found <==> KnownAt(model, at, name))
    {
      Advance(at);
      found := values.Contains(name);
    }

    /** Whatever was asked before, the answer is the sorted list of exactly the names known at the offset. */
    method KnownDefinesAt(at: int) returns (names: seq<nat>)
      requires Valid()
      modifies this`offset, this`directiveIndex, this`snapshotIndex, values
      ensures Valid() && Sorted(names) && forall name :: name in names <==> KnownAt(model, at, name)
    {
      hide KnownAt, IsCut, Sorted, KnownAfter;
      Advance(at);
      names := values.View();
    }
  }

  lemma TakeSnapshot(m: Source, d: nat, s: nat)
    requires m.Valid() && s < |m.snapshots| && IsCut(m, d, s)
    requires d < |m.directives| ==> m.snapshots[s].offset <= m.directives[d].start
    ensures IsCut(m, d, s + 1)
    ensures forall name :: KnownAfter(m, d, s + 1, name) <==> name in m.snapshots[s].defines
  {
  }

  lemma TakeDirective(m: Source, d: nat, s: nat)
    requires m.Valid() && d < |m.directives| && IsCut(m, d, s)
    requires s < |m.snapshots| ==> m.directives[d].start < m.snapshots[s].offset
    ensures IsCut(m, d + 1, s)
    ensures forall name :: KnownAfter(m, d + 1, s, name) <==> KnownWith(m, d, s, name)
  {
    forall name: nat ensures KnownAfter(m, d + 1, s, name) <==> KnownWith(m, d, s, name) {
      assert s > 0 ==> m.snapshots[s - 1].offset <= m.directives[d].start;
    }
  }

  /** What taking the next directive does to one name. */
  ghost predicate KnownWith(m: Source, d: nat, s: nat, name: nat)
    requires d < |m.directives| && s <= |m.snapshots|
  {
    if m.Counts(d) && m.directives[d].name == name then !m.directives[d].undef else KnownAfter(m, d, s, name)
  }

  lemma {:induction false} LastSpeaker(m: Source, d: nat, s: nat, name: nat) returns (last: Option<nat>)
    requires m.Valid() && d <= |m.directives| && s <= |m.snapshots|
    ensures last == None ==> forall i :: 0 <= i < d ==> !Speaks(m, s, name, i)
    ensures last == None ==> (KnownAfter(m, d, s, name) <==> KnownInitially(m, s, name))
    ensures last.Some? ==> last.value < d && Speaks(m, s, name, last.value)
    ensures last.Some? ==> forall j :: last.value < j < d ==> !Speaks(m, s, name, j)
    ensures last.Some? ==> (KnownAfter(m, d, s, name) <==> !m.directives[last.value].undef)
  {
    if d == 0 || (s > 0 && m.directives[d - 1].start < m.snapshots[s - 1].offset) {
      last := None;
    } else if m.Counts(d - 1) && m.directives[d - 1].name == name {
      last := Some(d - 1);
    } else {
      last := LastSpeaker(m, d - 1, s, name);
    }
  }

  /** Once everything before an offset has been taken, what is known is what the source says. */
  lemma AllTaken(m: Source, to: int, d: nat, s: nat, name: nat)
    requires m.Valid() && IsCut(m, d, s)
    requires forall i :: 0 <= i < d ==> m.Before(m.directives[i].start, to)
    requires forall i :: 0 <= i < s ==> m.Before(m.snapshots[i].offset, to)
    requires d < |m.directives| ==> !m.Before(m.directives[d].start, to)
    requires s < |m.snapshots| ==> !m.Before(m.snapshots[s].offset, to)
    ensures KnownAfter(m, d, s, name) <==> KnownAt(m, to, name)
  {
    hide KnownAfter, KnownInitially;
    OnlyInForce(m, to, s);
    SameSpeakers(m, to, d, s, name);
    hide InForce;
    var last := LastSpeaker(m, d, s, name);
    if last.Some? {
      assert SpeaksLast(m, to, s, name, last.value);
    }
    assert DecidedAt(m, to, s, name) <==> KnownAfter(m, d, s, name);
  }

  /**
   The last directive about a name before an offset decides whether it is known there, unless a snapshot was
   taken in between: only active directives with a name count, and none at or behind the end of the input.
   */
  lemma LastDirectiveDecides(m: Source, offset: int, name: nat, i: nat)
    requires m.Valid() && i < |m.directives| && m.directives[i].active && m.directives[i].name == name != 0
    requires m.directives[i].start < offset && (m.endinput == 0 || m.directives[i].start < m.endinput)
    requires forall j :: i < j < |m.directives| && m.directives[j].active && m.directives[j].name == name ==>
      m.directives[j].start >= offset || 0 < m.endinput <= m.directives[j].start
    requires forall k :: 0 <= k < |m.snapshots| && m.directives[i].start < m.snapshots[k].offset ==>
      m.snapshots[k].offset >= offset || 0 < m.endinput <= m.snapshots[k].offset
    ensures KnownAt(m, offset, name) <==> !m.directives[i].undef
  {
    var s := SnapshotInForce(m, offset);
    assert InForce(m, offset, s);
    assert s > 0 ==> m.snapshots[s - 1].offset <= m.directives[i].start;
    assert SpeaksBefore(m, offset, s, name, i);
    forall j: nat | SpeaksBefore(m, offset, s, name, j) ensures j <= i {
      assert m.directives[j].active && m.directives[j].name == name;
    }
    assert SpeaksLast(m, offset, s, name, i);
    assert DecidedAt(m, offset, s, name) <==> !m.directives[i].undef;
  }

  /** Without a directive about the name since, the last snapshot decides, and without one the names given. */
  lemma LastSnapshotDecides(m: Source, offset: int, name: nat, s: nat)
    requires m.Valid() && s <= |m.snapshots|
    requires forall k :: 0 <= k < |m.snapshots| ==> (k < s <==>
      m.snapshots[k].offset < offset && (m.endinput == 0 || m.snapshots[k].offset < m.endinput))
    requires forall i :: 0 <= i < |m.directives| && m.directives[i].active && m.directives[i].name == name != 0 ==>
      || m.directives[i].start >= offset || 0 < m.endinput <= m.directives[i].start
      || (s > 0 && m.directives[i].start < m.snapshots[s - 1].offset)
    ensures KnownAt(m, offset, name) <==> name in if s == 0 then m.names else m.snapshots[s - 1].defines
  {
    if s < |m.snapshots| {
      assert !m.Before(m.snapshots[s].offset, offset);
    }
    OnlyInForce(m, offset, s);
    assert InForce(m, offset, s);
    forall i: nat ensures !SpeaksBefore(m, offset, s, name, i) {
    }
    assert DecidedAt(m, offset, s, name) <==> KnownInitially(m, s, name);
  }

  /** How many snapshots lie before an offset. */
  lemma SnapshotInForce(m: Source, offset: int) returns (s: nat)
    requires m.Valid()
    ensures s <= |m.snapshots|
    ensures forall s': nat :: InForce(m, offset, s') <==> s' == s
  {
    s := 0;
    while s < |m.snapshots| && m.Before(m.snapshots[s].offset, offset)
      invariant s <= |m.snapshots|
      invariant forall i :: 0 <= i < s ==> m.Before(m.snapshots[i].offset, offset)
    {
      s := s + 1;
    }
    OnlyInForce(m, offset, s);
  }

  lemma OnlyInForce(m: Source, to: int, s: nat)
    requires m.Valid() && s <= |m.snapshots|
    requires forall i :: 0 <= i < s ==> m.Before(m.snapshots[i].offset, to)
    requires s < |m.snapshots| ==> !m.Before(m.snapshots[s].offset, to)
    ensures forall s': nat :: InForce(m, to, s') <==> s' == s
  {
    forall s': nat | InForce(m, to, s') ensures s' == s {
      assert s' < |m.snapshots| ==> !m.Before(m.snapshots[s'].offset, to);
    }
  }

  lemma SameSpeakers(m: Source, to: int, d: nat, s: nat, name: nat)
    requires m.Valid() && d <= |m.directives| && s <= |m.snapshots|
    requires forall i :: 0 <= i < d ==> m.Before(m.directives[i].start, to)
    requires d < |m.directives| ==> !m.Before(m.directives[d].start, to)
    ensures forall i: nat :: SpeaksBefore(m, to, s, name, i) <==> i < d && Speaks(m, s, name, i)
  {
  }
}
