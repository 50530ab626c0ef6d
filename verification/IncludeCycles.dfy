/** Finding the cycles among included files, each reported once whatever file it is entered at. */
module IncludeCycles {
  import opened Wrappers
  import opened Graphs
  import opened Strings

  /** A file named by an include directive; `place` is the path and offset of the directive. */
  datatype Include = Include(uncertain: bool, resolved: Option<nat>, place: string)

  datatype IncludeEdge = IncludeEdge(from: nat, place: string, to: nat)

  datatype IncludeCycle = IncludeCycle(owner: nat, edges: seq<IncludeEdge>)

  /** Files by number, with their canonical names and the includes in them. */
  datatype Project = Project(names: seq<string>, includes: seq<seq<Include>>) {
    ghost predicate Valid() {
      && |names| == |includes|
      && forall f, i :: 0 <= f < |includes| && 0 <= i < |includes[f]| && includes[f][i].resolved.Some? ==>
           includes[f][i].resolved.value < |includes|
    }

    ghost predicate HasEdge(e: IncludeEdge) {
      e.from < |includes| && Include(false, Some(e.to), e.place) in includes[e.from]
    }

    ghost function EdgePairs(): Edges {
      set f, i | 0 <= f < |includes| && i in includes[f] && !i.uncertain && i.resolved.Some? :: (f, i.resolved.value)
    }
  }

  // ----- Keys -----

  function Part(project: Project, e: IncludeEdge): string
    requires e.from < |project.names| && e.to < |project.names|
  {
    project.names[e.from] + ":" + e.place + "->" + project.names[e.to]
  }

  predicate Named(project: Project, edges: seq<IncludeEdge>) {
    forall i :: 0 <= i < |edges| ==> edges[i].from < |project.names| && edges[i].to < |project.names|
  }

  function Parts(project: Project, edges: seq<IncludeEdge>): (parts: seq<string>)
    requires Named(project, edges)
    ensures |parts| == |edges|
  {
    seq(|edges|, i requires 0 <= i < |edges| => Part(project, edges[i]))
  }

  function Joined(parts: seq<string>): string {
    if parts == [] then "" else if |parts| == 1 then parts[0] else parts[0] + "\0" + Joined(parts[1..])
  }

  function Rotated<T>(s: seq<T>, i: nat): seq<T>
    requires i <= |s|
  {
    s[i..] + s[..i]
  }

  function Candidate(parts: seq<string>, i: nat): string
    requires i <= |parts|
  {
    Joined(Rotated(parts, i))
  }

  /** The least of the joined rotations. */
  ghost predicate IsLeast(parts: seq<string>, key: string) {
    && (exists i :: 0 <= i < |parts| && key == Candidate(parts, i))
    && (forall i :: 0 <= i < |parts| ==> !Less(Candidate(parts, i), key))
  }

  ghost predicate IsKey(project: Project, edges: seq<IncludeEdge>, key: string) {
    Named(project, edges) && IsLeast(Parts(project, edges), key)
  }

  method IncludeCycleKey(project: Project, edges: seq<IncludeEdge>) returns (best: string)
    requires Named(project, edges)
    ensures edges == [] ==> best == ""
    ensures edges != [] ==> IsKey(project, edges, best)
  {
    if edges == [] {
      return "";
    }
    var parts := Parts(project, edges);
    best := Joined(parts);
    assert Rotated(parts, 0) == parts;
    NotLessItself(best);
    ghost var chosen := 0;
    for i := 1 to |parts|
      invariant chosen < i && best == Candidate(parts, chosen)
      invariant forall j :: 0 <= j < i ==> !Less(Candidate(parts, j), best)
    {
      hide Joined, Less;
      var candidate := Joined(parts[i..] + parts[..i]);
      assert candidate == Candidate(parts, i);
      hide Candidate;
      NotLessItself(candidate);
      if Less(candidate, best) {
        forall j | 0 <= j < i ensures !Less(Candidate(parts, j), candidate) {
          NotBelowEither(Candidate(parts, j), candidate, best);
        }
        best, chosen := candidate, i;
      }
    }
  }

  lemma NotBelowEither(a: string, b: string, c: string)
    requires Less(b, c) && !Less(a, c)
    ensures !Less(a, b)
  {
    if Less(a, b) {
      LessTransitive(a, b, c);
    }
  }

  lemma RotatedAt<T>(s: seq<T>, i: nat, k: nat)
    requires i <= |s| && k < |s|
    ensures |Rotated(s, i)| == |s| && Rotated(s, i)[k] == s[if k + i < |s| then k + i else k + i - |s|]
  {
  }

  lemma RotatedTwice<T>(s: seq<T>, r: nat, i: nat)
    requires r <= |s| && i <= |s|
    ensures Rotated(Rotated(s, r), i) == Rotated(s, if r + i <= |s| then r + i else r + i - |s|)
  {
    var n := if r + i <= |s| then r + i else r + i - |s|;
    var a, b := Rotated(Rotated(s, r), i), Rotated(s, n);
    assert |a| == |b| == |s|;
    hide Rotated;
    forall k | 0 <= k < |s| ensures a[k] == b[k] {
      RotatedAt(s, n, k);
      RotatedAt(Rotated(s, r), i, k);
      RotatedAt(s, r, if k + i < |s| then k + i else k + i - |s|);
    }
  }

  lemma RotatedIsLeast(parts: seq<string>, r: nat, key: string)
    requires r < |parts| && IsLeast(parts, key)
    ensures IsLeast(Rotated(parts, r), key)
  {
    hide Joined, Less;
    var turned := Rotated(parts, r);
    var i :| 0 <= i < |parts| && key == Candidate(parts, i);
    var j := if r <= i then i - r else i + |parts| - r;
    RotatedTwice(parts, r, j);
    assert Rotated(parts, |parts|) == Rotated(parts, 0);
    assert key == Candidate(turned, j);
    forall k | 0 <= k < |turned| ensures !Less(Candidate(turned, k), key) {
      RotatedTwice(parts, r, k);
      assert Candidate(turned, k) == Candidate(parts, (if r + k < |parts| then r + k else r + k - |parts|));
    }
  }

  /** The key of a cycle does not depend on the edge it starts with. */
  lemma KeyOfRotation(project: Project, edges: seq<IncludeEdge>, r: nat, key: string, other: string)
    requires r < |edges| && IsKey(project, edges, key) && IsKey(project, Rotated(edges, r), other)
    ensures key == other
  {
    hide Joined, Less;
    var parts := Parts(project, edges);
    assert Parts(project, Rotated(edges, r)) == Rotated(parts, r);
    RotatedIsLeast(parts, r, key);
    LessIsTotal(key, other);
  }

  // ----- The search -----

  /** A closed chain of includes that passes no file twice. */
  ghost predicate IsIncludeCycle(project: Project, edges: seq<IncludeEdge>) {
    && edges != [] && (forall i :: 0 <= i < |edges| ==> project.HasEdge(edges[i]))
    && (forall i :: 0 <= i < |edges| - 1 ==> edges[i].to == edges[i + 1].from)
    && edges[|edges| - 1].to == edges[0].from
    && (forall i, j :: 0 <= i < j < |edges| ==> edges[i].from != edges[j].from)
  }

  /** The cycle is among those reported, as far as keys tell. */
  ghost predicate Reported(project: Project, cycles: seq<IncludeCycle>, edges: seq<IncludeEdge>) {
    exists c, key :: c in cycles && IsKey(project, edges, key) && IsKey(project, c.edges, key)
  }

  ghost predicate IsGenuine(project: Project, c: IncludeCycle) {
    IsIncludeCycle(project, c.edges) && Reaches(project.EdgePairs(), c.owner, c.edges[0].from)
  }

  ghost predicate HasKeyIn(project: Project, seen: set<string>, c: IncludeCycle) {
    exists key :: key in seen && IsKey(project, c.edges, key)
  }

  ghost predicate IsKeyIn(project: Project, cycles: seq<IncludeCycle>, key: string) {
    exists c :: c in cycles && IsKey(project, c.edges, key)
  }

  /** No two of the cycles have the same key. */
  ghost predicate KeysDiffer(project: Project, cycles: seq<IncludeCycle>) {
    forall i, j, key {:trigger IsKey(project, cycles[i].edges, key), IsKey(project, cycles[j].edges, key)} ::
      0 <= i < j < |cycles| && IsKey(project, cycles[i].edges, key) ==> !IsKey(project, cycles[j].edges, key)
  }

  /** What has been reported: genuine cycles, reached by their owners, with exactly the keys seen, each once. */
  ghost predicate ReportIsGood(project: Project, seen: set<string>, cycles: seq<IncludeCycle>) {
    && (forall c :: c in cycles ==> IsGenuine(project, c) && HasKeyIn(project, seen, c))
    && (forall key :: key in seen ==> IsKeyIn(project, cycles, key))
    && KeysDiffer(project, cycles)
  }

  /** The files being visited form a chain of includes from the root. */
  ghost predicate IsChain(project: Project, root: nat, files: seq<nat>, edges: seq<IncludeEdge>,
      positions: map<nat, nat>) {
    && |edges| >= |files| - 1
    && (forall i :: 0 <= i < |files| - 1 ==>
      project.HasEdge(edges[i]) && edges[i].from == files[i] && edges[i].to == files[i + 1])
    && (forall i :: 0 <= i < |files| ==> files[i] < |project.includes| && Reaches(project.EdgePairs(), root, files[i]))
    && (forall i :: 0 <= i < |files| ==> files[i] in positions && positions[files[i]] == i)
  }

  function StateIn(state: map<nat, nat>, file: nat): nat {
    if file in state then state[file] else 0
  }

  ghost predicate StatesAgree(n: nat, state: map<nat, nat>, files: seq<nat>, finished: seq<nat>) {
    && Distinct(files) && Distinct(finished)
    && (forall f :: f in state ==> (state[f] == 1 || state[f] == 2) && f < n)
    && (forall f :: StateIn(state, f) == 1 <==> f in files)
    && (forall f :: StateIn(state, f) == 2 <==> f in finished)
  }

  /** Either what is finished has no cycle in it, or a cycle that the root reaches has been reported. */
  ghost predicate BackIsGood(project: Project, root: nat, finished: seq<nat>, back: Option<seq<IncludeEdge>>,
      cycles: seq<IncludeCycle>) {
    match back
    case None => Ordered(project.EdgePairs(), finished)
    case Some(cycle) =>
      IsIncludeCycle(project, cycle) && Reaches(project.EdgePairs(), root, cycle[0].from)
          && Reported(project, cycles, cycle)
  }

  /** The last edge leads from the last file to the next one. */
  ghost predicate LeadsTo(project: Project, root: nat, files: seq<nat>, edges: seq<IncludeEdge>, file: nat) {
    && file < |project.includes|
    && if files == [] then edges == [] && file == root
       else
         && |edges| == |files| && project.HasEdge(edges[|edges| - 1])
         && edges[|edges| - 1].from == files[|files| - 1] && edges[|edges| - 1].to == file
  }

  lemma ChainGrows(project: Project, root: nat, files: seq<nat>, edges: seq<IncludeEdge>, positions: map<nat, nat>,
      file: nat)
    requires IsChain(project, root, files, edges, positions) && LeadsTo(project, root, files, edges, file)
    requires file !in files
    ensures IsChain(project, root, files + [file], edges, positions[file := |files|])
  {
    hide Project.EdgePairs, Reaches;
    if files == [] {
      ReachesSelf(project.EdgePairs(), root);
    } else {
      HasEdgeIsPair(project, edges[|edges| - 1]);
      ReachesSnoc(project.EdgePairs(), root, files[|files| - 1], file);
    }
  }

  lemma SameChain(project: Project, root: nat, files: seq<nat>, edges: seq<IncludeEdge>, other: seq<IncludeEdge>,
      positions: map<nat, nat>)
    requires IsChain(project, root, files, edges, positions) && |other| >= |files| - 1
    requires forall i :: 0 <= i < |files| - 1 ==> other[i] == edges[i]
    ensures IsChain(project, root, files, other, positions)
  {
  }

  /** Reporting a cycle under a new key, or finding its key already there. */
  lemma ReportGrows(project: Project, seen: set<string>, cycles: seq<IncludeCycle>, key: string, cycle: IncludeCycle)
    requires ReportIsGood(project, seen, cycles) && IsIncludeCycle(project, cycle.edges)
      && IsKey(project, cycle.edges, key)
    requires Reaches(project.EdgePairs(), cycle.owner, cycle.edges[0].from)
    ensures key !in seen ==> ReportIsGood(project, seen + {key}, cycles + [cycle])
    ensures key !in seen ==> Reported(project, cycles + [cycle], cycle.edges)
    ensures key in seen ==> Reported(project, cycles, cycle.edges)
  {
    hide IsKey, IsIncludeCycle, Reaches, Project.EdgePairs, HasKeyIn, IsKeyIn, Reported;
    if key in seen {
      AlreadyReported(project, cycles, key, cycle.edges);
    } else {
      hide HasKeyIn, IsKeyIn;
      NewKey(project, seen, cycles, key, cycle);
      CyclesStayGood(project, seen, cycles, key, cycle);
      KeysStayGood(project, seen, cycles, key, cycle);
      KeysStayDifferent(project, seen, cycles, key, cycle);
    }
  }

  lemma OneKey(project: Project, edges: seq<IncludeEdge>, key: string, other: string)
    requires IsKey(project, edges, key) && IsKey(project, edges, other)
    ensures key == other
  {
    hide Joined, Less, Candidate;
    LessIsTotal(key, other);
  }

  lemma KeysStayDifferent(
    project: Project, seen: set<string>, cycles: seq<IncludeCycle>, key: string, cycle: IncludeCycle)
    requires (forall c :: c in cycles ==> HasKeyIn(project, seen, c)) && KeysDiffer(project, cycles)
    requires key !in seen && IsKey(project, cycle.edges, key)
    ensures KeysDiffer(project, cycles + [cycle])
  {
    hide IsKey;
    var more := cycles + [cycle];
    forall i, j, k | 0 <= i < j < |more| && IsKey(project, more[i].edges, k) ensures !IsKey(project, more[j].edges, k) {
      if j == |cycles| && IsKey(project, cycle.edges, k) {
        OneKey(project, cycle.edges, key, k);
        assert more[i] in cycles;
        var seenKey :| seenKey in seen && IsKey(project, more[i].edges, seenKey);
        OneKey(project, more[i].edges, seenKey, k);
      }
    }
  }

  lemma CyclesStayGood(project: Project, seen: set<string>, cycles: seq<IncludeCycle>, key: string, cycle: IncludeCycle)
    requires forall c :: c in cycles ==> IsGenuine(project, c) && HasKeyIn(project, seen, c)
    requires IsGenuine(project, cycle) && HasKeyIn(project, seen + {key}, cycle)
    ensures forall c :: c in cycles + [cycle] ==> IsGenuine(project, c) && HasKeyIn(project, seen + {key}, c)
  {
    hide IsGenuine, HasKeyIn;
    forall c | c in cycles ensures HasKeyIn(project, seen + {key}, c) {
      MoreKeys(project, seen, key, c);
    }
  }

  lemma KeysStayGood(project: Project, seen: set<string>, cycles: seq<IncludeCycle>, key: string, cycle: IncludeCycle)
    requires forall k :: k in seen ==> IsKeyIn(project, cycles, k)
    requires IsKeyIn(project, cycles + [cycle], key)
    ensures forall k :: k in seen + {key} ==> IsKeyIn(project, cycles + [cycle], k)
  {
    hide IsKeyIn;
    forall k | k in seen ensures IsKeyIn(project, cycles + [cycle], k) {
      MoreCycles(project, cycles, cycle, k);
    }
  }

  lemma AlreadyReported(project: Project, cycles: seq<IncludeCycle>, key: string, edges: seq<IncludeEdge>)
    requires IsKeyIn(project, cycles, key) && IsKey(project, edges, key)
    ensures Reported(project, cycles, edges)
  {
    hide IsKey;
  }

  lemma NewKey(project: Project, seen: set<string>, cycles: seq<IncludeCycle>, key: string, cycle: IncludeCycle)
    requires IsKey(project, cycle.edges, key)
    ensures HasKeyIn(project, seen + {key}, cycle) && IsKeyIn(project, cycles + [cycle], key)
    ensures Reported(project, cycles + [cycle], cycle.edges)
  {
    hide IsKey;
    assert key in seen + {key} && cycle in cycles + [cycle];
  }

  lemma MoreKeys(project: Project, seen: set<string>, key: string, c: IncludeCycle)
    requires HasKeyIn(project, seen, c)
    ensures HasKeyIn(project, seen + {key}, c)
  {
    hide IsKey;
    var k :| k in seen && IsKey(project, c.edges, k);
    assert k in seen + {key};
  }

  lemma MoreCycles(project: Project, cycles: seq<IncludeCycle>, cycle: IncludeCycle, key: string)
    requires IsKeyIn(project, cycles, key)
    ensures IsKeyIn(project, cycles + [cycle], key)
  {
    hide IsKey;
    var c :| c in cycles && IsKey(project, c.edges, key);
    assert c in cycles + [cycle];
  }

  lemma ChainShrinks(project: Project, root: nat, files: seq<nat>, edges: seq<IncludeEdge>, positions: map<nat, nat>)
    requires IsChain(project, root, files, edges, positions) && files != [] && Distinct(files)
    ensures IsChain(project, root, files[..|files| - 1], edges, positions - {files[|files| - 1]})
  {
    hide Project.EdgePairs, Reaches, Project.HasEdge;
  }

  lemma StatesEnter(n: nat, state: map<nat, nat>, files: seq<nat>, finished: seq<nat>, file: nat)
    requires StatesAgree(n, state, files, finished) && file < n && StateIn(state, file) == 0
    ensures StatesAgree(n, state[file := 1], files + [file], finished) && file !in files
  {
    assert file !in files && file !in finished;
  }

  lemma KnownStates(n: nat, state: map<nat, nat>, files: seq<nat>, finished: seq<nat>, file: nat)
    requires StatesAgree(n, state, files, finished)
    ensures StateIn(state, file) <= 2 && (StateIn(state, file) == 0 <==> file !in state)
  {
  }

  lemma Finished(n: nat, state: map<nat, nat>, files: seq<nat>, finished: seq<nat>, file: nat)
    requires StatesAgree(n, state, files, finished) && StateIn(state, file) == 2
    ensures file in finished && Distinct(finished)
  {
  }

  lemma ChainIsLong(project: Project, root: nat, files: seq<nat>, edges: seq<IncludeEdge>, positions: map<nat, nat>)
    requires IsChain(project, root, files, edges, positions)
    ensures |edges| >= |files| - 1
  {
  }

  lemma InStack(project: Project, root: nat, state: map<nat, nat>, files: seq<nat>, finished: seq<nat>,
                edges: seq<IncludeEdge>, positions: map<nat, nat>, file: nat)
    requires StatesAgree(|project.includes|, state, files, finished) && StateIn(state, file) == 1
    requires IsChain(project, root, files, edges, positions)
    ensures file in positions && positions[file] < |files| && files[positions[file]] == file && Distinct(files)
  {
    hide Reaches, Project.EdgePairs, Project.HasEdge;
    assert file in files;
  }

  lemma StatesLeave(n: nat, state: map<nat, nat>, files: seq<nat>, finished: seq<nat>)
    requires StatesAgree(n, state, files, finished) && files != []
    ensures var file := files[|files| - 1];
      StatesAgree(n, state[file := 2], files[..|files| - 1], finished + [file])
  {
    var file, rest := files[|files| - 1], files[..|files| - 1];
    assert files == rest + [file] && file in files && file !in rest;
    assert StateIn(state, file) == 1 && file !in finished;
    assert forall f :: f in files <==> f in rest || f == file;
  }

  lemma OrderGrows(edges: Edges, order: seq<nat>, v: nat)
    requires Ordered(edges, order) && forall b {:trigger (v, b) in edges} :: (v, b) in edges ==> b in order
    ensures Ordered(edges, order + [v])
  {
    var grown := order + [v];
    forall i, b | 0 <= i < |grown| && (grown[i], b) in edges ensures b in grown[..i] {
      assert grown[..i] == order[..i];
    }
  }

  class IncludeSearch {
    const project: Project
    var seen: set<string>
    var cycles: seq<IncludeCycle>
    var root: nat
    var state: map<nat, nat>
    var positions: map<nat, nat>
    var files: seq<nat>
    var edges: seq<IncludeEdge>
    ghost var finished: seq<nat>
    ghost var back: Option<seq<IncludeEdge>>

    ghost predicate Valid()
      reads this
    {
      && project.Valid() && ReportIsGood(project, seen, cycles)
      && IsChain(project, root, files, edges, positions)
      && StatesAgree(|project.includes|, state, files, finished)
      && BackIsGood(project, root, finished, back, cycles)
    }

    constructor (project: Project)
      requires project.Valid()
      ensures Valid() && this.project == project && cycles == []
    {
      this.project := project;
      seen, cycles := {}, [];
      root, state, positions, files, edges, finished, back := 0, map[], map[], [], [], [], None;
    }

    method VisitUnit(unit: nat)
      requires Valid() && unit < |project.includes|
      modifies this
      ensures Valid() && old(cycles) <= cycles
      ensures UnitCovered(project, cycles, unit)
    {
      hide ReportIsGood, Reported, IsIncludeCycle, Reaches, Project.EdgePairs, UnitCovered;
      root, state, positions, files, edges, finished, back := unit, map[], map[], [], [], [], None;
      Visit(unit);
      Finished(|project.includes|, state, files, finished, unit);
      UnitIsCovered(project, unit, finished, back, cycles);
    }

    method Visit(file: nat)
      requires Valid() && LeadsTo(project, root, files, edges, file) && StateIn(state, file) == 0
      modifies this`state, this`positions, this`files, this`edges, this`seen, this`cycles, this`finished, this`back
      ensures Valid() && files == old(files) && edges == old(edges) && StateIn(state, file) == 2
      ensures old(state.Keys) <= state.Keys && (forall f :: StateIn(old(state), f) == 2 ==> StateIn(state, f) == 2)
      ensures (old(back).Some? ==> back.Some?) && old(cycles) <= cycles
      decreases AllFiles(|project.includes|) - state.Keys
    {
      hide ReportIsGood, IsChain, StatesAgree, BackIsGood, Project.EdgePairs;
      ghost var before := state;
      KnownStates(|project.includes|, state, files, finished, file);
      Enter(file);
      var includes := project.includes[file];
      for i := 0 to |includes|
        invariant Valid() && files == old(files) + [file] && edges == old(edges)
        invariant before.Keys + {file} <= state.Keys
        invariant forall f :: StateIn(before, f) == 2 ==> StateIn(state, f) == 2
        invariant (old(back).Some? ==> back.Some?) && old(cycles) <= cycles
        invariant forall j :: 0 <= j < i && !includes[j].uncertain && includes[j].resolved.Some? ==>
          StateIn(state, includes[j].resolved.value) == 2 || back.Some?
      {
        var directive := includes[i];
        if directive.uncertain || directive.resolved == None {
          continue;
        }
        var to := directive.resolved.value;
        var edge := IncludeEdge(file, directive.place, to);
        assert directive in includes && project.HasEdge(edge);
        KnownStates(|project.includes|, state, files, finished, to);
        ChainIsLong(project, root, files, edges, positions);
        if StateIn(state, to) == 0 {
          SameChain(project, root, files, edges, edges + [edge], positions);
          edges := edges + [edge];
          ShrinksBy(|project.includes|, before, state, file);
          Visit(to);
          SameChain(project, root, files, edges, edges[..|edges| - 1], positions);
          edges := edges[..|edges| - 1];
        } else if StateIn(state, to) == 1 {
          Report(edge);
        }
      }
      Leave(file);
    }

    method Leave(file: nat)
      requires Valid() && files != [] && files[|files| - 1] == file
      requires forall i :: i in project.includes[file] && !i.uncertain && i.resolved.Some? ==>
        StateIn(state, i.resolved.value) == 2 || back.Some?
      modifies this`state, this`positions, this`files, this`finished
      ensures Valid() && files == old(files[..|files| - 1]) && state == old(state)[file := 2]
    {
      hide ReportIsGood, IsChain, Reported, IsIncludeCycle, Reaches;
      StatesLeave(|project.includes|, state, files, finished);
      ChainShrinks(project, root, files, edges, positions);
      if back == None {
        OrderGrows(project.EdgePairs(), finished, file);
      }
      files := files[..|files| - 1];
      positions := positions - {file};
      state := state[file := 2];
      finished := finished + [file];
    }

    method Report(edge: IncludeEdge)
      requires Valid() && files != [] && |edges| == |files| - 1
      requires project.HasEdge(edge) && edge.from == files[|files| - 1] && StateIn(state, edge.to) == 1
      modifies this`seen, this`cycles, this`back
      ensures Valid() && back.Some? && old(cycles) <= cycles
    {
      hide ReportIsGood, IsChain, StatesAgree, IsKey, Reported, IsIncludeCycle, Reaches, Project.EdgePairs,
          Project.Valid, Named, Parts;
      InStack(project, root, state, files, finished, edges, positions, edge.to);
      var start := positions[edge.to];
      var cycleEdges := edges[start..] + [edge];
      ClosesAt(project, root, files, edges, positions, edge, start);
      var key := IncludeCycleKey(project, cycleEdges);
      ReportGrows(project, seen, cycles, key, IncludeCycle(root, cycleEdges));
      if key !in seen {
        seen := seen + {key};
        cycles := cycles + [IncludeCycle(root, cycleEdges)];
      }
      back := Some(cycleEdges);
    }

    method Enter(file: nat)
      requires Valid() && LeadsTo(project, root, files, edges, file) && StateIn(state, file) == 0
      modifies this`state, this`positions, this`files
      ensures Valid() && files == old(files) + [file] && state == old(state)[file := 1] && |edges| == |files| - 1
    {
      hide ReportIsGood, IsChain, StatesAgree, BackIsGood;
      StatesEnter(|project.includes|, state, files, finished, file);
      ChainGrows(project, root, files, edges, positions, file);
      state := state[file := 1];
      positions := positions[file := |files|];
      files := files + [file];
    }
  }

  lemma ClosesAt(project: Project, root: nat, files: seq<nat>, edges: seq<IncludeEdge>, positions: map<nat, nat>,
                 edge: IncludeEdge, start: nat)
    requires project.Valid() && IsChain(project, root, files, edges, positions) && files != []
      && |edges| == |files| - 1 && Distinct(files)
    requires project.HasEdge(edge) && edge.from == files[|files| - 1] && start < |files| && files[start] == edge.to
    ensures var cycleEdges := edges[start..] + [edge];
      IsIncludeCycle(project, cycleEdges) && Named(project, cycleEdges)
      && Reaches(project.EdgePairs(), root, cycleEdges[0].from)
  {
    hide Project.EdgePairs, Reaches;
    var cycleEdges := edges[start..] + [edge];
    forall i | 0 <= i < |cycleEdges|
      ensures cycleEdges[i].from == files[start + i] && project.HasEdge(cycleEdges[i])
        && cycleEdges[i].to < |project.names|
    {
    }
  }

  lemma ShrinksBy(n: nat, before: map<nat, nat>, state: map<nat, nat>, file: nat)
    requires file < n && file !in before && before.Keys + {file} <= state.Keys
    ensures AllFiles(n) - state.Keys < AllFiles(n) - before.Keys
  {
    assert file in AllFiles(n) - before.Keys;
  }

  ghost function AllFiles(n: nat): set<nat> {
    set f: nat | f < n && IsFile(f, n)
  }

  predicate IsFile(f: nat, n: nat) {
    f < n
  }

  lemma HasEdgeIsPair(project: Project, e: IncludeEdge)
    requires project.HasEdge(e)
    ensures (e.from, e.to) in project.EdgePairs()
  {
    var i := Include(false, Some(e.to), e.place);
    assert i in project.includes[e.from] && (e.from, i.resolved.value) in project.EdgePairs();
  }

  // ----- All units -----

  /** Some file that the root includes, directly or not, includes itself. */
  ghost predicate CyclicFrom(project: Project, root: nat) {
    exists v :: Reaches(project.EdgePairs(), root, v) && ReachesByEdge(project.EdgePairs(), v, v)
  }

  ghost predicate ReportedFrom(project: Project, cycles: seq<IncludeCycle>, root: nat) {
    exists edges: seq<IncludeEdge> :: edges != [] && Reports(project, cycles, root, edges)
  }

  ghost predicate Reports(project: Project, cycles: seq<IncludeCycle>, root: nat, edges: seq<IncludeEdge>)
    requires edges != []
  {
    IsIncludeCycle(project, edges) && Reaches(project.EdgePairs(), root, edges[0].from)
        && Reported(project, cycles, edges)
  }

  lemma {:induction false} FinishedIsClosed(edges: Edges, order: seq<nat>, from: nat, v: nat)
    requires Ordered(edges, order) && from in order && Reaches(edges, from, v)
    ensures v in order
  {
    var region := set x | x in order;
    forall a, b {:trigger (a, b) in edges} | a in region && (a, b) in edges ensures b in region {
      var i :| 0 <= i < |order| && order[i] == a;
      assert (order[i], b) in edges;
    }
    ClosedContains(edges, region, from, v);
  }

  lemma StaysReported(project: Project, cycles: seq<IncludeCycle>, more: seq<IncludeCycle>, edges: seq<IncludeEdge>)
    requires Reported(project, cycles, edges) && cycles <= more
    ensures Reported(project, more, edges)
  {
    hide IsKey;
    var c, key :| c in cycles && IsKey(project, edges, key) && IsKey(project, c.edges, key);
    assert c in more;
  }

  /** Each of the first n units whose includes are cyclic has one of its cycles reported. */
  ghost predicate Covered(project: Project, cycles: seq<IncludeCycle>, units: seq<nat>, n: nat)
    requires n <= |units|
  {
    forall i :: 0 <= i < n ==> UnitCovered(project, cycles, units[i])
  }

  ghost predicate UnitCovered(project: Project, cycles: seq<IncludeCycle>, unit: nat) {
    CyclicFrom(project, unit) ==> ReportedFrom(project, cycles, unit)
  }

  lemma UnitIsCovered(project: Project, root: nat, finished: seq<nat>, back: Option<seq<IncludeEdge>>,
      cycles: seq<IncludeCycle>)
    requires BackIsGood(project, root, finished, back, cycles) && root in finished && Distinct(finished)
    ensures UnitCovered(project, cycles, root)
  {
    hide Project.EdgePairs, Project.HasEdge, Reported, Reaches, ReachesByEdge, Ordered, Distinct;
    if back.Some? {
      assert Reports(project, cycles, root, back.value);
    } else if CyclicFrom(project, root) {
      var v :| Reaches(project.EdgePairs(), root, v) && ReachesByEdge(project.EdgePairs(), v, v);
      FinishedIsClosed(project.EdgePairs(), finished, root, v);
      OrderedIsAcyclic(project.EdgePairs(), finished, v);
    }
  }

  lemma StaysCovered(project: Project, cycles: seq<IncludeCycle>, more: seq<IncludeCycle>, units: seq<nat>, n: nat)
    requires n <= |units| && Covered(project, cycles, units, n) && cycles <= more
    ensures Covered(project, more, units, n)
  {
    hide CyclicFrom, Reported, IsIncludeCycle, Reaches, Project.EdgePairs;
    forall i | 0 <= i < n ensures UnitCovered(project, more, units[i]) {
      assert UnitCovered(project, cycles, units[i]);
      if edges: seq<IncludeEdge> :| edges != [] && Reports(project, cycles, units[i], edges) {
        StaysReported(project, cycles, more, edges);
        assert Reports(project, more, units[i], edges);
      }
    }
  }

  /**
   Every cycle reported is genuine, and every unit whose includes are cyclic has one of its cycles
   among them, as far as keys tell.
   */
  method BuildIncludeCycles(project: Project, units: seq<nat>) returns (cycles: seq<IncludeCycle>)
    requires project.Valid() && forall i :: 0 <= i < |units| ==> units[i] < |project.includes|
    ensures (forall c :: c in cycles ==> IsGenuine(project, c)) && KeysDiffer(project, cycles)
    ensures Covered(project, cycles, units, |units|)
  {
    hide IsGenuine, UnitCovered, IsChain, StatesAgree, BackIsGood;
    var search := new IncludeSearch(project);
    for i := 0 to |units|
      invariant search.Valid() && search.project == project && fresh(search)
      invariant Covered(project, search.cycles, units, i)
    {
      ghost var was := search.cycles;
      search.VisitUnit(units[i]);
      StaysCovered(project, was, search.cycles, units, i);
    }
    cycles := search.cycles;
  }

  // ----- What keys tell -----

  /** Includes are told apart by their texts, and the texts do not contain the character that separates them. */
  ghost predicate TellsApart(project: Project)
    requires project.Valid()
  {
    && (forall e :: project.HasEdge(e) ==>
      e.from < |project.names| && e.to < |project.names| && '\0' !in Part(project, e))
    && forall e, e' :: project.HasEdge(e) && project.HasEdge(e') && Part(project, e) == Part(project, e') ==> e == e'
  }

  lemma NotShorter(x: string, u: string, y: string, v: string)
    requires x + u == y + v && '\0' !in y && (u == "" || u[0] == '\0')
    ensures |x| >= |y|
  {
    var w := x + u;
    assert |x| < |w| ==> w[|x|] == u[0];
    assert forall k :: 0 <= k < |y| ==> w[k] == (y + v)[k] == y[k] && y[k] in y;
  }

  lemma SameFirst(x: string, u: string, y: string, v: string)
    requires x + u == y + v && '\0' !in x && '\0' !in y
    requires (u == "" || u[0] == '\0') && (v == "" || v[0] == '\0')
    ensures x == y && u == v
  {
    NotShorter(x, u, y, v);
    NotShorter(y, v, x, u);
    assert x == (x + u)[..|x|] && y == (y + v)[..|x|];
    assert u == (x + u)[|x|..] && v == (y + v)[|x|..];
  }

  predicate Free(text: string, c: char) {
    c !in text
  }

  lemma SameUpTo(x: string, u: string, y: string, v: string, c: char)
    requires x + [c] + u == y + [c] + v && Free(x, c) && Free(y, c)
    ensures x == y && u == v
  {
    var w := x + [c] + u;
    assert w[|x|] == c && w[|y|] == c;
    assert forall k :: 0 <= k < |x| ==> w[k] == x[k] && w[k] in x;
    assert forall k :: 0 <= k < |y| ==> w[k] == y[k] && w[k] in y;
    assert |x| == |y|;
    assert x == w[..|x|] && y == w[..|x|] && u == w[|x| + 1..] && v == w[|x| + 1..];
  }

  lemma SameBehind(x: string, u: string, y: string, v: string, c: char)
    requires x + [c] + u == y + [c] + v && Free(u, c) && Free(v, c)
    ensures x == y && u == v
  {
    if |x| < |y| {
      IsBehind(x, u, y, v, c);
    } else if |y| < |x| {
      IsBehind(y, v, x, u, c);
    }
    var w := x + [c] + u;
    assert x == w[..|x|] && y == w[..|x|] && u == w[|x| + 1..] && v == w[|x| + 1..];
  }

  /** A separator further on is behind the first one. */
  lemma IsBehind(x: string, u: string, y: string, v: string, c: char)
    requires x + [c] + u == y + [c] + v && |x| < |y|
    ensures c in u
  {
    var w := y + [c] + v;
    assert w[|y|] == c && w == x + [c] + u;
    assert u[|y| - |x| - 1] == w[|y|];
  }

  /** Files have different names without colons, closing angle brackets and zeros, and places have no zeros. */
  ghost predicate WellNamed(project: Project)
    requires project.Valid()
  {
    && (forall f, g :: 0 <= f < g < |project.names| ==> project.names[f] != project.names[g])
    && (forall f :: 0 <= f < |project.names| ==>
          Free(project.names[f], ':') && Free(project.names[f], '>') && Free(project.names[f], '\0'))
    && forall f, i :: 0 <= f < |project.includes| && 0 <= i < |project.includes[f]| ==>
         Free(project.includes[f][i].place, '\0')
  }

  /** Files with such names are told apart by the texts of the includes between them. */
  lemma WellNamedTellsApart(project: Project)
    requires project.Valid() && WellNamed(project)
    ensures TellsApart(project)
  {
    forall e | project.HasEdge(e)
      ensures e.from < |project.names| && e.to < |project.names| && '\0' !in Part(project, e)
    {
      EdgeNamed(project, e);
      PartIsClean(project.names[e.from], e.place, project.names[e.to]);
    }
    forall e, e' | project.HasEdge(e) && project.HasEdge(e') && Part(project, e) == Part(project, e') ensures e == e' {
      EdgeNamed(project, e);
      EdgeNamed(project, e');
      PartTells(project.names[e.from], e.place, project.names[e.to], project.names[e'.from], e'.place,
                project.names[e'.to]);
    }
  }

  lemma EdgeNamed(project: Project, e: IncludeEdge)
    requires project.Valid() && WellNamed(project) && project.HasEdge(e)
    ensures e.from < |project.names| && e.to < |project.names| && Free(e.place, '\0')
  {
    var directive := Include(false, Some(e.to), e.place);
    var i :| 0 <= i < |project.includes[e.from]| && project.includes[e.from][i] == directive;
  }

  lemma PartIsClean(from: string, place: string, to: string)
    requires Free(from, '\0') && Free(place, '\0') && Free(to, '\0')
    ensures '\0' !in from + ":" + place + "->" + to
  {
  }

  lemma PartTells(from: string, place: string, to: string, from': string, place': string, to': string)
    requires from + ":" + place + "->" + to == from' + ":" + place' + "->" + to'
    requires Free(from, ':') && Free(from', ':') && Free(to, '>') && Free(to', '>')
    ensures from == from' && place == place' && to == to'
  {
    var u, v := place + "-" + ">" + to, place' + "-" + ">" + to';
    assert from + ":" + u == from + ":" + place + "->" + to;
    assert from' + ":" + v == from' + ":" + place' + "->" + to';
    assert [':'] == ":" && ['>'] == ">";
    SameUpTo(from, u, from', v, ':');
    SameBehind(place + "-", to, place' + "-", to', '>');
    assert place == (place + "-")[..|place|] && place' == (place' + "-")[..|place'|];
  }

  function JoinedRest(parts: seq<string>): string {
    if |parts| <= 1 then "" else "\0" + Joined(parts[1..])
  }

  lemma JoinedSplits(parts: seq<string>)
    requires parts != []
    ensures Joined(parts) == parts[0] + JoinedRest(parts)
    ensures |parts| == 1 ==> JoinedRest(parts) == ""
    ensures |parts| > 1 ==>
      |JoinedRest(parts)| > 0 && JoinedRest(parts)[0] == '\0' && JoinedRest(parts)[1..] == Joined(parts[1..])
  {
  }

  ghost predicate Clean(parts: seq<string>) {
    forall x :: x in parts ==> '\0' !in x
  }

  /** Texts without the separator can be read off what is joined from them. */
  lemma {:induction false} JoinedIsInjective(a: seq<string>, b: seq<string>)
    requires a != [] && b != [] && Joined(a) == Joined(b) && Clean(a) && Clean(b)
    ensures a == b
    decreases |a|
  {
    hide Joined, JoinedRest;
    JoinedSplits(a);
    JoinedSplits(b);
    SameFirst(a[0], JoinedRest(a), b[0], JoinedRest(b));
    if |a| > 1 {
      JoinedIsInjective(a[1..], b[1..]);
    }
    assert a == [a[0]] + a[1..] && b == [b[0]] + b[1..];
  }

  lemma SamePartsSameEdges(project: Project, a: seq<IncludeEdge>, b: seq<IncludeEdge>)
    requires project.Valid() && TellsApart(project) && Named(project, a) && Named(project, b)
    requires (forall i :: 0 <= i < |a| ==> project.HasEdge(a[i]))
      && (forall i :: 0 <= i < |b| ==> project.HasEdge(b[i]))
    requires a != [] && b != [] && Joined(Parts(project, a)) == Joined(Parts(project, b))
    ensures a == b
  {
    hide Joined, Part, Project.HasEdge;
    JoinedIsInjective(Parts(project, a), Parts(project, b));
    forall i | 0 <= i < |a| ensures a[i] == b[i] {
      assert Parts(project, a)[i] == Parts(project, b)[i];
    }
  }

  lemma HasAKey(project: Project, edges: seq<IncludeEdge>) returns (key: string)
    requires edges != [] && Named(project, edges)
    ensures IsKey(project, edges, key)
  {
    var parts := Parts(project, edges);
    key := LeastOf(parts, |parts|);
  }

  lemma {:induction false} LeastOf(parts: seq<string>, n: nat) returns (key: string)
    requires 0 < n <= |parts|
    ensures exists i :: 0 <= i < n && key == Candidate(parts, i)
    ensures forall i :: 0 <= i < n ==> !Less(Candidate(parts, i), key)
    decreases n
  {
    hide Candidate, Less;
    var last := Candidate(parts, n - 1);
    NotLessItself(last);
    if n == 1 {
      key := last;
    } else {
      key := LeastOf(parts, n - 1);
      if Less(last, key) {
        forall i | 0 <= i < n - 1 ensures !Less(Candidate(parts, i), last) {
          NotBelowEither(Candidate(parts, i), last, key);
        }
        key := last;
      }
    }
  }

  /** No cycle is reported twice, wherever it is entered: no two of those reported are rotations of each other. */
  lemma NoRotationTwice(project: Project, cycles: seq<IncludeCycle>, i: nat, j: nat, r: nat)
    requires project.Valid() && KeysDiffer(project, cycles) && forall c :: c in cycles ==> IsGenuine(project, c)
    requires i < |cycles| && j < |cycles| && i != j && r < |cycles[i].edges|
    ensures cycles[j].edges != Rotated(cycles[i].edges, r)
  {
    hide IsKey, KeysDiffer, Reaches, Project.EdgePairs, Rotated;
    var a, b := cycles[i].edges, cycles[j].edges;
    assert IsGenuine(project, cycles[i]) && IsGenuine(project, cycles[j]);
    if b == Rotated(a, r) {
      var key := HasAKey(project, a);
      var other := HasAKey(project, b);
      KeyOfRotation(project, a, r, key, other);
      SharedKey(project, cycles, i, j, key);
    }
  }

  lemma SharedKey(project: Project, cycles: seq<IncludeCycle>, i: nat, j: nat, key: string)
    requires KeysDiffer(project, cycles) && i < |cycles| && j < |cycles| && IsKey(project, cycles[i].edges, key)
    requires IsKey(project, cycles[j].edges, key)
    ensures i == j
  {
    hide IsKey;
  }

  lemma RotationsMeet<T>(a: seq<T>, i: nat, b: seq<T>, j: nat) returns (r: nat)
    requires i < |a| && j < |b| && Rotated(a, i) == Rotated(b, j)
    ensures r < |a| && b == Rotated(a, r)
  {
    RotatedAt(a, i, 0);
    RotatedAt(b, j, 0);
    RotatedTwice(b, j, |b| - j);
    RotatedTwice(a, i, |a| - j);
    assert Rotated(b, |b|) == b && Rotated(a, |a|) == Rotated(a, 0);
    hide Rotated;
    r := if i < j then i + |a| - j else i - j;
  }

  lemma RotatedParts(project: Project, edges: seq<IncludeEdge>, i: nat)
    requires Named(project, edges) && i < |edges|
    ensures Named(project, Rotated(edges, i)) && Parts(project, Rotated(edges, i)) == Rotated(Parts(project, edges), i)
    ensures forall e :: e in Rotated(edges, i) ==> e in edges
    ensures |Rotated(edges, i)| == |edges|
  {
  }

  /** Where texts tell includes apart, cycles with the same key differ only in where they start. */
  lemma SameKeyIsRotation(project: Project, a: seq<IncludeEdge>, b: seq<IncludeEdge>, key: string) returns (r: nat)
    requires project.Valid() && TellsApart(project) && IsKey(project, a, key) && IsKey(project, b, key)
    requires IsIncludeCycle(project, a) && IsIncludeCycle(project, b)
    ensures r < |a| && b == Rotated(a, r)
  {
    hide Joined, Less, Part, Project.HasEdge, Rotated, Project.Valid, TellsApart;
    var i :| 0 <= i < |a| && key == Candidate(Parts(project, a), i);
    var j :| 0 <= j < |b| && key == Candidate(Parts(project, b), j);
    RotatedParts(project, a, i);
    RotatedParts(project, b, j);
    assert forall e :: e in a ==> project.HasEdge(e);
    assert forall e :: e in b ==> project.HasEdge(e);
    SamePartsSameEdges(project, Rotated(a, i), Rotated(b, j));
    r := RotationsMeet(a, i, b, j);
  }

  lemma {:induction false} AlongCycle(project: Project, edges: seq<IncludeEdge>, i: nat)
    requires IsIncludeCycle(project, edges) && i < |edges|
    ensures Reaches(project.EdgePairs(), edges[0].from, edges[i].from)
    decreases i
  {
    hide Project.EdgePairs, Project.HasEdge, Reaches;
    if i == 0 {
      ReachesSelf(project.EdgePairs(), edges[0].from);
    } else {
      AlongCycle(project, edges, i - 1);
      HasEdgeIsPair(project, edges[i - 1]);
      ReachesSnoc(project.EdgePairs(), edges[0].from, edges[i - 1].from, edges[i].from);
    }
  }

  /**
   Where texts tell includes apart, every unit whose includes are cyclic has a cycle it reaches among those
   reported.
   */
  lemma OwnCycleReported(project: Project, cycles: seq<IncludeCycle>, unit: nat) returns (c: IncludeCycle)
    requires project.Valid() && TellsApart(project) && UnitCovered(project, cycles, unit) && CyclicFrom(project, unit)
    requires forall c :: c in cycles ==> IsGenuine(project, c)
    ensures c in cycles && IsIncludeCycle(project, c.edges) && Reaches(project.EdgePairs(), unit, c.edges[0].from)
  {
    hide Project.EdgePairs, Project.HasEdge, Reaches, IsKey, CyclicFrom, TellsApart, Project.Valid, IsIncludeCycle;
    var edges: seq<IncludeEdge> :| edges != [] && Reports(project, cycles, unit, edges);
    var key;
    c, key :| c in cycles && IsKey(project, edges, key) && IsKey(project, c.edges, key);
    assert IsGenuine(project, c);
    var r := SameKeyIsRotation(project, edges, c.edges, key);
    assert c.edges[0] == edges[r];
    AlongCycle(project, edges, r);
    ReachesTransitive(project.EdgePairs(), unit, edges[0].from, edges[r].from);
  }
}
