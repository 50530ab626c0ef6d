/**
 Labelling all conditional branches of a file. The labels decide which directives are active, and the
 tests that give labels look at active directives, so the loop reads labels that it has not all written.
 */
module ConditionalStates {
  import opened Wrappers
  import opened Defines
  import opened Conditionals

  /** A branch by its region and its place in it; regions are numbered in the order of the tree. */
  type BranchId = (nat, nat)

  /** A #define or #undef, the branches around it, and whether it is in code that several branches share. */
  datatype Place = Place(start: nat, undef: bool, name: nat, shared: bool, around: set<BranchId>)

  type Labels = map<BranchId, Label>

  datatype File = File(names: seq<nat>, places: seq<Place>, snapshots: seq<Snapshot>, regions: seq<seq<Branch>>) {

    predicate Has(b: BranchId) {
      b.0 < |regions| && b.1 < |regions[b.0]|
    }

    /** Branches and what they hold are in source order, and a later region is inside an earlier one or behind it. */
    ghost predicate Valid() {
      && ModelUnder(this, map[]).Valid()
      && (forall p, b {:trigger b in places[p].around} :: 0 <= p < |places| && b in places[p].around ==>
            Has(b) && regions[b.0][b.1].start <= places[p].start)
      && (forall r, i, j :: 0 <= r < |regions| && 0 <= i < j < |regions[r]| ==>
            regions[r][i].start <= regions[r][j].start)
      && forall p, b, r: nat, j: nat {:trigger b in places[p].around, Has((r, j))} ::
           0 <= p < |places| && b in places[p].around && r < b.0 && Has((r, j)) ==>
             places[p].start < regions[r][j].start ==> InEarlier(places[p], r, j)
    }
  }

  /** The directive is in an earlier branch of the region. */
  ghost predicate InEarlier(place: Place, r: nat, j: nat) {
    exists i: nat :: i < j && (r, i) in place.around
  }

  /** A directive is active unless some branch around it has a label that says otherwise; without a label none does. */
  predicate IsActive(place: Place, labels: Labels) {
    !place.shared && forall b :: b in place.around && b in labels ==> labels[b] == Active
  }

  /** What the cursor reads under the labels there are. */
  function ModelUnder(file: File, labels: Labels): Source {
    Source(file.names,
           seq(|file.places|, p requires 0 <= p < |file.places| =>
             Directive(file.places[p].start, IsActive(file.places[p], labels), file.places[p].undef,
                 file.places[p].name)),
           file.snapshots, 0)
  }

  ghost predicate Extends(labels: Labels, more: Labels) {
    forall b :: b in labels ==> b in more && more[b] == labels[b]
  }

  // ----- Directives whose activity is settled -----

  /** No further label can change whether the directive is active. */
  ghost predicate Decided(place: Place, labels: Labels) {
    || place.shared
    || (exists b :: b in place.around && b in labels && labels[b] != Active)
    || forall b :: b in place.around ==> b in labels
  }

  ghost predicate DecidedBefore(file: File, labels: Labels, offset: int) {
    forall p :: 0 <= p < |file.places| && file.places[p].start < offset ==> Decided(file.places[p], labels)
  }

  lemma DecidedStays(place: Place, labels: Labels, more: Labels)
    requires Decided(place, labels) && Extends(labels, more)
    ensures Decided(place, more) && (IsActive(place, labels) <==> IsActive(place, more))
  {
    if b :| b in place.around && b in labels && labels[b] != Active {
      assert more[b] != Active;
    }
  }

  lemma DecidedBeforeStays(file: File, labels: Labels, more: Labels, offset: int)
    requires DecidedBefore(file, labels, offset) && Extends(labels, more)
    ensures DecidedBefore(file, more, offset)
  {
    hide Decided;
    forall p | 0 <= p < |file.places| && file.places[p].start < offset ensures Decided(file.places[p], more) {
      DecidedStays(file.places[p], labels, more);
    }
  }

  /** Where the directives before an offset are decided, any two sets of further labels agree on them. */
  lemma SameModels(file: File, labels: Labels, a: Labels, b: Labels, offset: int)
    requires DecidedBefore(file, labels, offset) && Extends(labels, a) && Extends(labels, b)
    ensures SameButActivity(ModelUnder(file, a), ModelUnder(file, b))
    ensures forall p :: 0 <= p < |file.places| && ModelUnder(file, a).Before(file.places[p].start, offset) ==>
      ModelUnder(file, a).directives[p] == ModelUnder(file, b).directives[p]
  {
    hide Decided, IsActive;
    forall p | 0 <= p < |file.places| && file.places[p].start < offset
      ensures ModelUnder(file, a).directives[p] == ModelUnder(file, b).directives[p]
    {
      DecidedStays(file.places[p], labels, a);
      DecidedStays(file.places[p], labels, b);
    }
  }

  lemma SameNames(file: File, labels: Labels, a: Labels, b: Labels, offset: int)
    requires DecidedBefore(file, labels, offset) && Extends(labels, a) && Extends(labels, b)
    ensures NamesAt(ModelUnder(file, a), offset) == NamesAt(ModelUnder(file, b), offset)
  {
    SameModels(file, labels, a, b, offset);
    var m, m' := ModelUnder(file, a), ModelUnder(file, b);
    hide KnownAt, ModelUnder, SameButActivity;
    forall name: nat ensures KnownAt(m, offset, name) <==> KnownAt(m', offset, name) {
      AgreeOnKnown(file, labels, a, b, offset, name);
    }
  }

  lemma AgreeOnKnown(file: File, labels: Labels, a: Labels, b: Labels, offset: int, name: nat)
    requires DecidedBefore(file, labels, offset) && Extends(labels, a) && Extends(labels, b)
    ensures KnownAt(ModelUnder(file, a), offset, name) <==> KnownAt(ModelUnder(file, b), offset, name)
  {
    hide KnownAt, IsActive, Decided;
    SameModels(file, labels, a, b, offset);
    SameKnownAt(ModelUnder(file, a), ModelUnder(file, b), offset, name);
  }

  lemma StillValid(file: File, labels: Labels)
    requires file.Valid()
    ensures ModelUnder(file, labels).Valid()
  {
    var m, m' := ModelUnder(file, map[]), ModelUnder(file, labels);
    assert forall i :: 0 <= i < |m.directives| ==> m.directives[i].start == m'.directives[i].start;
  }

  // ----- Regions that have their labels -----

  /** The labels of all earlier regions and of the first j branches of region r have been given. */
  ghost predicate LabelledTo(file: File, labels: Labels, r: nat, j: nat) {
    forall b: BranchId :: b in labels <==> file.Has(b) && (b.0 < r || (b.0 == r && b.1 < j))
  }

  ghost function ValuesUnder(file: File, complete: bool, labels: Labels, r: nat): (values: seq<Option<int>>)
    requires r < |file.regions|
    ensures |values| == |file.regions[r]|
  {
    Values(ModelUnder(file, labels), complete, file.regions[r])
  }

  /** The first n labels are those that the tests have under all labels given so far, and will keep. */
  ghost predicate RegionDone(file: File, complete: bool, labels: Labels, r: nat, n: nat)
    requires r < |file.regions| && n <= |file.regions[r]|
  {
    var region, values := file.regions[r], ValuesUnder(file, complete, labels, r);
    forall j: nat {:trigger (r, j) in labels} :: j < n ==>
      && (r, j) in labels && labels[(r, j)] == LabelsFor(region, values)[j]
      && (Evaluated(region, values, j) ==> DecidedBefore(file, labels, region[j].start))
  }

  /** A test whose directives are decided keeps its value. */
  lemma SameValue(file: File, complete: bool, labels: Labels, a: Labels, b: Labels, r: nat, j: nat)
    requires r < |file.regions| && j < |file.regions[r]|
    requires DecidedBefore(file, labels, file.regions[r][j].start) && Extends(labels, a) && Extends(labels, b)
    ensures ValuesUnder(file, complete, a, r)[j] == ValuesUnder(file, complete, b, r)[j]
  {
    hide DecidedBefore, ModelUnder, Value, NamesAt, Extends;
    SameNames(file, labels, a, b, file.regions[r][j].start);
  }

  lemma ExtendsSelf(labels: Labels)
    ensures Extends(labels, labels)
  {
  }

  /** Further labels change nothing for a region that has its own. */
  lemma RegionStaysDone(file: File, complete: bool, labels: Labels, more: Labels, r: nat, n: nat)
    requires r < |file.regions| && n <= |file.regions[r]| && RegionDone(file, complete, labels, r, n)
    requires Extends(labels, more)
    ensures RegionDone(file, complete, more, r, n)
    ensures ReachedAfter(file.regions[r], ValuesUnder(file, complete, more, r), n)
      == ReachedAfter(file.regions[r], ValuesUnder(file, complete, labels, r), n)
  {
    hide DecidedBefore, ValuesUnder, LabelsFor, ReachedAfter;
    var region := file.regions[r];
    var values, values' := ValuesUnder(file, complete, labels, r), ValuesUnder(file, complete, more, r);
    ExtendsSelf(labels);
    forall j: nat | j < n && Evaluated(region, values, j) ensures values[j] == values'[j] {
      assert (r, j) in labels;
      SameValue(file, complete, labels, labels, more, r, j);
    }
    SameReached(region, values, values', n);
    forall j: nat | j < n
      ensures (r, j) in more && more[(r, j)] == LabelsFor(region, values')[j]
      ensures Evaluated(region, values', j) ==> DecidedBefore(file, more, region[j].start)
    {
      assert (r, j) in labels;
      assert LabelsFor(region, values)[j] == LabelsFor(region, values)[..n][j];
      assert LabelsFor(region, values')[j] == LabelsFor(region, values')[..n][j];
      if Evaluated(region, values', j) {
        DecidedBeforeStays(file, labels, more, region[j].start);
      }
    }
  }

  /** While a branch is still reached, no branch before it is active. */
  lemma {:induction false} NoneActiveYet(region: seq<Branch>, values: seq<Option<int>>, n: nat)
    requires |values| == |region| && n <= |region| && ReachedAfter(region, values, n) != Inactive
    ensures forall i :: 0 <= i < n ==> LabelsFor(region, values)[i] != Active
    decreases n
  {
    if n > 0 {
      NoneActiveYet(region, values, n - 1);
    }
  }

  /** When a test is looked at, every directive before it is decided, though inner regions have no labels yet. */
  lemma ReadyToTest(file: File, labels: Labels, r: nat, j: nat)
    requires file.Valid() && r < |file.regions| && j < |file.regions[r]| && LabelledTo(file, labels, r, j)
    requires forall i: nat {:trigger (r, i) in labels} :: i < j ==> (r, i) in labels && labels[(r, i)] != Active
    ensures DecidedBefore(file, labels, file.regions[r][j].start)
  {
    hide ModelUnder;
    assert file.Has((r, j));
    forall p | 0 <= p < |file.places| && file.places[p].start < file.regions[r][j].start
      ensures Decided(file.places[p], labels)
    {
      var place := file.places[p];
      if b :| b in place.around && b.0 > r {
        assert InEarlier(place, r, j);
        var i: nat :| i < j && (r, i) in place.around;
        assert (r, i) in labels;
      } else {
        forall b | b in place.around ensures b in labels {
          assert b.0 <= r && file.Has(b) && file.regions[b.0][b.1].start <= place.start;
          assert b.0 == r ==> b.1 < j;
        }
      }
    }
  }

  // ----- The loop -----

  ghost predicate AllDone(file: File, complete: bool, labels: Labels, r: nat, j: nat)
    requires r <= |file.regions| && (if r < |file.regions| then j <= |file.regions[r]| else j == 0)
  {
    && LabelledTo(file, labels, r, j)
    && (forall q :: 0 <= q < r ==> RegionDone(file, complete, labels, q, |file.regions[q]|))
    && (r < |file.regions| ==> RegionDone(file, complete, labels, r, j))
  }

  /** The cursor reads the labels there are, and has passed only directives that are decided. */
  ghost predicate InStep(file: File, labels: Labels, cursor: DefineCursor)
    reads cursor, cursor.values
  {
    cursor.Valid() && cursor.model == ModelUnder(file, labels) && DecidedBefore(file, labels, cursor.offset)
  }

  /** Writing a label changes nothing that the cursor has passed. */
  method WriteLabel(file: File, cursor: DefineCursor, ghost done: Labels, labels: Labels, b: BranchId, mark: Label)
    returns (labels': Labels)
    requires file.Valid() && cursor.Valid() && cursor.model == ModelUnder(file, labels)
    requires DecidedBefore(file, done, cursor.offset) && Extends(done, labels) && b !in done
    modifies cursor`model
    ensures labels' == labels[b := mark] && cursor.Valid() && cursor.model == ModelUnder(file, labels')
    ensures Extends(done, labels')
  {
    hide DecidedBefore, DefineCursor.Valid;
    labels' := labels[b := mark];
    SameModels(file, done, labels, labels', cursor.offset);
    StillValid(file, labels');
    cursor.Reread(ModelUnder(file, labels'));
  }

  /** One more label, from the value that the test of its branch has. */
  lemma OneMoreDone(file: File, complete: bool, done: Labels, during: Labels, r: nat, j: nat, reached: Label,
      mark: Label,
                    value: Option<int>)
    requires file.Valid() && r < |file.regions| && j < |file.regions[r]| && AllDone(file, complete, done, r, j)
    requires Extends(done, during) && reached == ReachedAfter(file.regions[r], ValuesUnder(file, complete, done, r), j)
    requires var branch := file.regions[r][j];
      && (branch.opening.Test? && reached != Inactive ==>
            value == ValuesUnder(file, complete, during, r)[j] && DecidedBefore(file, done, branch.start))
      && mark == LabelOf(branch, value, reached)
    ensures AllDone(file, complete, done[(r, j) := mark], r, j + 1)
    ensures ReachedAfter(file.regions[r], ValuesUnder(file, complete, done[(r, j) := mark], r), j + 1)
      == NextReached(file.regions[r][j], value, reached)
  {
    hide DecidedBefore, ModelUnder, Extends, LabelsFor, RegionDone, LabelledTo, ValuesUnder, File.Valid;
    var region, more := file.regions[r], done[(r, j) := mark];
    NotGiven(file, done, r, j);
    Overwritten(done, (r, j), mark);
    forall q | 0 <= q < r ensures RegionDone(file, complete, more, q, |file.regions[q]|) {
      RegionStaysDone(file, complete, done, more, q, |file.regions[q]|);
    }
    RegionStaysDone(file, complete, done, more, r, j);
    if Evaluated(region, ValuesUnder(file, complete, more, r), j) {
      SameValue(file, complete, done, during, more, r, j);
      DecidedBeforeStays(file, done, more, region[j].start);
    }
    DoneNext(file, complete, more, r, j);
    LabelledNext(file, done, r, j, mark);
  }

  lemma LabelledNext(file: File, labels: Labels, r: nat, j: nat, mark: Label)
    requires LabelledTo(file, labels, r, j) && file.Has((r, j))
    ensures LabelledTo(file, labels[(r, j) := mark], r, j + 1)
  {
  }

  lemma DoneNext(file: File, complete: bool, labels: Labels, r: nat, j: nat)
    requires r < |file.regions| && j < |file.regions[r]| && RegionDone(file, complete, labels, r, j)
    requires var region, values := file.regions[r], ValuesUnder(file, complete, labels, r);
      && (r, j) in labels && labels[(r, j)] == LabelOf(region[j], values[j], ReachedAfter(region, values, j))
      && (Evaluated(region, values, j) ==> DecidedBefore(file, labels, region[j].start))
    ensures RegionDone(file, complete, labels, r, j + 1)
  {
    hide DecidedBefore, ValuesUnder, Evaluated, ReachedAfter, LabelOf;
    var region, values := file.regions[r], ValuesUnder(file, complete, labels, r);
    forall k: nat | k < j + 1
      ensures (r, k) in labels && labels[(r, k)] == LabelsFor(region, values)[k]
      ensures Evaluated(region, values, k) ==> DecidedBefore(file, labels, region[k].start)
    {
      assert LabelsFor(region, values)[k] == LabelOf(region[k], values[k], ReachedAfter(region, values, k));
    }
  }

  /** Gives the branches of a region their labels. */
  method LabelRegion(file: File, complete: bool, cursor: DefineCursor, r: nat, given: Labels) returns (labels: Labels)
    requires file.Valid() && r < |file.regions| && AllDone(file, complete, given, r, 0) && InStep(file, given, cursor)
    modifies cursor, cursor.values
    ensures AllDone(file, complete, labels, r, |file.regions[r]|) && InStep(file, labels, cursor)
  {
    hide *;
    labels := given;
    var region := file.regions[r];
    var reached := Active;
    NothingReached(region, ValuesUnder(file, complete, given, r));
    for j := 0 to |region|
      invariant AllDone(file, complete, labels, r, j) && InStep(file, labels, cursor)
      invariant reached == ReachedAfter(region, ValuesUnder(file, complete, labels, r), j)
    {
      reached, labels := LabelBranch(file, complete, cursor, r, j, labels, reached);
    }
  }

  lemma NothingReached(region: seq<Branch>, values: seq<Option<int>>)
    requires |values| == |region|
    ensures ReachedAfter(region, values, 0) == Active
  {
  }

  method LabelBranch(file: File, complete: bool, cursor: DefineCursor, r: nat, j: nat, given: Labels, reached: Label)
    returns (reached': Label, labels: Labels)
    requires file.Valid() && r < |file.regions| && j < |file.regions[r]|
    requires AllDone(file, complete, given, r, j) && InStep(file, given, cursor)
    requires reached == ReachedAfter(file.regions[r], ValuesUnder(file, complete, given, r), j)
    modifies cursor, cursor.values
    ensures AllDone(file, complete, labels, r, j + 1) && InStep(file, labels, cursor)
    ensures reached' == ReachedAfter(file.regions[r], ValuesUnder(file, complete, labels, r), j + 1)
  {
    hide RegionDone, DecidedBefore, ModelUnder, ReachedAfter, LabelsFor, DefineCursor.Valid, Extends, File.Valid,
        LabelledTo,
      Value, NamesAt;
    var branch := file.regions[r][j];
    ExtendsSelf(given);
    NotGiven(file, given, r, j);
    labels := WriteLabel(file, cursor, given, given, (r, j), Uncertain);
    ghost var during := labels;
    var mark, value := Uncertain, None;
    reached' := reached;
    match branch.opening {
    case Missing =>
    case Endif =>
    case Else =>
      mark, reached' := reached, Inactive;
    case Test(condition) =>
      if reached == Inactive {
        mark := Inactive;
      } else {
        BeforeTest(file, complete, given, r, j);
        value := DirectiveValue(cursor, complete, condition, branch.start);
        if value == None {
          reached' := Uncertain;
        } else if value.value == 0 {
          mark := Inactive;
        } else {
          mark, reached' := reached, Inactive;
        }
      }
    }
    labels := WriteLabel(file, cursor, given, labels, (r, j), mark);
    Overwritten(given, (r, j), mark);
    OneMoreDone(file, complete, given, during, r, j, reached, mark, value);
    DecidedBeforeStays(file, given, labels, cursor.offset);
  }

  lemma NotGiven(file: File, labels: Labels, r: nat, j: nat)
    requires LabelledTo(file, labels, r, j)
    ensures (r, j) !in labels
  {
  }

  lemma Overwritten(given: Labels, b: BranchId, mark: Label)
    requires b !in given
    ensures given[b := Uncertain][b := mark] == given[b := mark] && Extends(given, given[b := mark])
  {
  }

  lemma DoneHas(file: File, complete: bool, labels: Labels, r: nat, n: nat, i: nat)
    requires r < |file.regions| && n <= |file.regions[r]| && RegionDone(file, complete, labels, r, n) && i < n
    ensures (r, i) in labels
    ensures labels[(r, i)] == LabelsFor(file.regions[r], ValuesUnder(file, complete, labels, r))[i]
  {
    hide DecidedBefore, ValuesUnder, LabelsFor, Evaluated;
    var b := (r, i);
    assert b in labels || b !in labels;
  }

  lemma BeforeTest(file: File, complete: bool, labels: Labels, r: nat, j: nat)
    requires file.Valid() && r < |file.regions| && j < |file.regions[r]| && AllDone(file, complete, labels, r, j)
    requires ReachedAfter(file.regions[r], ValuesUnder(file, complete, labels, r), j) != Inactive
    ensures DecidedBefore(file, labels, file.regions[r][j].start)
  {
    hide DecidedBefore, File.Valid, LabelledTo, ReachedAfter, ValuesUnder, LabelsFor;
    var values := ValuesUnder(file, complete, labels, r);
    NoneActiveYet(file.regions[r], values, j);
    forall i: nat | i < j ensures (r, i) in labels && labels[(r, i)] != Active {
      DoneHas(file, complete, labels, r, j, i);
    }
    ReadyToTest(file, labels, r, j);
  }

  // ----- Whole files -----

  ghost function LabelsOf(file: File, labels: Labels, r: nat): (own: seq<Label>)
    requires r < |file.regions| && forall j: nat {:trigger (r, j) in labels} :: j < |file.regions[r]| ==>
      (r, j) in labels
    ensures |own| == |file.regions[r]|
  {
    seq(|file.regions[r]|, j requires 0 <= j < |file.regions[r]| => assert (r, j) in labels; labels[(r, j)])
  }

  /** Every branch has a label, and for each region the labels say all that can be said under the final labels. */
  ghost predicate FinallyExact(file: File, complete: bool, labels: Labels) {
    && (forall b: BranchId :: b in labels <==> file.Has(b))
    && forall r: nat {:trigger ValuesUnder(file, complete, labels, r)} :: r < |file.regions| ==>
         && (forall j: nat {:trigger (r, j) in labels} :: j < |file.regions[r]| ==> (r, j) in labels)
         && Exact(file.regions[r], ValuesUnder(file, complete, labels, r), LabelsOf(file, labels, r))
  }

  /**
   Under the final labels a directive counts exactly if it is not in shared code and every branch around it is taken
   whatever comes out of the tests without a value.
   */
  lemma ActiveIffTaken(file: File, complete: bool, labels: Labels, p: nat)
    requires file.Valid() && FinallyExact(file, complete, labels) && p < |file.places|
    ensures forall b :: b in file.places[p].around ==> file.Has(b)
    ensures ModelUnder(file, labels).directives[p].active <==>
      && !file.places[p].shared
      && forall b :: b in file.places[p].around ==>
           AlwaysTaken(file.regions[b.0], ValuesUnder(file, complete, labels, b.0), b.1)
  {
    hide AlwaysTaken, NeverTaken, ValuesUnder;
    forall b | b in file.places[p].around
      ensures file.Has(b)
      ensures b in labels
      ensures labels[b] == Active <==> AlwaysTaken(file.regions[b.0], ValuesUnder(file, complete, labels, b.0), b.1)
    {
      assert file.Has(b);
      var region, values := file.regions[b.0], ValuesUnder(file, complete, labels, b.0);
      assert LabelsOf(file, labels, b.0)[b.1] == labels[(b.0, b.1)];
      if !Chooses(region[b.1]) {
        NotChosen(region, values, b.1);
      }
    }
  }

  lemma NotChosen(region: seq<Branch>, values: seq<Option<int>>, i: nat)
    requires |values| == |region| && i < |region| && !Chooses(region[i])
    ensures !AlwaysTaken(region, values, i)
  {
    assert Agrees(region, values, OnlyTrue(region, values, -1));
    assert !Taken(region, OnlyTrue(region, values, -1), i);
  }

  lemma DoneIsExact(file: File, complete: bool, labels: Labels, r: nat)
    requires r < |file.regions| && RegionDone(file, complete, labels, r, |file.regions[r]|)
    ensures forall j: nat {:trigger (r, j) in labels} :: j < |file.regions[r]| ==> (r, j) in labels
    ensures Exact(file.regions[r], ValuesUnder(file, complete, labels, r), LabelsOf(file, labels, r))
  {
    hide DecidedBefore, LabelsFor, Exact, ValuesUnder;
    var region, values := file.regions[r], ValuesUnder(file, complete, labels, r);
    LabelsAreExact(region, values);
    forall j: nat | j < |region| ensures (r, j) in labels && labels[(r, j)] == LabelsFor(region, values)[j] {
    }
    assert LabelsOf(file, labels, r) == LabelsFor(region, values);
  }

  /**
   Labels all branches of a file with one cursor. The labels are exact for the defines that are active under
   these very labels, although they are computed while most of them are missing.
   */
  method IndexConditionalStates(file: File, complete: bool) returns (labels: Labels)
    requires file.Valid()
    ensures FinallyExact(file, complete, labels)
  {
    hide RegionDone, DecidedBefore, ModelUnder, DefineCursor.Valid, ValuesUnder, Exact;
    labels := map[];
    StillValid(file, labels);
    var cursor := new DefineCursor(ModelUnder(file, labels));
    NothingDone(file, complete);
    for r := 0 to |file.regions|
      invariant AllDone(file, complete, labels, r, 0) && InStep(file, labels, cursor) && fresh(cursor)
        && fresh(cursor.values)
    {
      labels := LabelRegion(file, complete, cursor, r, labels);
      NextRegion(file, complete, labels, r);
    }
    forall r: nat | r < |file.regions|
      ensures (forall j: nat {:trigger (r, j) in labels} :: j < |file.regions[r]| ==> (r, j) in labels)
        && Exact(file.regions[r], ValuesUnder(file, complete, labels, r), LabelsOf(file, labels, r))
    {
      DoneIsExact(file, complete, labels, r);
    }
  }

  lemma NothingDone(file: File, complete: bool)
    ensures AllDone(file, complete, map[], 0, 0) && DecidedBefore(file, map[], -1)
  {
  }

  lemma NextRegion(file: File, complete: bool, labels: Labels, r: nat)
    requires r < |file.regions| && AllDone(file, complete, labels, r, |file.regions[r]|)
    ensures AllDone(file, complete, labels, r + 1, 0)
  {
  }
}
