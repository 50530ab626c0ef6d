/**
 Which nodes of a body are looked at when its graph is built, and what makes a function uncertain, read off the tree
 alone: a way leads from the body down to a node through active nodes, and from a switch only into its clauses.
 */
module CfgVisits {
  import opened Wrappers
  import opened Cfg
  import opened CfgAgreement

  function ListOf(tree: Option<Node>): seq<Node> {
    if tree == None then [] else [tree.value]
  }

  /** What lies directly below a node. */
  function Below(node: Node): seq<Node> {
    match node.kind
    case Region(children) => children
    case Block(children) => children
    case If(consequence, alternative) => ListOf(consequence) + ListOf(alternative)
    case While(_, body) => ListOf(body)
    case DoWhile(_, body) => ListOf(body)
    case Switch(children) => children
    case Clause(_, body) => ListOf(body)
    case _ => []
  }

  ghost predicate Enters(node: Node, child: Node) {
    child in Below(node) && (node.kind.Switch? ==> child.kind.Clause?)
  }

  /** A way down the tree. */
  ghost predicate IsWay(way: seq<Node>) {
    && way != [] && (forall i :: 0 <= i < |way| ==> !way[i].inactive)
    && forall i :: 0 < i < |way| ==> Enters(way[i - 1], way[i])
  }

  ghost predicate IsWayFrom(body: Node, way: seq<Node>) {
    IsWay(way) && way[0] == body
  }

  function Last(way: seq<Node>): Node
    requires way != []
  {
    way[|way| - 1]
  }

  lemma WayOn(node: Node, way: seq<Node>)
    requires IsWay(way) && Enters(node, way[0]) && !node.inactive
    ensures IsWayFrom(node, [node] + way) && Last([node] + way) == Last(way)
  {
    var longer := [node] + way;
    forall i | 0 <= i < |longer| ensures !longer[i].inactive {
      assert i > 0 ==> longer[i] == way[i - 1];
    }
    forall i | 0 < i < |longer| ensures Enters(longer[i - 1], longer[i]) {
      assert i > 1 ==> longer[i - 1] == way[i - 2] && longer[i] == way[i - 1];
    }
  }

  lemma WayRest(way: seq<Node>)
    requires IsWay(way) && |way| > 1
    ensures IsWay(way[1..]) && Last(way[1..]) == Last(way) && Enters(way[0], way[1])
  {
    forall i | 0 < i < |way[1..]| ensures Enters(way[1..][i - 1], way[1..][i]) {
      assert Enters(way[i], way[i + 1]);
    }
    assert Enters(way[0], way[1]);
  }

  // ----- Trouble -----

  ghost predicate TakesBreak(node: Node) {
    node.kind.While? || node.kind.DoWhile? || node.kind.Switch?
  }

  ghost predicate TakesContinue(node: Node) {
    node.kind.While? || node.kind.DoWhile?
  }

  /** The last node of the way is damaged or unclear code, a jump to nowhere, or a label without a name. */
  ghost predicate EndsInTrouble(way: seq<Node>, breaks: bool, continues: bool)
    requires way != []
  {
    var node := Last(way);
    node.damaged || match node.kind
      case Unclear => true
      case Goto(target) => target == None
      case Label(name) => name == ""
      case Break => !breaks && forall i :: 0 <= i < |way| ==> !TakesBreak(way[i])
      case Continue => !continues && forall i :: 0 <= i < |way| ==> !TakesContinue(way[i])
      case _ => false
  }

  /** Trouble below a node, seen from the node. */
  lemma TroubleOn(node: Node, way: seq<Node>, breaks: bool, continues: bool)
    requires IsWay(way) && Enters(node, way[0])
    ensures EndsInTrouble([node] + way, breaks, continues) <==>
      EndsInTrouble(way, breaks || TakesBreak(node), continues || TakesContinue(node))
  {
    var longer := [node] + way;
    assert Last(longer) == Last(way);
    TakersOn(node, way);
    hide TakesBreak, TakesContinue, IsWay, Enters;
  }

  lemma TakersOn(node: Node, way: seq<Node>)
    ensures (forall i :: 0 <= i < |[node] + way| ==> !TakesBreak(([node] + way)[i])) <==>
      !TakesBreak(node) && forall i :: 0 <= i < |way| ==> !TakesBreak(way[i])
    ensures (forall i :: 0 <= i < |[node] + way| ==> !TakesContinue(([node] + way)[i])) <==>
      !TakesContinue(node) && forall i :: 0 <= i < |way| ==> !TakesContinue(way[i])
  {
    hide *;
    var longer := [node] + way;
    assert longer[0] == node && forall i :: 0 <= i < |way| ==> longer[i + 1] == way[i];
    assert forall i :: 0 < i < |longer| ==> longer[i] == way[i - 1];
  }

  ghost predicate TroubledUnder(node: Node, child: Node, breaks: bool, continues: bool) {
    Enters(node, child) && Troubled(child, breaks || TakesBreak(node), continues || TakesContinue(node))
  }

  /** Trouble in a node is at the node or in one below it. */
  lemma TroubledBelow(node: Node, breaks: bool, continues: bool)
    ensures Troubled(node, breaks, continues) <==>
      && !node.inactive
      && (EndsInTrouble([node], breaks, continues)
          || exists child :: TroubledUnder(node, child, breaks, continues))
  {
    var b, c := breaks || TakesBreak(node), continues || TakesContinue(node);
    TroubledInside(node, breaks, continues, b, c);
    if child :| Enters(node, child) && Troubled(child, b, c) {
      assert TroubledUnder(node, child, breaks, continues);
    }
    if child :| TroubledUnder(node, child, breaks, continues) {
      assert Enters(node, child) && Troubled(child, b, c);
    }
  }

  lemma TroubledInside(node: Node, breaks: bool, continues: bool, b: bool, c: bool)
    requires b == (breaks || TakesBreak(node)) && c == (continues || TakesContinue(node))
    ensures Troubled(node, breaks, continues) <==>
      && !node.inactive
      && (EndsInTrouble([node], breaks, continues) || exists child :: Enters(node, child) && Troubled(child, b, c))
  {
    match node.kind {
      case Region(children) => TroubledList(children, b, c);
      case Block(children) => TroubledList(children, b, c);
      case If(consequence, alternative) =>
        TroubledTree(consequence, b, c);
        TroubledTree(alternative, b, c);
      case While(_, body) => TroubledTree(body, b, c);
      case DoWhile(_, body) => TroubledTree(body, b, c);
      case Switch(children) => TroubledChoice(children, c);
      case Clause(_, body) => TroubledTree(body, b, c);
      case _ =>
    }
    EntersIs(node);
  }

  lemma EntersIs(node: Node)
    ensures forall child :: Enters(node, child) <==> child in Below(node) && (node.kind.Switch? ==> child.kind.Clause?)
  {
  }

  lemma TroubledList(nodes: seq<Node>, breaks: bool, continues: bool)
    ensures TroubledSeq(nodes, breaks, continues) <==>
      exists child :: child in nodes && Troubled(child, breaks, continues)
  {
    if TroubledSeq(nodes, breaks, continues) {
      var i :| 0 <= i < |nodes| && Troubled(nodes[i], breaks, continues);
      assert nodes[i] in nodes;
    }
    if child :| child in nodes && Troubled(child, breaks, continues) {
      var i :| 0 <= i < |nodes| && nodes[i] == child;
    }
  }

  lemma TroubledTree(tree: Option<Node>, breaks: bool, continues: bool)
    ensures TroubledOpt(tree, breaks, continues) <==>
      exists child :: child in ListOf(tree) && Troubled(child, breaks, continues)
  {
    if TroubledOpt(tree, breaks, continues) {
      assert tree.value in ListOf(tree);
    }
  }

  lemma TroubledChoice(children: seq<Node>, continues: bool)
    ensures TroubledClauses(children, continues) <==>
      exists child :: child in children && child.kind.Clause? && Troubled(child, true, continues)
  {
    if TroubledClauses(children, continues) {
      var i :| 0 <= i < |children| && children[i].kind.Clause? && Troubled(children[i], true, continues);
      assert children[i] in children;
    }
    if child :| child in children && child.kind.Clause? && Troubled(child, true, continues) {
      var i :| 0 <= i < |children| && children[i] == child;
    }
  }

  /** A body is troubled if and only if a way leads to trouble. */
  lemma {:induction false} WayToTrouble(node: Node, breaks: bool, continues: bool) returns (way: seq<Node>)
    requires Troubled(node, breaks, continues)
    ensures IsWayFrom(node, way) && EndsInTrouble(way, breaks, continues)
    decreases node
  {
    hide Troubled, EndsInTrouble;
    TroubledBelow(node, breaks, continues);
    if EndsInTrouble([node], breaks, continues) {
      way := [node];
    } else {
      var child :| TroubledUnder(node, child, breaks, continues);
      var rest := WayToTrouble(child, breaks || TakesBreak(node), continues || TakesContinue(node));
      WayOn(node, rest);
      TroubleOn(node, rest, breaks, continues);
      way := [node] + rest;
    }
  }

  lemma {:induction false} TroubleOnTheWay(way: seq<Node>, breaks: bool, continues: bool)
    requires IsWay(way) && EndsInTrouble(way, breaks, continues)
    ensures Troubled(way[0], breaks, continues)
    decreases |way|
  {
    hide Troubled, EndsInTrouble, Enters;
    var node := way[0];
    TroubledBelow(node, breaks, continues);
    if |way| == 1 {
      assert way == [node];
    } else {
      WayRest(way);
      assert way == [node] + way[1..];
      TroubleOn(node, way[1..], breaks, continues);
      TroubleOnTheWay(way[1..], breaks || TakesBreak(node), continues || TakesContinue(node));
      assert TroubledUnder(node, way[1], breaks, continues);
    }
  }

  // ----- What is recorded about the nodes -----

  /** A block for a node, a label at a block, a pending jump from a block. */
  datatype Mark = OfBlock(id: nat, b: nat) | OfLabel(name: string, b: nat) | OfGoto(name: string, b: nat)

  ghost predicate Records(facts: Facts, m: Mark) {
    match m
    case OfBlock(id, b) => (id, b) in facts.blocks
    case OfLabel(name, b) => (name, b) in facts.labels
    case OfGoto(name, b) => (b, name) in facts.gotos
  }

  /** What is recorded about one node with a block. */
  ghost predicate MarkOf(node: Node, n: nat, m: Mark) {
    m.b == n && match m
      case OfBlock(id, _) => id == node.id
      case OfLabel(name, _) => node.kind == Label(name) && name != ""
      case OfGoto(name, _) => node.kind == Goto(Some(name))
  }

  /** The second facts record what the first do. */
  ghost predicate RecordsAll(facts: Facts, less: Facts) {
    forall m :: Records(less, m) ==> Records(facts, m)
  }

  lemma RecordsNothing()
    ensures forall m :: !Records(NO_FACTS, m)
  {
  }

  /** A node where the layout puts it. */
  datatype Place = Place(node: Node, n: nat, incoming: set<nat>, t: Targets) {
    ghost function Recorded(): Facts {
      Layout(Built, node, n, incoming, t).facts
    }
  }

  /** What a sequence of nodes records, one of them does. */
  lemma {:induction false} RecordedInSeq(nodes: seq<Node>, n: nat, incoming: set<nat>, t: Targets, m: Mark)
    returns (p: Place)
    requires Records(LayoutSeq(Built, nodes, n, incoming, t).facts, m)
    ensures p.node in nodes && Records(p.Recorded(), m)
    ensures RecordsAll(LayoutSeq(Built, nodes, n, incoming, t).facts, p.Recorded())
    decreases |nodes|
  {
    hide Layout;
    if nodes == [] {
      RecordsNothing();
      assert false;
    } else {
      var first := Layout(Built, nodes[0], n, incoming, t);
      if Records(first.facts, m) {
        p := Place(nodes[0], n, incoming, t);
      } else {
        p := RecordedInSeq(nodes[1..], first.next, first.exits, t, m);
      }
    }
  }

  lemma {:induction false} SeqRecords(nodes: seq<Node>, child: Node, n: nat, incoming: set<nat>, t: Targets)
    returns (p: Place)
    requires child in nodes
    ensures p.node == child && RecordsAll(LayoutSeq(Built, nodes, n, incoming, t).facts, p.Recorded())
    decreases |nodes|
  {
    hide Layout;
    var first := Layout(Built, nodes[0], n, incoming, t);
    if child == nodes[0] {
      p := Place(nodes[0], n, incoming, t);
    } else {
      p := SeqRecords(nodes[1..], child, first.next, first.exits, t);
    }
  }

  /** What the clauses of a switch record, one of them does. */
  lemma {:induction false} RecordedInClauses(children: seq<Node>, s: nat, n: nat, continueTo: Option<nat>, m: Mark)
    returns (p: Place)
    requires Records(LayoutClauses(Built, children, s, n, continueTo).facts, m)
    ensures p.node in children && p.node.kind.Clause? && Records(p.Recorded(), m)
    ensures RecordsAll(LayoutClauses(Built, children, s, n, continueTo).facts, p.Recorded())
    decreases |children|
  {
    hide Layout;
    if children == [] {
      RecordsNothing();
      assert false;
    } else {
      var first := LayoutClause(Built, children[0], s, n, continueTo);
      if Records(first.facts, m) {
        p := Place(children[0], n, {s}, Targets(Some(s + 1), continueTo));
      } else {
        p := RecordedInClauses(children[1..], s, first.next, continueTo, m);
      }
    }
  }

  lemma {:induction false} ClausesRecord(children: seq<Node>, child: Node, s: nat, n: nat, continueTo: Option<nat>)
    returns (p: Place)
    requires child in children && child.kind.Clause?
    ensures p.node == child && RecordsAll(LayoutClauses(Built, children, s, n, continueTo).facts, p.Recorded())
    decreases |children|
  {
    hide Layout;
    var first := LayoutClause(Built, children[0], s, n, continueTo);
    if child == children[0] {
      p := Place(children[0], n, {s}, Targets(Some(s + 1), continueTo));
    } else {
      p := ClausesRecord(children[1..], child, s, first.next, continueTo);
    }
  }

  /** A node with a block records what belongs to it. */
  lemma OwnIsRecorded(node: Node, n: nat, incoming: set<nat>, t: Targets, m: Mark)
    requires OwnsBlock(node) && MarkOf(node, n, m)
    ensures Records(Layout(Built, node, n, incoming, t).facts, m)
  {
    hide LayoutSeq, LayoutOpt, LayoutClauses;
  }

  /** What the layout of a node records belongs to the node or to one below it. */
  lemma RecordedBelow(node: Node, n: nat, incoming: set<nat>, t: Targets, m: Mark) returns (p: Place)
    requires Records(Layout(Built, node, n, incoming, t).facts, m)
    requires !OwnsBlock(node) || !MarkOf(node, n, m)
    ensures !node.inactive && Enters(node, p.node) && Records(p.Recorded(), m)
    ensures RecordsAll(Layout(Built, node, n, incoming, t).facts, p.Recorded())
  {
    hide LayoutSeq, LayoutClauses, LayoutOpt, Records, RecordsAll;
    if node.inactive || !(Below(node) != []) {
      NothingBelow(node, n, incoming, t, m);
      assert false;
    }
    match node.kind {
      case Region(_) => p := RecordedInList(node, n, incoming, t, m);
      case Block(_) => p := RecordedInList(node, n, incoming, t, m);
      case If(_, _) => p := RecordedInIf(node, n, incoming, t, m);
      case Switch(_) => p := RecordedInSwitch(node, n, incoming, t, m);
      case _ => p := RecordedInBody(node, n, incoming, t, m);
    }
  }

  lemma NothingBelow(node: Node, n: nat, incoming: set<nat>, t: Targets, m: Mark)
    requires node.inactive || Below(node) == []
    requires !OwnsBlock(node) || !MarkOf(node, n, m)
    ensures !Records(Layout(Built, node, n, incoming, t).facts, m)
  {
  }

  lemma RecordedInList(node: Node, n: nat, incoming: set<nat>, t: Targets, m: Mark) returns (p: Place)
    requires (node.kind.Region? || node.kind.Block?) && !node.inactive
    requires !OwnsBlock(node) || !MarkOf(node, n, m)
    requires Records(Layout(Built, node, n, incoming, t).facts, m)
    ensures Enters(node, p.node) && Records(p.Recorded(), m)
    ensures RecordsAll(Layout(Built, node, n, incoming, t).facts, p.Recorded())
  {
    hide LayoutSeq;
    if node.kind.Region? {
      p := RecordedInSeq(node.kind.children, n, incoming, t, m);
    } else {
      p := RecordedInSeq(node.kind.children, n + 1, {n}, t, m);
    }
  }

  lemma BranchesRecord(node: Node, n: nat, incoming: set<nat>, t: Targets)
    requires node.kind.If? && !node.inactive
    ensures var yes := LayoutOpt(Built, node.kind.consequence, n + 1, {n}, t);
      forall m :: Records(Layout(Built, node, n, incoming, t).facts, m) <==>
        || m == OfBlock(node.id, n) || Records(yes.facts, m)
        || Records(LayoutOpt(Built, node.kind.alternative, yes.next, {n}, t).facts, m)
  {
    hide LayoutOpt;
  }

  lemma RecordedInTree(tree: Option<Node>, n: nat, incoming: set<nat>, t: Targets, m: Mark) returns (p: Place)
    requires Records(LayoutOpt(Built, tree, n, incoming, t).facts, m)
    ensures p.node in ListOf(tree) && p.Recorded() == LayoutOpt(Built, tree, n, incoming, t).facts
  {
    p := Place(tree.value, n, incoming, t);
  }

  lemma RecordedInIf(node: Node, n: nat, incoming: set<nat>, t: Targets, m: Mark) returns (p: Place)
    requires node.kind.If? && !node.inactive && Records(Layout(Built, node, n, incoming, t).facts, m)
    requires !MarkOf(node, n, m)
    ensures Enters(node, p.node) && Records(p.Recorded(), m)
    ensures RecordsAll(Layout(Built, node, n, incoming, t).facts, p.Recorded())
  {
    hide Layout, LayoutOpt, Records, Place.Recorded;
    BranchesRecord(node, n, incoming, t);
    var yes := LayoutOpt(Built, node.kind.consequence, n + 1, {n}, t);
    if Records(yes.facts, m) {
      p := RecordedInTree(node.kind.consequence, n + 1, {n}, t, m);
    } else {
      p := RecordedInTree(node.kind.alternative, yes.next, {n}, t, m);
    }
  }

  lemma RecordedInSwitch(node: Node, n: nat, incoming: set<nat>, t: Targets, m: Mark) returns (p: Place)
    requires node.kind.Switch? && !node.inactive && Records(Layout(Built, node, n, incoming, t).facts, m)
    requires !MarkOf(node, n, m)
    ensures Enters(node, p.node) && Records(p.Recorded(), m)
    ensures RecordsAll(Layout(Built, node, n, incoming, t).facts, p.Recorded())
  {
    hide LayoutClauses, HasDefault;
    p := RecordedInClauses(node.kind.children, n, n + 2, t.continueTo, m);
  }

  predicate HasBody(node: Node) {
    node.kind.While? || node.kind.DoWhile? || node.kind.Clause?
  }

  /** Where the layout puts the body of a loop or a clause. */
  ghost function BodyPlace(node: Node, n: nat, t: Targets): Place
    requires HasBody(node) && node.kind.body.Some?
  {
    var body := node.kind.body.value;
    match node.kind
    case While(known, _) =>
      Place(body, n + 2, if known == Some(false) then {} else {n}, Targets(Some(n + 1), Some(n)))
    case DoWhile(known, _) => Place(body, n + 3, DoEntries(Built, known, n), Targets(Some(n + 1), Some(n + 2)))
    case _ => Place(body, n + 1, {n}, t)
  }

  lemma RecordedInBody(node: Node, n: nat, incoming: set<nat>, t: Targets, m: Mark) returns (p: Place)
    requires HasBody(node) && !node.inactive && node.kind.body.Some?
    requires !MarkOf(node, n, m) && Records(Layout(Built, node, n, incoming, t).facts, m)
    ensures Enters(node, p.node) && Records(p.Recorded(), m)
    ensures RecordsAll(Layout(Built, node, n, incoming, t).facts, p.Recorded())
  {
    p := BodyPlace(node, n, t);
    BodyRecords(node, n, incoming, t);
  }

  lemma BodyRecords(node: Node, n: nat, incoming: set<nat>, t: Targets)
    requires HasBody(node) && !node.inactive && node.kind.body.Some?
    ensures forall m :: Records(Layout(Built, node, n, incoming, t).facts, m) <==>
      m == OfBlock(node.id, n) || Records(BodyPlace(node, n, t).Recorded(), m)
  {
  }

  /** What a node records that is entered from another is recorded with the other. */
  lemma BelowRecords(node: Node, child: Node, n: nat, incoming: set<nat>, t: Targets) returns (p: Place)
    requires !node.inactive && Enters(node, child)
    ensures p.node == child && RecordsAll(Layout(Built, node, n, incoming, t).facts, p.Recorded())
  {
    hide LayoutSeq, LayoutClauses, LayoutOpt, Records, RecordsAll;
    match node.kind {
      case Region(_) => p := ListRecords(node, child, n, incoming, t);
      case Block(_) => p := ListRecords(node, child, n, incoming, t);
      case If(_, _) => p := IfRecords(node, child, n, incoming, t);
      case Switch(_) => p := SwitchRecords(node, child, n, incoming, t);
      case While(_, _) => p := BodyBelow(node, child, n, incoming, t);
      case DoWhile(_, _) => p := BodyBelow(node, child, n, incoming, t);
      case Clause(_, _) => p := BodyBelow(node, child, n, incoming, t);
      case _ => assert false;
    }
  }

  lemma BodyBelow(node: Node, child: Node, n: nat, incoming: set<nat>, t: Targets) returns (p: Place)
    requires HasBody(node) && !node.inactive && Enters(node, child)
    ensures p.node == child && RecordsAll(Layout(Built, node, n, incoming, t).facts, p.Recorded())
  {
    hide Layout, Records;
    p := BodyPlace(node, n, t);
    BodyRecords(node, n, incoming, t);
  }

  lemma ListRecords(node: Node, child: Node, n: nat, incoming: set<nat>, t: Targets) returns (p: Place)
    requires (node.kind.Region? || node.kind.Block?) && !node.inactive && Enters(node, child)
    ensures p.node == child && RecordsAll(Layout(Built, node, n, incoming, t).facts, p.Recorded())
  {
    hide LayoutSeq;
    if node.kind.Region? {
      p := SeqRecords(node.kind.children, child, n, incoming, t);
    } else {
      p := SeqRecords(node.kind.children, child, n + 1, {n}, t);
    }
  }

  lemma IfRecords(node: Node, child: Node, n: nat, incoming: set<nat>, t: Targets) returns (p: Place)
    requires node.kind.If? && !node.inactive && Enters(node, child)
    ensures p.node == child && RecordsAll(Layout(Built, node, n, incoming, t).facts, p.Recorded())
  {
    hide Layout, Records, Place.Recorded;
    BranchesRecord(node, n, incoming, t);
    var yes := LayoutOpt(Built, node.kind.consequence, n + 1, {n}, t);
    if child in ListOf(node.kind.consequence) {
      p := TreeRecords(child, n + 1, {n}, t);
    } else {
      p := TreeRecords(child, yes.next, {n}, t);
    }
  }

  lemma TreeRecords(child: Node, n: nat, incoming: set<nat>, t: Targets) returns (p: Place)
    ensures p.node == child && p.Recorded() == LayoutOpt(Built, Some(child), n, incoming, t).facts
  {
    p := Place(child, n, incoming, t);
  }

  lemma SwitchRecords(node: Node, child: Node, n: nat, incoming: set<nat>, t: Targets) returns (p: Place)
    requires node.kind.Switch? && !node.inactive && Enters(node, child)
    ensures p.node == child && RecordsAll(Layout(Built, node, n, incoming, t).facts, p.Recorded())
  {
    hide LayoutClauses, HasDefault;
    p := ClausesRecord(node.kind.children, child, n, n + 2, t.continueTo);
  }

  // ----- Ways and marks -----

  /** Whatever is recorded belongs to a node that some way leads to. */
  lemma {:induction false} WayToMark(node: Node, n: nat, incoming: set<nat>, t: Targets, m: Mark)
    returns (way: seq<Node>)
    requires Records(Layout(Built, node, n, incoming, t).facts, m)
    ensures IsWayFrom(node, way) && OwnsBlock(Last(way)) && MarkOf(Last(way), m.b, m)
    ensures Records(Layout(Built, node, n, incoming, t).facts, OfBlock(Last(way).id, m.b))
    decreases node
  {
    hide Layout, Records;
    if OwnsBlock(node) && MarkOf(node, n, m) {
      way := [node];
      OwnIsRecorded(node, n, incoming, t, OfBlock(node.id, n));
    } else {
      var p := RecordedBelow(node, n, incoming, t, m);
      var rest := WayToMark(p.node, p.n, p.incoming, p.t, m);
      WayOn(node, rest);
      way := [node] + rest;
    }
  }

  /** Every node with a block that some way leads to gets a block, and all that belongs to it is recorded there. */
  lemma {:induction false} MarksOfWay(way: seq<Node>, n: nat, incoming: set<nat>, t: Targets) returns (b: nat)
    requires IsWay(way) && OwnsBlock(Last(way))
    ensures forall m :: MarkOf(Last(way), b, m) ==> Records(Layout(Built, way[0], n, incoming, t).facts, m)
    decreases |way|
  {
    hide Layout, Records, MarkOf, Enters;
    if |way| == 1 {
      b := n;
      forall m | MarkOf(way[0], n, m) ensures Records(Layout(Built, way[0], n, incoming, t).facts, m) {
        OwnIsRecorded(way[0], n, incoming, t, m);
      }
    } else {
      WayRest(way);
      var p := BelowRecords(way[0], way[1], n, incoming, t);
      b := MarksOfWay(way[1..], p.n, p.incoming, p.t);
    }
  }

  // ----- Blocks belong to one node each -----

  /** The blocks of a piece of the tree are numbered from n on, and each belongs to one node. */
  ghost predicate Owned(part: Part, n: nat) {
    && n <= part.next
    && (forall id, b {:trigger (id, b) in part.facts.blocks} :: (id, b) in part.facts.blocks ==> n <= b < part.next)
    && forall id, id', b {:trigger (id, b) in part.facts.blocks, (id', b) in part.facts.blocks} ::
         (id, b) in part.facts.blocks && (id', b) in part.facts.blocks ==> id == id'
  }

  lemma {:induction false} BlocksAreOwned(node: Node, n: nat, incoming: set<nat>, t: Targets)
    ensures Owned(Layout(Built, node, n, incoming, t), n)
    decreases node, 1
  {
    hide Layout, Owned;
    if node.inactive || Below(node) == [] {
      OwnedAlone(node, n, incoming, t);
    } else if HasBody(node) {
      OwnedBody(node, n, incoming, t);
    } else if node.kind.If? {
      OwnedIf(node, n, incoming, t);
    } else {
      OwnedList(node, n, incoming, t);
    }
  }

  lemma OwnedAlone(node: Node, n: nat, incoming: set<nat>, t: Targets)
    requires node.inactive || Below(node) == []
    ensures Owned(Layout(Built, node, n, incoming, t), n)
  {
  }

  lemma {:induction false} OwnedList(node: Node, n: nat, incoming: set<nat>, t: Targets)
    requires (node.kind.Region? || node.kind.Block? || node.kind.Switch?) && !node.inactive
    ensures Owned(Layout(Built, node, n, incoming, t), n)
    decreases node, 0
  {
    hide LayoutSeq, LayoutClauses, HasDefault;
    match node.kind {
      case Region(children) => OwnedSeq(children, n, incoming, t);
      case Block(children) => OwnedSeq(children, n + 1, {n}, t);
      case Switch(children) => OwnedClauses(children, n, n + 2, t.continueTo);
    }
  }

  lemma {:induction false} OwnedBody(node: Node, n: nat, incoming: set<nat>, t: Targets)
    requires HasBody(node) && !node.inactive
    ensures Owned(Layout(Built, node, n, incoming, t), n)
    decreases node, 0
  {
    hide Layout, LayoutOpt, Owned;
    var known := if node.kind.Clause? then None else node.kind.known;
    match node.kind {
      case While(_, body) =>
        OwnedOpt(body, n + 2, if known == Some(false) then {} else {n}, Targets(Some(n + 1), Some(n)));
        OwnedWhile(node, n, incoming, t);
      case DoWhile(_, body) =>
        OwnedOpt(body, n + 3, DoEntries(Built, known, n), Targets(Some(n + 1), Some(n + 2)));
        OwnedDo(node, n, incoming, t);
      case Clause(_, body) =>
        OwnedOpt(body, n + 1, {n}, t);
        OwnedClause(node, n, incoming, t);
    }
  }

  lemma OwnedWhile(node: Node, n: nat, incoming: set<nat>, t: Targets)
    requires node.kind.While? && !node.inactive
    requires Owned(LayoutOpt(Built, node.kind.body, n + 2, if node.kind.known == Some(false) then {} else {n},
                             Targets(Some(n + 1), Some(n))), n + 2)
    ensures Owned(Layout(Built, node, n, incoming, t), n)
  {
    hide LayoutOpt;
  }

  lemma OwnedDo(node: Node, n: nat, incoming: set<nat>, t: Targets)
    requires node.kind.DoWhile? && !node.inactive
    requires Owned(LayoutOpt(Built, node.kind.body, n + 3, DoEntries(Built, node.kind.known, n),
                             Targets(Some(n + 1), Some(n + 2))), n + 3)
    ensures Owned(Layout(Built, node, n, incoming, t), n)
  {
    hide LayoutOpt, DoEntries;
  }

  lemma OwnedClause(node: Node, n: nat, incoming: set<nat>, t: Targets)
    requires node.kind.Clause? && !node.inactive
    requires Owned(LayoutOpt(Built, node.kind.body, n + 1, {n}, t), n + 1)
    ensures Owned(Layout(Built, node, n, incoming, t), n)
  {
    hide LayoutOpt;
  }

  lemma {:induction false} OwnedIf(node: Node, n: nat, incoming: set<nat>, t: Targets)
    requires node.kind.If? && !node.inactive
    ensures Owned(Layout(Built, node, n, incoming, t), n)
    decreases node, 0
  {
    hide LayoutOpt;
    var yes := LayoutOpt(Built, node.kind.consequence, n + 1, {n}, t);
    OwnedOpt(node.kind.consequence, n + 1, {n}, t);
    OwnedOpt(node.kind.alternative, yes.next, {n}, t);
  }

  lemma {:induction false} OwnedOpt(tree: Option<Node>, n: nat, incoming: set<nat>, t: Targets)
    ensures Owned(LayoutOpt(Built, tree, n, incoming, t), n)
    decreases tree, 2
  {
    hide Layout;
    if tree.Some? {
      BlocksAreOwned(tree.value, n, incoming, t);
    }
  }

  lemma {:induction false} OwnedSeq(nodes: seq<Node>, n: nat, incoming: set<nat>, t: Targets)
    ensures Owned(LayoutSeq(Built, nodes, n, incoming, t), n)
    decreases nodes, 0
  {
    hide Layout;
    if nodes != [] {
      var first := Layout(Built, nodes[0], n, incoming, t);
      BlocksAreOwned(nodes[0], n, incoming, t);
      OwnedSeq(nodes[1..], first.next, first.exits, t);
    }
  }

  lemma {:induction false} OwnedClauses(children: seq<Node>, s: nat, n: nat, continueTo: Option<nat>)
    ensures Owned(LayoutClauses(Built, children, s, n, continueTo), n)
    decreases children, 0
  {
    hide Layout;
    if children != [] {
      var first := LayoutClause(Built, children[0], s, n, continueTo);
      BlocksAreOwned(children[0], n, {s}, Targets(Some(s + 1), continueTo));
      OwnedClauses(children[1..], s, first.next, continueTo);
    }
  }

  // ----- When a function is uncertain -----

  ghost predicate LeadsToTrouble(body: Node, way: seq<Node>) {
    IsWayFrom(body, way) && EndsInTrouble(way, false, false)
  }

  ghost predicate LeadsToLabel(body: Node, way: seq<Node>, name: string) {
    IsWayFrom(body, way) && Last(way).kind == Label(name) && name != ""
  }

  ghost predicate LeadsToGoto(body: Node, way: seq<Node>, name: string) {
    IsWayFrom(body, way) && Last(way).kind == Goto(Some(name))
  }

  /** Two active labels have the same name. */
  ghost predicate RepeatsLabel(body: Node) {
    exists p, q, name {:trigger LeadsToLabel(body, p, name), LeadsToLabel(body, q, name)} ::
      LeadsToLabel(body, p, name) && LeadsToLabel(body, q, name) && Last(p).id != Last(q).id
  }

  /** An active goto names no active label. */
  ghost predicate LacksLabel(body: Node) {
    exists p, name :: LeadsToGoto(body, p, name) && forall q :: !LeadsToLabel(body, q, name)
  }

  ghost predicate Doubtful(body: Node) {
    (exists way :: LeadsToTrouble(body, way)) || RepeatsLabel(body) || LacksLabel(body)
  }

  /** Each node has one block at most. */
  ghost predicate OneBlockEach(facts: Facts) {
    forall id, b, b' {:trigger (id, b) in facts.blocks, (id, b') in facts.blocks} ::
      (id, b) in facts.blocks && (id, b') in facts.blocks ==> b == b'
  }

  lemma TroubledIff(body: Node)
    ensures Troubled(body, false, false) <==> exists way :: LeadsToTrouble(body, way)
  {
    hide Troubled, EndsInTrouble, Enters;
    if Troubled(body, false, false) {
      var way := WayToTrouble(body, false, false);
      assert LeadsToTrouble(body, way);
    }
    if way :| LeadsToTrouble(body, way) {
      TroubleOnTheWay(way, false, false);
    }
  }

  lemma LabelOnWay(body: Node, way: seq<Node>, name: string) returns (b: nat)
    requires LeadsToLabel(body, way, name)
    ensures (name, b) in Body(Built, body).facts.labels && (Last(way).id, b) in Body(Built, body).facts.blocks
  {
    hide Layout, Enters;
    b := MarksOfWay(way, 2, {0}, Targets(None, None));
    assert MarkOf(Last(way), b, OfLabel(name, b)) && MarkOf(Last(way), b, OfBlock(Last(way).id, b));
    assert Records(Body(Built, body).facts, OfLabel(name, b));
    assert Records(Body(Built, body).facts, OfBlock(Last(way).id, b));
  }

  lemma WayToLabel(body: Node, name: string, b: nat) returns (way: seq<Node>)
    requires (name, b) in Body(Built, body).facts.labels
    ensures LeadsToLabel(body, way, name) && (Last(way).id, b) in Body(Built, body).facts.blocks
  {
    hide Layout, Enters;
    assert Records(Body(Built, body).facts, OfLabel(name, b));
    way := WayToMark(body, 2, {0}, Targets(None, None), OfLabel(name, b));
    assert Records(Body(Built, body).facts, OfBlock(Last(way).id, b));
  }

  lemma GotoOnWay(body: Node, way: seq<Node>, name: string) returns (b: nat)
    requires LeadsToGoto(body, way, name)
    ensures (b, name) in Body(Built, body).facts.gotos
  {
    hide Layout, Enters;
    b := MarksOfWay(way, 2, {0}, Targets(None, None));
    assert MarkOf(Last(way), b, OfGoto(name, b));
    assert Records(Body(Built, body).facts, OfGoto(name, b));
  }

  lemma WayToGoto(body: Node, name: string, b: nat) returns (way: seq<Node>)
    requires (b, name) in Body(Built, body).facts.gotos
    ensures LeadsToGoto(body, way, name)
  {
    hide Layout, Enters;
    assert Records(Body(Built, body).facts, OfGoto(name, b));
    way := WayToMark(body, 2, {0}, Targets(None, None), OfGoto(name, b));
  }

  lemma UniqueIff(body: Node)
    requires OneBlockEach(Body(Built, body).facts)
    ensures Unique(Body(Built, body).facts.labels) <==> !RepeatsLabel(body)
  {
    hide Body, LeadsToLabel, Owned;
    var facts := Body(Built, body).facts;
    if Unique(facts.labels) {
      forall p, q, name | LeadsToLabel(body, p, name) && LeadsToLabel(body, q, name)
        ensures p != [] && q != [] && Last(p).id == Last(q).id
      {
        OneLabel(body, p, q, name);
      }
    } else {
      var a, b :| a in facts.labels && b in facts.labels && a.0 == b.0 && a != b;
      var p := WayToLabel(body, a.0, a.1);
      var q := WayToLabel(body, b.0, b.1);
      LabelsEnd(body, p, a.0);
      LabelsEnd(body, q, a.0);
      assert Last(p).id != Last(q).id;
    }
  }

  lemma LabelsEnd(body: Node, way: seq<Node>, name: string)
    requires LeadsToLabel(body, way, name)
    ensures way != []
  {
  }

  lemma OneLabel(body: Node, p: seq<Node>, q: seq<Node>, name: string)
    requires LeadsToLabel(body, p, name) && LeadsToLabel(body, q, name)
    requires Unique(Body(Built, body).facts.labels)
    ensures p != [] && q != [] && Last(p).id == Last(q).id
  {
    hide Layout, Enters;
    var b := LabelOnWay(body, p, name);
    var b' := LabelOnWay(body, q, name);
    assert (name, b) == (name, b');
    BlocksAreOwned(body, 2, {0}, Targets(None, None));
  }

  lemma ResolvedIff(body: Node)
    ensures Resolved(Body(Built, body).facts.gotos, Body(Built, body).facts.labels) <==> !LacksLabel(body)
  {
    hide Body, LeadsToLabel, LeadsToGoto;
    var facts := Body(Built, body).facts;
    if Resolved(facts.gotos, facts.labels) {
      forall p, name | LeadsToGoto(body, p, name) ensures exists q :: LeadsToLabel(body, q, name) {
        var b := GotoOnWay(body, p, name);
        var l :| l in facts.labels && l.0 == name;
        var q := WayToLabel(body, name, l.1);
      }
    } else {
      var g :| g in facts.gotos && forall l :: l in facts.labels ==> l.0 != g.1;
      var p := WayToGoto(body, g.1, g.0);
      forall q ensures !LeadsToLabel(body, q, g.1) {
        if LeadsToLabel(body, q, g.1) {
          var b := LabelOnWay(body, q, g.1);
        }
      }
    }
  }

  /** What the layout calls uncertain, read off the tree. */
  lemma UncertainIff(body: Node)
    requires OneBlockEach(Body(Built, body).facts)
    ensures Doubtful(body) <==>
      || Troubled(body, false, false) || !Unique(Body(Built, body).facts.labels)
      || !Resolved(Body(Built, body).facts.gotos, Body(Built, body).facts.labels)
  {
    hide Body, Troubled, Unique, Resolved, RepeatsLabel, LacksLabel;
    TroubledIff(body);
    UniqueIff(body);
    ResolvedIff(body);
  }

  /** A node has a block exactly if a way leads to it and it is a statement of its own. */
  lemma HasBlockIff(body: Node, id: nat)
    ensures (exists b {:trigger (id, b) in Body(Built, body).facts.blocks} ::
              (id, b) in Body(Built, body).facts.blocks)
      <==> exists way :: LeadsToStatement(body, way, id)
  {
    hide Layout, Enters;
    var facts := Body(Built, body).facts;
    if b :| (id, b) in facts.blocks {
      assert Records(facts, OfBlock(id, b));
      var way := WayToMark(body, 2, {0}, Targets(None, None), OfBlock(id, b));
      assert LeadsToStatement(body, way, id);
    }
    if way :| LeadsToStatement(body, way, id) {
      var b := MarksOfWay(way, 2, {0}, Targets(None, None));
      assert MarkOf(Last(way), b, OfBlock(id, b));
      assert Records(facts, OfBlock(id, b));
    }
  }

  ghost predicate LeadsToStatement(body: Node, way: seq<Node>, id: nat) {
    IsWayFrom(body, way) && OwnsBlock(Last(way)) && Last(way).id == id
  }
}
