/**
 The mended graph has no edge too many: every block it reaches is one that some run comes to. With
 the results on runs this makes it exactly the graph of what runs.
 */
module CfgCoverage {
  import opened Wrappers
  import opened Graphs
  import opened Cfg
  import opened CfgRuns

  /** Some run of the body comes to this configuration. */
  ghost predicate Happens(body: Node, c: Config) {
    exists run :: IsRun(body, run) && run[|run| - 1] == c
  }

  lemma HappensFirst(body: Node)
    ensures Happens(body, Enter(Some(body), Stop))
  {
    assert IsRun(body, [Enter(Some(body), Stop)]);
  }

  lemma HappensNext(body: Node, c: Config, c': Config)
    requires Happens(body, c) && Step(body, c, c')
    ensures Happens(body, c')
  {
    hide Step;
    var run :| IsRun(body, run) && run[|run| - 1] == c;
    assert IsRun(body, run + [c']);
  }

  /** The configuration a block of the whole function stands for. */
  ghost function SpotOf(body: Node, b: nat): Option<Config> {
    if b == 0 then Some(Enter(Some(body), Stop)) else if b == 1 then None else Spot(body, 2, Stop, b)
  }

  /** Some run comes to the block; to the exit it comes by returning or by falling off the end. */
  ghost predicate Live(body: Node, b: nat) {
    if b == 1 then Happens(body, Returned) || Happens(body, Done(Stop))
    else SpotOf(body, b).Some? && Happens(body, SpotOf(body, b).value)
  }

  /** The tree with blocks from n, followed by k, is part of the body. */
  ghost predicate SitsAt(body: Node, node: Node, n: nat, k: Cont) {
    n >= 2 && forall b: nat :: n <= b < n + Size(node) ==> SpotOf(body, b) == Spot(node, n, k, b)
  }

  ghost predicate SitsAtOpt(body: Node, tree: Option<Node>, n: nat, k: Cont) {
    n >= 2 && forall b: nat :: n <= b < n + SizeOpt(tree) ==> SpotOf(body, b) == SpotOpt(tree, n, k, b)
  }

  ghost predicate SitsAtSeq(body: Node, nodes: seq<Node>, n: nat, k: Cont) {
    n >= 2 && forall b: nat :: n <= b < n + SizeSeq(nodes) ==> SpotOf(body, b) == SpotSeq(nodes, n, k, b)
  }

  ghost predicate SitsAtClauses(body: Node, children: seq<Node>, n: nat, k: Cont) {
    n >= 2 && forall b: nat :: n <= b < n + SizeClauses(children) ==> SpotOf(body, b) == SpotClauses(children, n, k, b)
  }

  ghost predicate SitsAtClause(body: Node, child: Node, n: nat, k: Cont) {
    n >= 2 && forall b: nat :: n <= b < n + SizeClause(child) ==> SpotOf(body, b) == SpotClause(child, n, k, b)
  }

  /** The targets of jumps are the blocks at which the continuation goes on. */
  ghost predicate AimsAt(body: Node, t: Targets, k: Cont) {
    && (t.breakTo.Some? ==>
      t.breakTo.value >= 2 && AfterBreak(k).Some? && SpotOf(body, t.breakTo.value) == AfterBreak(k))
    && (t.continueTo.Some? ==>
          t.continueTo.value >= 2 && AfterContinue(k).Some? && SpotOf(body, t.continueTo.value) == AfterContinue(k))
  }

  /** From these blocks runs go on to the configuration. */
  ghost predicate Feed(body: Node, from: set<nat>, c: Config) {
    forall b :: b in from && Live(body, b) ==> Happens(body, c)
  }

  /** Runs follow the edges, and blocks and pending jumps are those of the statements there. */
  ghost predicate Driven(body: Node, facts: Facts) {
    && (forall e :: e in facts.edges && Live(body, e.from) ==> Live(body, e.to))
    && (forall id, b {:trigger (id, b) in facts.blocks} :: (id, b) in facts.blocks ==>
          b >= 2 && SpotOf(body, b).Some? && SpotOf(body, b).value.At? && SpotOf(body, b).value.node.id == id)
    && (forall g :: g in facts.gotos ==>
          g.0 >= 2 && SpotOf(body, g.0).Some? && SpotOf(body, g.0).value.At?
          && SpotOf(body, g.0).value.node.kind == Goto(Some(g.1)))
  }

  lemma DrivenPlus(body: Node, a: Facts, b: Facts)
    requires Driven(body, a) && Driven(body, b)
    ensures Driven(body, a.Plus(b))
  {
    hide Live, SpotOf;
  }

  lemma DrivenNothing(body: Node)
    ensures Driven(body, NO_FACTS)
  {
  }

  lemma DrivenEdges(body: Node, from: set<nat>, c: Config, to: nat, kind: EdgeKind)
    requires Feed(body, from, c) && (Happens(body, c) ==> Live(body, to))
    ensures Driven(body, OnlyEdges(EdgesTo(from, to, kind)))
  {
    hide Live, Happens, SpotOf;
  }

  lemma DrivenEdgeIf(body: Node, condition: bool, from: nat, to: nat, kind: EdgeKind)
    requires condition && Live(body, from) ==> Live(body, to)
    ensures Driven(body, EdgeIf(condition, from, to, kind))
  {
    hide Live, SpotOf;
  }

  lemma DrivenOwn(body: Node, node: Node, n: nat, k: Cont, incoming: set<nat>)
    requires n >= 2 && OwnsBlock(node) && SpotOf(body, n) == Some(At(node, k))
      && Feed(body, incoming, Enter(Some(node), k))
    ensures Driven(body, Own(node, n, incoming)) && Feed(body, {n}, At(node, k))
  {
    hide SpotOf, IsRun;
    if Happens(body, Enter(Some(node), k)) {
      HappensNext(body, Enter(Some(node), k), At(node, k));
    }
    hide Happens;
  }

  lemma FeedNext(body: Node, from: set<nat>, c: Config, c': Config)
    requires Feed(body, from, c) && Step(body, c, c')
    ensures Feed(body, from, c')
  {
    hide Live, Step, Happens;
    if Happens(body, c) {
      HappensNext(body, c, c');
    }
  }

  lemma LiveNext(body: Node, b: nat, c: Config, to: nat, c': Config)
    requires b >= 2 && SpotOf(body, b) == Some(c) && Step(body, c, c')
    requires (to == 1 && (c' == Returned || c' == Done(Stop))) || (to >= 2 && SpotOf(body, to) == Some(c'))
    ensures Live(body, b) ==> Live(body, to)
  {
    hide SpotOf, Step, IsRun;
    if Live(body, b) {
      HappensNext(body, c, c');
    }
  }

  // ----- Trees -----

  /** What is shown of every piece of tree: its own facts are driven and runs leave it by its exits. */
  ghost predicate Covered(body: Node, part: Part, k: Cont) {
    Driven(body, part.facts) && Feed(body, part.exits, Done(k))
  }

  lemma {:induction false} CoversOpt(body: Node, tree: Option<Node>, n: nat, incoming: set<nat>, t: Targets, k: Cont)
    requires SitsAtOpt(body, tree, n, k) && AimsAt(body, t, k) && Feed(body, incoming, Enter(tree, k))
    ensures Covered(body, LayoutOpt(Mended, tree, n, incoming, t), k)
    decreases tree, 3
  {
    hide Live, Feed, Driven, SpotOf;
    if tree == None {
      FeedNext(body, incoming, Enter(tree, k), Done(k));
      DrivenNothing(body);
    } else {
      Covers(body, tree.value, n, incoming, t, k);
    }
  }

  lemma {:induction false} Covers(body: Node, node: Node, n: nat, incoming: set<nat>, t: Targets, k: Cont)
    requires SitsAt(body, node, n, k) && AimsAt(body, t, k) && Feed(body, incoming, Enter(Some(node), k))
    ensures Covered(body, Layout(Mended, node, n, incoming, t), k)
    decreases node, 2
  {
    hide Live, Driven, SpotOf, AimsAt;
    if node.inactive || node.kind.NotStatement? {
      FeedNext(body, incoming, Enter(Some(node), k), Done(k));
      DrivenNothing(body);
    } else if node.kind.Region? {
      FeedNext(body, incoming, Enter(Some(node), k), Done(Then(node.kind.children, k)));
      CoversSeq(body, node.kind.children, n, incoming, t, k);
    } else if node.kind.Unclear? {
      DrivenNothing(body);
    } else {
      assert SpotOf(body, n) == Some(At(node, k));
      forall b: nat | n < b < n + Size(node) ensures SpotOf(body, b) == SpotInside(node, n, k, b) {
        assert Spot(node, n, k, b) == SpotInside(node, n, k, b);
      }
      DrivenOwn(body, node, n, k, incoming);
      CoversOwner(body, node, n, incoming, t, k);
    }
  }

  ghost predicate OwnerReady(body: Node, node: Node, n: nat, incoming: set<nat>, t: Targets, k: Cont) {
    && OwnsBlock(node) && n >= 2 && AimsAt(body, t, k)
    && (forall b: nat :: n < b < n + Size(node) ==> SpotOf(body, b) == SpotInside(node, n, k, b))
    && SpotOf(body, n) == Some(At(node, k)) && Driven(body, Own(node, n, incoming)) && Feed(body, {n}, At(node, k))
  }

  lemma {:induction false} CoversOwner(body: Node, node: Node, n: nat, incoming: set<nat>, t: Targets, k: Cont)
    requires OwnerReady(body, node, n, incoming, t, k)
    ensures Covered(body, Layout(Mended, node, n, incoming, t), k)
    decreases node, 1
  {
    hide Live, Driven, Feed, SpotOf, SitsAt, AimsAt, Layout;
    match node.kind
    case Block(_) => CoversBlock(body, node, n, incoming, t, k);
    case If(_, _) => CoversIf(body, node, n, incoming, t, k);
    case While(_, _) => CoversWhile(body, node, n, incoming, t, k);
    case DoWhile(_, _) => CoversDo(body, node, n, incoming, t, k);
    case Switch(_) => CoversSwitch(body, node, n, incoming, t, k);
    case Clause(_, _) => CoversClauseBody(body, node, n, incoming, t, k);
    case _ => CoversLeaf(body, node, n, incoming, t, k);
  }

  lemma {:induction false} CoversBlock(body: Node, node: Node, n: nat, incoming: set<nat>, t: Targets, k: Cont)
    requires OwnerReady(body, node, n, incoming, t, k) && node.kind.Block?
    ensures Covered(body, Layout(Mended, node, n, incoming, t), k)
    decreases node, 0
  {
    hide Live, Driven, Feed, SpotOf, AimsAt;
    var children := node.kind.children;
    FeedNext(body, {n}, At(node, k), Done(Then(children, k)));
    assert SitsAtSeq(body, children, n + 1, k);
    CoversSeq(body, children, n + 1, {n}, t, k);
    DrivenPlus(body, Own(node, n, incoming), LayoutSeq(Mended, children, n + 1, {n}, t).facts);
  }

  lemma {:induction false} CoversClauseBody(body: Node, node: Node, n: nat, incoming: set<nat>, t: Targets, k: Cont)
    requires OwnerReady(body, node, n, incoming, t, k) && node.kind.Clause?
    ensures Covered(body, Layout(Mended, node, n, incoming, t), k)
    decreases node, 0
  {
    hide Live, Driven, Feed, SpotOf, AimsAt;
    var inner := node.kind.body;
    FeedNext(body, {n}, At(node, k), Enter(inner, k));
    assert SitsAtOpt(body, inner, n + 1, k);
    CoversOpt(body, inner, n + 1, {n}, t, k);
    DrivenPlus(body, Own(node, n, incoming), LayoutOpt(Mended, inner, n + 1, {n}, t).facts);
  }

  lemma FeedBoth(body: Node, a: set<nat>, b: set<nat>, c: Config)
    requires Feed(body, a, c) && Feed(body, b, c)
    ensures Feed(body, a + b, c)
  {
    hide Live, Happens;
  }

  lemma {:induction false} CoversIf(body: Node, node: Node, n: nat, incoming: set<nat>, t: Targets, k: Cont)
    requires OwnerReady(body, node, n, incoming, t, k) && node.kind.If?
    ensures Covered(body, Layout(Mended, node, n, incoming, t), k)
    decreases node, 0
  {
    hide Live, Driven, Feed, SpotOf, AimsAt;
    var consequence, alternative := node.kind.consequence, node.kind.alternative;
    var yes := LayoutOpt(Mended, consequence, n + 1, {n}, t);
    var no := LayoutOpt(Mended, alternative, yes.next, {n}, t);
    FeedNext(body, {n}, At(node, k), Enter(consequence, k));
    FeedNext(body, {n}, At(node, k), Enter(alternative, k));
    LabelsLieOpt(consequence, k, "", n + 1, {n}, t);
    assert SitsAtOpt(body, consequence, n + 1, k) && SitsAtOpt(body, alternative, yes.next, k);
    CoversOpt(body, consequence, n + 1, {n}, t, k);
    CoversOpt(body, alternative, yes.next, {n}, t, k);
    DrivenPlus(body, Own(node, n, incoming), yes.facts);
    DrivenPlus(body, Own(node, n, incoming).Plus(yes.facts), no.facts);
    FeedBoth(body, yes.exits, no.exits, Done(k));
  }

  lemma FeedsAfter(body: Node, b: nat, c: Config)
    requires b >= 2 && SpotOf(body, b) == Some(c)
    ensures Feed(body, {b}, c) && (Happens(body, c) ==> Live(body, b))
  {
  }

  lemma {:induction false} CoversWhile(body: Node, node: Node, n: nat, incoming: set<nat>, t: Targets, k: Cont)
    requires OwnerReady(body, node, n, incoming, t, k) && node.kind.While?
    ensures Covered(body, Layout(Mended, node, n, incoming, t), k)
    decreases node, 0
  {
    var known, inner := node.kind.known, node.kind.body;
    assert SitsAtOpt(body, inner, n + 2, InLoop(node, k)) && SpotOf(body, n + 1) == Some(Done(k));
    var into, inside := if known == Some(false) then {} else {n}, Targets(Some(n + 1), Some(n));
    assert AimsAt(body, inside, InLoop(node, k));
    FeedsAfter(body, n + 1, Done(k));
    FeedsAfter(body, n, At(node, k));
    if known != Some(true) {
      LiveNext(body, n, At(node, k), n + 1, Done(k));
    }
    assert known == Some(false) ==> Feed(body, into, Enter(inner, InLoop(node, k)));
    hide Live, Driven, Feed, SpotOf, AimsAt, Happens;
    if known != Some(false) {
      FeedNext(body, {n}, At(node, k), Enter(inner, InLoop(node, k)));
    }
    CoversOpt(body, inner, n + 2, into, inside, InLoop(node, k));
    WhileEdges(body, node, n, incoming, k, LayoutOpt(Mended, inner, n + 2, into, inside));
  }

  lemma WhileEdges(body: Node, node: Node, n: nat, incoming: set<nat>, k: Cont, inner: Part)
    requires n >= 2 && node.kind.While? && Driven(body, Own(node, n, incoming))
    requires Covered(body, inner, InLoop(node, k)) && (Happens(body, At(node, k)) ==> Live(body, n))
    requires node.kind.known != Some(true) && Live(body, n) ==> Live(body, n + 1)
    ensures Driven(body, Own(node, n, incoming).Plus(inner.facts).Plus(OnlyEdges(EdgesTo(inner.exits, n, Jump)))
                           .Plus(EdgeIf(node.kind.known != Some(true), n, n + 1, EdgeKind.Branch)))
  {
    hide Live, Driven, Feed, SpotOf, Happens, Facts.Plus, OnlyEdges, EdgeIf, EdgesTo;
    var own, back := Own(node, n, incoming), OnlyEdges(EdgesTo(inner.exits, n, Jump));
    FeedNext(body, inner.exits, Done(InLoop(node, k)), At(node, k));
    DrivenEdges(body, inner.exits, At(node, k), n, Jump);
    DrivenEdgeIf(body, node.kind.known != Some(true), n, n + 1, EdgeKind.Branch);
    DrivenPlus(body, own, inner.facts);
    DrivenPlus(body, own.Plus(inner.facts), back);
    DrivenPlus(body, own.Plus(inner.facts).Plus(back),
        EdgeIf(node.kind.known != Some(true), n, n + 1, EdgeKind.Branch));
  }

  lemma {:induction false} CoversDo(body: Node, node: Node, n: nat, incoming: set<nat>, t: Targets, k: Cont)
    requires OwnerReady(body, node, n, incoming, t, k) && node.kind.DoWhile?
    ensures Covered(body, Layout(Mended, node, n, incoming, t), k)
    decreases node, 0
  {
    var known, inner := node.kind.known, node.kind.body;
    assert SitsAtOpt(body, inner, n + 3, InDo(node, k));
    assert SpotOf(body, n + 1) == Some(Done(k)) && SpotOf(body, n + 2) == Some(AtCondition(node, k));
    var into, inside := DoEntries(Mended, known, n), Targets(Some(n + 1), Some(n + 2));
    assert AimsAt(body, inside, InDo(node, k));
    FeedsAfter(body, n + 1, Done(k));
    FeedsAfter(body, n + 2, AtCondition(node, k));
    if known != Some(true) {
      LiveNext(body, n + 2, AtCondition(node, k), n + 1, Done(k));
    }
    if known != Some(false) && inner.Some? && OwnsBlock(inner.value) {
      assert SizeOpt(inner) == Size(inner.value) >= 1;
      assert SpotOf(body, n + 3) == SpotOpt(inner, n + 3, InDo(node, k), n + 3) == Some(At(inner.value, InDo(node, k)));
      FeedsAfter(body, n + 3, At(inner.value, InDo(node, k)));
    }
    hide Live, Driven, Feed, SpotOf, AimsAt, Happens;
    FeedNext(body, {n}, At(node, k), Enter(inner, InDo(node, k)));
    if known != Some(false) {
      FeedNext(body, {n + 2}, AtCondition(node, k), Enter(inner, InDo(node, k)));
      FeedBoth(body, {n}, {n + 2}, Enter(inner, InDo(node, k)));
      assert {n} + {n + 2} == into;
    }
    CoversOpt(body, inner, n + 3, into, inside, InDo(node, k));
    DoEdges(body, node, n, incoming, k, LayoutOpt(Mended, inner, n + 3, into, inside));
  }

  ghost predicate OwnsBody(inner: Option<Node>) {
    inner.Some? && OwnsBlock(inner.value)
  }

  lemma DoEdges(body: Node, node: Node, n: nat, incoming: set<nat>, k: Cont, inner: Part)
    requires n >= 2 && node.kind.DoWhile? && Driven(body, Own(node, n, incoming)) && Covered(body, inner, InDo(node, k))
    requires Happens(body, AtCondition(node, k)) ==> Live(body, n + 2)
    requires node.kind.known != Some(true) && Live(body, n + 2) ==> Live(body, n + 1)
    requires node.kind.known != Some(false) && OwnsBody(node.kind.body) ==>
      Feed(body, {n + 2}, Enter(node.kind.body, InDo(node, k)))
      && (Happens(body, At(node.kind.body.value, InDo(node, k))) ==> Live(body, n + 3))
    ensures Driven(body, Own(node, n, incoming).Plus(inner.facts).Plus(OnlyEdges(EdgesTo(inner.exits, n + 2, Jump)))
      .Plus(EdgeIf(node.kind.known != Some(false) && OwnsBody(node.kind.body), n + 2, n + 3, EdgeKind.Branch))
      .Plus(EdgeIf(node.kind.known != Some(true), n + 2, n + 1, EdgeKind.Branch)))
  {
    hide Live, Driven, SpotOf, Happens, Facts.Plus, OnlyEdges, EdgeIf, EdgesTo;
    var own, back := Own(node, n, incoming), OnlyEdges(EdgesTo(inner.exits, n + 2, Jump));
    var repeats, leaves := node.kind.known != Some(false) && OwnsBody(node.kind.body), node.kind.known != Some(true);
    var again := EdgeIf(repeats, n + 2, n + 3, EdgeKind.Branch);
    FeedNext(body, inner.exits, Done(InDo(node, k)), AtCondition(node, k));
    DrivenEdges(body, inner.exits, AtCondition(node, k), n + 2, Jump);
    if repeats {
      var first := node.kind.body.value;
      FeedNext(body, {n + 2}, Enter(Some(first), InDo(node, k)), At(first, InDo(node, k)));
      assert n + 2 in {n + 2};
    }
    DrivenEdgeIf(body, repeats, n + 2, n + 3, EdgeKind.Branch);
    DrivenEdgeIf(body, leaves, n + 2, n + 1, EdgeKind.Branch);
    DrivenPlus(body, own, inner.facts);
    DrivenPlus(body, own.Plus(inner.facts), back);
    DrivenPlus(body, own.Plus(inner.facts).Plus(back), again);
    DrivenPlus(body, own.Plus(inner.facts).Plus(back).Plus(again), EdgeIf(leaves, n + 2, n + 1, EdgeKind.Branch));
  }

  lemma {:induction false} CoversLeaf(body: Node, node: Node, n: nat, incoming: set<nat>, t: Targets, k: Cont)
    requires OwnerReady(body, node, n, incoming, t, k)
    requires node.kind.Return? || node.kind.Goto? || node.kind.Label? || node.kind.Break? || node.kind.Continue?
      || node.kind.Simple?
    ensures Covered(body, Layout(Mended, node, n, incoming, t), k)
  {
    DrivenNothing(body);
    match node.kind
    case Return =>
      LiveNext(body, n, At(node, k), 1, Returned);
    case Break =>
      if t.breakTo.Some? { LiveNext(body, n, At(node, k), t.breakTo.value, AfterBreak(k).value); }
    case Continue =>
      if t.continueTo.Some? { LiveNext(body, n, At(node, k), t.continueTo.value, AfterContinue(k).value); }
    case Goto(_) =>
    case Label(_) => FeedNext(body, {n}, At(node, k), Done(k));
    case Simple => FeedNext(body, {n}, At(node, k), Done(k));
  }

  lemma {:induction false} CoversSeq(body: Node, nodes: seq<Node>, n: nat, incoming: set<nat>, t: Targets, k: Cont)
    requires SitsAtSeq(body, nodes, n, k) && AimsAt(body, t, k) && Feed(body, incoming, Done(Then(nodes, k)))
    ensures Covered(body, LayoutSeq(Mended, nodes, n, incoming, t), k)
    decreases nodes, 0
  {
    if nodes == [] {
      FeedNext(body, incoming, Done(Then(nodes, k)), Done(k));
      DrivenNothing(body);
    } else {
      var first := Layout(Mended, nodes[0], n, incoming, t);
      var rest := LayoutSeq(Mended, nodes[1..], first.next, first.exits, t);
      assert AimsAt(body, t, Then(nodes[1..], k));
      LabelsLie(nodes[0], Then(nodes[1..], k), "", n, incoming, t);
      assert SitsAt(body, nodes[0], n, Then(nodes[1..], k)) && SitsAtSeq(body, nodes[1..], first.next, k);
      hide Live, Driven, Feed, SpotOf, AimsAt, Happens;
      FeedNext(body, incoming, Done(Then(nodes, k)), Enter(Some(nodes[0]), Then(nodes[1..], k)));
      Covers(body, nodes[0], n, incoming, t, Then(nodes[1..], k));
      CoversSeq(body, nodes[1..], first.next, first.exits, t, k);
      DrivenPlus(body, first.facts, rest.facts);
    }
  }

  // ----- Switches -----

  /** The switch at block s comes to each of these clauses. */
  ghost predicate Chooses(body: Node, s: nat, clauses: seq<Node>, k: Cont) {
    forall clause :: clause in clauses ==> Feed(body, {s}, Enter(Some(clause), InSwitch(k)))
  }

  /** The block behind the switch at block s, and where jumps inside it go. */
  ghost predicate SwitchAims(body: Node, s: nat, continueTo: Option<nat>, k: Cont) {
    SpotOf(body, s + 1) == Some(Done(k)) && s >= 2 && AimsAt(body, Targets(Some(s + 1), continueTo), InSwitch(k))
  }

  lemma {:induction false} CoversSwitch(body: Node, node: Node, n: nat, incoming: set<nat>, t: Targets, k: Cont)
    requires OwnerReady(body, node, n, incoming, t, k) && node.kind.Switch?
    ensures Covered(body, Layout(Mended, node, n, incoming, t), k)
    decreases node, 0
  {
    hide CatchesAll, Clauses;
    var children := node.kind.children;
    assert SitsAtClauses(body, children, n + 2, InSwitch(k)) && SpotOf(body, n + 1) == Some(Done(k));
    assert SwitchAims(body, n, t.continueTo, k);
    FeedsAfter(body, n + 1, Done(k));
    if PassesOver(Mended, children) {
      LiveNext(body, n, At(node, k), n + 1, Done(k));
    }
    DrivenEdgeIf(body, PassesOver(Mended, children), n, n + 1, EdgeKind.Branch);
    hide Live, Driven, Feed, SpotOf, AimsAt, Happens, SwitchAims;
    forall clause | clause in Clauses(children) ensures Feed(body, {n}, Enter(Some(clause), InSwitch(k))) {
      FeedNext(body, {n}, At(node, k), Enter(Some(clause), InSwitch(k)));
    }
    CoversClauses(body, children, n, n + 2, t.continueTo, k);
    var own, inner := Own(node, n, incoming), LayoutClauses(Mended, children, n, n + 2, t.continueTo);
    DrivenPlus(body, own, inner.facts);
    DrivenPlus(body, own.Plus(inner.facts), EdgeIf(PassesOver(Mended, children), n, n + 1, EdgeKind.Branch));
  }

  lemma {:induction false} CoversClauses(body: Node, children: seq<Node>, s: nat, n: nat, continueTo: Option<nat>,
      k: Cont)
    requires SitsAtClauses(body, children, n, InSwitch(k)) && SwitchAims(body, s, continueTo, k)
    requires Chooses(body, s, Clauses(children), k)
    ensures Driven(body, LayoutClauses(Mended, children, s, n, continueTo).facts)
    decreases children, 0
  {
    hide Live, Driven, Feed, SpotOf, Happens, SwitchAims;
    if children == [] {
      DrivenNothing(body);
    } else {
      var first := LayoutClause(Mended, children[0], s, n, continueTo);
      LabelsLieClause(children[0], InSwitch(k), "", s, n, continueTo);
      CoversClause(body, children[0], s, n, continueTo, k);
      CoversClauses(body, children[1..], s, first.next, continueTo, k);
      DrivenPlus(body, first.facts, LayoutClauses(Mended, children[1..], s, first.next, continueTo).facts);
    }
  }

  lemma {:induction false} CoversClause(body: Node, child: Node, s: nat, n: nat, continueTo: Option<nat>, k: Cont)
    requires SitsAtClause(body, child, n, InSwitch(k)) && SwitchAims(body, s, continueTo, k)
    requires Chooses(body, s, ClausesOf(child), k)
    ensures Driven(body, LayoutClause(Mended, child, s, n, continueTo).facts)
    decreases child, 3
  {
    if child.kind.Clause? {
      var inside := Targets(Some(s + 1), continueTo);
      var part := Layout(Mended, child, n, {s}, inside);
      FeedsAfter(body, s + 1, Done(k));
      assert child in ClausesOf(child);
      hide Live, Driven, Feed, SpotOf, Happens, AimsAt;
      Covers(body, child, n, {s}, inside, InSwitch(k));
      FeedNext(body, part.exits, Done(InSwitch(k)), Done(k));
      DrivenEdges(body, part.exits, Done(k), s + 1, EdgeKind.Branch);
      DrivenPlus(body, part.facts, OnlyEdges(EdgesTo(part.exits, s + 1, EdgeKind.Branch)));
    } else if child.kind.Region? && !child.inactive {
      hide Live, Driven, Feed, SpotOf, Happens, SwitchAims;
      CoversClauses(body, child.kind.children, s, n, continueTo, k);
    } else {
      DrivenNothing(body);
    }
  }

  // ----- The whole function -----

  lemma JumpsDrive(body: Node)
    requires Driven(body, Body(Mended, body).facts)
    ensures Driven(body, OnlyEdges(JumpEdges(Mended, Body(Mended, body).facts.gotos, Body(Mended, body).facts.labels)))
  {
    hide Find, Spot;
    var facts, top := Body(Mended, body).facts, Targets(None, None);
    forall g, m: nat | g in facts.gotos && IsFirst(facts.labels, g.1, m) && Live(body, g.0) ensures Live(body, m) {
      var c := SpotOf(body, g.0).value;
      LabelsLie(body, Stop, g.1, 2, {0}, top);
      assert LayoutOpt(Mended, Some(body), 2, {0}, top) == Body(Mended, body);
      var whole, exits := Whole(Mended, body), Body(Mended, body).exits;
      assert Continues(whole, exits, Stop, exits, top);
      var first := FindStands(whole, exits, body, Stop, g.1, 2, {0}, top, exits);
      assert first == m;
      HappensNext(body, c, Find(body, Stop, g.1).value);
    }
    hide Live, Body;
  }

  /** Every edge of the mended graph is followed by runs that come to its block. */
  lemma WholeIsDriven(body: Node)
    ensures Driven(body, Whole(Mended, body)) && Feed(body, Body(Mended, body).exits, Done(Stop))
  {
    hide Spot, Layout;
    var part := Body(Mended, body);
    assert Feed(body, {0}, Enter(Some(body), Stop));
    Covers(body, body, 2, {0}, Targets(None, None), Stop);
    DrivenEdges(body, part.exits, Done(Stop), 1, Fallthrough);
    JumpsDrive(body);
    hide Body, Live;
    var falls, jumps := EdgesTo(part.exits, 1, Fallthrough), JumpEdges(Mended, part.facts.gotos, part.facts.labels);
    DrivenPlus(body, OnlyEdges(falls), OnlyEdges(jumps));
    assert OnlyEdges(falls).Plus(OnlyEdges(jumps)) == OnlyEdges(falls + jumps);
    DrivenPlus(body, part.facts, OnlyEdges(falls + jumps));
  }

  lemma EntryIsLive(body: Node)
    ensures Live(body, 0)
  {
    hide Spot, IsRun;
    HappensFirst(body);
  }

  lemma {:induction false} PathIsLive(body: Node, path: seq<nat>)
    requires IsPath(EdgePairs(Whole(Mended, body).edges), path) && path[0] == 0
    ensures Live(body, path[|path| - 1])
    decreases |path|
  {
    hide Live, Whole;
    if |path| == 1 {
      EntryIsLive(body);
    } else {
      PathIsLive(body, path[..|path| - 1]);
      WholeIsDriven(body);
      var e :| e in Whole(Mended, body).edges && e.from == path[|path| - 2] && e.to == path[|path| - 1];
    }
  }

  ghost predicate MendedReaches(body: Node, b: nat) {
    Reaches(EdgePairs(Whole(Mended, body).edges), 0, b)
  }

  lemma ReachedIsLive(body: Node, b: nat)
    requires MendedReaches(body, b)
    ensures Live(body, b)
  {
    hide Live, Whole;
    var path :| PathFromTo(EdgePairs(Whole(Mended, body).edges), path, 0, b);
    PathIsLive(body, path);
  }

  /** Some run of the body executes the statement. */
  ghost predicate Runs(body: Node, id: nat) {
    exists c :: Happens(body, c) && c.At? && c.node.id == id
  }

  /** The mended graph reaches a block of the statement. */
  ghost predicate MendedShows(body: Node, id: nat) {
    exists b {:trigger (id, b) in Whole(Mended, body).blocks} :: (id, b) in Whole(Mended, body).blocks
        && MendedReaches(body, b)
  }

  lemma LiveSpot(body: Node, b: nat)
    requires b >= 2 && Live(body, b)
    ensures SpotOf(body, b).Some? && Happens(body, SpotOf(body, b).value)
  {
    hide Spot, Happens;
  }

  /** The mended graph is exact: it reaches the statements that some run executes and no others. */
  lemma RunsIffShown(body: Node, id: nat)
    ensures Runs(body, id) <==> MendedShows(body, id)
  {
    hide Step, Live, Whole, Stands;
    if Runs(body, id) {
      var c :| Happens(body, c) && c.At? && c.node.id == id;
      var run :| IsRun(body, run) && run[|run| - 1] == c;
      var b := RunStatementReachable(body, run, |run| - 1);
    }
    if MendedShows(body, id) {
      var b :| (id, b) in Whole(Mended, body).blocks && MendedReaches(body, b);
      ReachedIsLive(body, b);
      WholeIsDriven(body);
      LiveSpot(body, b);
    }
  }

  /** Some run falls off the end exactly if the mended graph reaches a block from which control leaves the tree. */
  lemma FallsOffIffShown(body: Node)
    ensures Happens(body, Done(Stop)) <==> exists b :: b in Body(Mended, body).exits && MendedReaches(body, b)
  {
    hide Step, Live, Whole, Body, Stands;
    if Happens(body, Done(Stop)) {
      var run :| IsRun(body, run) && run[|run| - 1] == Done(Stop);
      var b := RunFallsOffReachable(body, run, |run| - 1);
    }
    if b :| b in Body(Mended, body).exits && MendedReaches(body, b) {
      ReachedIsLive(body, b);
      WholeIsDriven(body);
    }
  }
}
