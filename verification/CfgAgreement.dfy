/**
 Where the graph as it is built and the mended graph differ. In a body that is not uncertain and
 whose switches have their clauses directly, they differ only where a do loop repeats a body without
 a block of its own.
 */
module CfgAgreement {
  import opened Wrappers
  import opened Graphs
  import opened Cfg
  import opened CfgRuns
  import opened CfgCoverage

  // ----- What makes a body uncertain -----

  ghost predicate TroubledOpt(tree: Option<Node>, breaks: bool, continues: bool)
    decreases tree, 1
  {
    tree.Some? && Troubled(tree.value, breaks, continues)
  }

  /**
   Damaged or unclear code, a goto without a label, an unnamed label, or a break or continue with
   nowhere to go, in the part of the tree that is compiled.
   */
  ghost predicate Troubled(node: Node, breaks: bool, continues: bool)
    decreases node, 0
  {
    !node.inactive && (node.damaged || match node.kind
      case Region(children) => TroubledSeq(children, breaks, continues)
      case Unclear => true
      case NotStatement => false
      case Block(children) => TroubledSeq(children, breaks, continues)
      case If(consequence, alternative) =>
        TroubledOpt(consequence, breaks, continues) || TroubledOpt(alternative, breaks, continues)
      case While(_, body) => TroubledOpt(body, true, true)
      case DoWhile(_, body) => TroubledOpt(body, true, true)
      case Switch(children) => TroubledClauses(children, continues)
      case Clause(_, body) => TroubledOpt(body, breaks, continues)
      case Goto(target) => target == None
      case Label(name) => name == ""
      case Break => !breaks
      case Continue => !continues
      case _ => false)
  }

  ghost predicate TroubledSeq(nodes: seq<Node>, breaks: bool, continues: bool)
    decreases nodes, 0
  {
    exists i :: 0 <= i < |nodes| && Troubled(nodes[i], breaks, continues)
  }

  ghost predicate TroubledClauses(children: seq<Node>, continues: bool)
    decreases children, 0
  {
    exists i :: 0 <= i < |children| && children[i].kind.Clause? && Troubled(children[i], true, continues)
  }

  ghost predicate Unique(labels: set<(string, nat)>) {
    forall a, b :: a in labels && b in labels && a.0 == b.0 ==> a == b
  }

  ghost predicate Resolved(gotos: set<(nat, string)>, labels: set<(string, nat)>) {
    forall g :: g in gotos ==> exists l :: l in labels && l.0 == g.1
  }

  // ----- Gaps -----

  ghost predicate DirectOpt(tree: Option<Node>)
    decreases tree, 1
  {
    tree.Some? ==> Direct(tree.value)
  }

  /** No switch that is compiled has clauses inside a region. */
  ghost predicate Direct(node: Node)
    decreases node, 0
  {
    node.inactive || match node.kind
      case Region(children) => DirectSeq(children)
      case Block(children) => DirectSeq(children)
      case If(consequence, alternative) => DirectOpt(consequence) && DirectOpt(alternative)
      case While(_, body) => DirectOpt(body)
      case DoWhile(_, body) => DirectOpt(body)
      case Switch(children) =>
        DirectSeq(children) && DirectChoice(children)
      case Clause(_, body) => DirectOpt(body)
      case _ => true
  }

  ghost predicate DirectSeq(nodes: seq<Node>)
    decreases nodes, 0
  {
    forall i :: 0 <= i < |nodes| ==> Direct(nodes[i])
  }

  ghost predicate DirectChoice(children: seq<Node>) {
    forall i :: 0 <= i < |children| && !children[i].kind.Clause? ==> ClausesOf(children[i]) == []
  }

  ghost function GapsOpt(tree: Option<Node>, n: nat): Edges
    decreases tree, 1
  {
    if tree == None then {} else Gaps(tree.value, n)
  }

  /**
   The edges that are missed: from the condition of a do loop that may repeat to the first block of
   its body, where the body has blocks but none of its own.
   */
  ghost function Gaps(node: Node, n: nat): Edges
    decreases node, 0
  {
    if node.inactive then {}
    else match node.kind
      case Region(children) => GapsSeq(children, n)
      case Block(children) => GapsSeq(children, n + 1)
      case If(consequence, alternative) =>
        GapsOpt(consequence, n + 1) + GapsOpt(alternative, n + 1 + SizeOpt(consequence))
      case While(_, body) => GapsOpt(body, n + 2)
      case DoWhile(known, body) =>
        GapsOpt(body, n + 3) + if Skips(known, body) then {(n + 2, n + 3)} else {}
      case Switch(children) => GapsClauses(children, n + 2)
      case Clause(_, body) => GapsOpt(body, n + 1)
      case _ => {}
  }

  ghost predicate Skips(known: Option<bool>, body: Option<Node>) {
    known != Some(false) && body.Some? && !OwnsBlock(body.value) && Size(body.value) > 0
  }

  ghost function GapsSeq(nodes: seq<Node>, n: nat): Edges
    decreases nodes, 0
  {
    if nodes == [] then {} else Gaps(nodes[0], n) + GapsSeq(nodes[1..], n + Size(nodes[0]))
  }

  ghost function GapsClauses(children: seq<Node>, n: nat): Edges
    decreases children, 0
  {
    if children == [] then {} else GapsClause(children[0], n) + GapsClauses(children[1..], n + SizeClause(children[0]))
  }

  ghost function GapsClause(child: Node, n: nat): Edges
    decreases child, 1
  {
    if child.kind.Clause? then Gaps(child, n) else {}
  }

  // ----- Pieces of the two graphs -----

  /** The first piece is part of the second, which has no other edges but the extra ones and loops on a block. */
  ghost predicate Mirrors(built: Facts, mended: Facts, extra: Edges) {
    && built.blocks == mended.blocks && built.gotos == mended.gotos && built.labels == mended.labels
    && built.edges <= mended.edges
    && forall e :: e in mended.edges ==> e.from == e.to || (e.from, e.to) in extra || Leads(built, e.from, e.to)
  }

  lemma MirrorsPlus(a: Facts, a': Facts, extra: Edges, b: Facts, b': Facts, more: Edges)
    requires Mirrors(a, a', extra) && Mirrors(b, b', more)
    ensures Mirrors(a.Plus(b), a'.Plus(b'), extra + more)
  {
    forall e | e in a'.edges + b'.edges
      ensures e.from == e.to || (e.from, e.to) in extra + more || Leads(a.Plus(b), e.from, e.to)
    {
      if Leads(a, e.from, e.to) {
        var x :| x in a.edges && x.from == e.from && x.to == e.to;
        assert x in a.Plus(b).edges;
      } else if Leads(b, e.from, e.to) {
        var x :| x in b.edges && x.from == e.from && x.to == e.to;
        assert x in a.Plus(b).edges;
      }
    }
  }

  lemma MirrorsSelf(a: Facts)
    ensures Mirrors(a, a, {})
  {
  }

  ghost function Into(from: set<nat>, to: nat): Edges {
    set b | b in from :: (b, to)
  }

  lemma MirrorsEdgesTo(from: set<nat>, from': set<nat>, to: nat, kind: EdgeKind)
    requires from <= from'
    ensures Mirrors(OnlyEdges(EdgesTo(from, to, kind)), OnlyEdges(EdgesTo(from', to, kind)), Into(from' - from, to))
  {
    forall e | e in EdgesTo(from', to, kind)
      ensures (e.from, e.to) in Into(from' - from, to) || Leads(OnlyEdges(EdgesTo(from, to, kind)), e.from, e.to)
    {
      if e.from in from {
        assert Edge(e.from, to, kind) in EdgesTo(from, to, kind);
      }
    }
  }

  lemma MirrorsOwn(node: Node, n: nat, incoming: set<nat>, incoming': set<nat>)
    requires incoming <= incoming'
    ensures Mirrors(Own(node, n, incoming), Own(node, n, incoming'), Into(incoming' - incoming, n))
  {
    MirrorsEdgesTo(incoming, incoming', n, Normal);
    var own := Facts({}, {(node.id, n)}, {}, {});
    MirrorsSelf(own);
    MirrorsPlus(OnlyEdges(EdgesTo(incoming, n, Normal)), OnlyEdges(EdgesTo(incoming', n, Normal)),
                Into(incoming' - incoming, n), own, own, {});
    assert Into(incoming' - incoming, n) + {} == Into(incoming' - incoming, n);
  }

  /** The two pieces for a tree that is entered from more blocks in the mended graph. */
  ghost predicate Alike(built: Part, mended: Part, n: nat, size: nat, incoming: set<nat>, incoming': set<nat>,
      gaps: Edges) {
    && incoming <= incoming' && built.next == mended.next == n + size
    && (if size == 0 then built.exits == incoming && mended.exits == incoming' else built.exits == mended.exits)
    && Mirrors(built.facts, mended.facts, gaps + if size == 0 then {} else Into(incoming' - incoming, n))
  }

  /** Where both are entered from the same blocks only the gaps are extra. */
  lemma AlikeInside(built: Part, mended: Part, n: nat, size: nat, incoming: set<nat>, gaps: Edges)
    requires Alike(built, mended, n, size, incoming, incoming, gaps)
    ensures Mirrors(built.facts, mended.facts, gaps) && built.exits == mended.exits
  {
    hide Mirrors;
    assert gaps + (if size == 0 then {} else Into(incoming - incoming, n)) == gaps;
  }

  lemma MirrorsLess(a: Facts, a': Facts, extra: Edges, less: Edges)
    requires Mirrors(a, a', extra)
    requires forall x, y {:trigger (x, y) in extra} :: (x, y) in extra && x != y && (x, y) !in less ==> Leads(a, x, y)
    ensures Mirrors(a, a', less)
  {
  }

  /** The own block of a statement together with what is inside it. */
  lemma MirrorsInside(node: Node, n: nat, incoming: set<nat>, incoming': set<nat>, a: Facts, a': Facts, gaps: Edges)
    requires incoming <= incoming' && Mirrors(a, a', gaps)
    ensures Mirrors(Own(node, n, incoming).Plus(a), Own(node, n, incoming').Plus(a'),
      gaps + Into(incoming' - incoming, n))
  {
    hide Mirrors, Own, Facts.Plus, Into;
    var enter := Into(incoming' - incoming, n);
    MirrorsOwn(node, n, incoming, incoming');
    MirrorsPlus(Own(node, n, incoming), Own(node, n, incoming'), enter, a, a', gaps);
    assert enter + gaps == gaps + enter;
  }

  lemma MirrorsPlusSame(a: Facts, a': Facts, gaps: Edges, b: Facts)
    requires Mirrors(a, a', gaps)
    ensures Mirrors(a.Plus(b), a'.Plus(b), gaps)
  {
    hide Mirrors;
    MirrorsSelf(b);
    MirrorsPlus(a, a', gaps, b, b, {});
    assert gaps + {} == gaps;
  }

  lemma PlusGroups(a: Facts, b: Facts, c: Facts, d: Facts)
    ensures a.Plus(b.Plus(c)) == a.Plus(b).Plus(c)
    ensures a.Plus(b.Plus(c).Plus(d)) == a.Plus(b).Plus(c).Plus(d)
  {
  }

  // ----- Trees -----

  lemma {:induction false} AgreesOpt(tree: Option<Node>, n: nat, incoming: set<nat>, incoming': set<nat>, t: Targets)
    requires incoming <= incoming' && DirectOpt(tree) && !TroubledOpt(tree, t.breakTo.Some?, t.continueTo.Some?)
    ensures Alike(LayoutOpt(Built, tree, n, incoming, t), LayoutOpt(Mended, tree, n, incoming', t),
                  n, SizeOpt(tree), incoming, incoming', GapsOpt(tree, n))
    decreases tree, 3
  {
    if tree.Some? {
      hide Mirrors;
      Agrees(tree.value, n, incoming, incoming', t);
    } else {
      MirrorsSelf(NO_FACTS);
    }
  }

  /** Nothing that goes on inside a tree depends on how many blocks it is entered from. */
  lemma {:induction false} Agrees(node: Node, n: nat, incoming: set<nat>, incoming': set<nat>, t: Targets)
    requires incoming <= incoming' && Direct(node) && !Troubled(node, t.breakTo.Some?, t.continueTo.Some?)
    ensures Alike(Layout(Built, node, n, incoming, t), Layout(Mended, node, n, incoming', t),
                  n, Size(node), incoming, incoming', Gaps(node, n))
    decreases node, 2
  {
    if node.inactive || node.kind.NotStatement? {
      MirrorsSelf(NO_FACTS);
    } else {
      hide Mirrors;
      match node.kind
      case Region(children) => AgreesSeq(children, n, incoming, incoming', t);
      case Block(_) => AgreesBlock(node, n, incoming, incoming', t);
      case If(_, _) => AgreesIf(node, n, incoming, incoming', t);
      case While(_, _) => AgreesWhile(node, n, incoming, incoming', t);
      case DoWhile(_, _) => AgreesDo(node, n, incoming, incoming', t);
      case Switch(_) => AgreesSwitch(node, n, incoming, incoming', t);
      case Clause(_, _) => AgreesBlock(node, n, incoming, incoming', t);
      case _ => AgreesLeaf(node, n, incoming, incoming', t);
    }
  }

  ghost predicate Comparable(node: Node, incoming: set<nat>, incoming': set<nat>, t: Targets) {
    OwnsBlock(node) && incoming <= incoming' && Direct(node) && !Troubled(node, t.breakTo.Some?, t.continueTo.Some?)
  }

  lemma AgreesLeaf(node: Node, n: nat, incoming: set<nat>, incoming': set<nat>, t: Targets)
    requires Comparable(node, incoming, incoming', t)
    requires node.kind.Return? || node.kind.Goto? || node.kind.Label? || node.kind.Break? || node.kind.Continue?
      || node.kind.Simple?
    ensures Alike(Layout(Built, node, n, incoming, t), Layout(Mended, node, n, incoming', t),
                  n, Size(node), incoming, incoming', Gaps(node, n))
  {
    hide Mirrors, Own, Into;
    var enter := Into(incoming' - incoming, n);
    var own, own' := Own(node, n, incoming), Own(node, n, incoming');
    MirrorsOwn(node, n, incoming, incoming');
    assert {} + enter == enter;
    match node.kind
    case Return => MirrorsPlusSame(own, own', enter, OnlyEdges({Edge(n, 1, ReturnEdge)}));
    case Goto(target) => MirrorsPlusSame(own, own', enter, Facts({}, {}, {(n, target.value)}, {}));
    case Label(name) => MirrorsPlusSame(own, own', enter, Facts({}, {}, {}, if name == "" then {} else {(name, n)}));
    case Break => MirrorsPlusSame(own, own', enter, OnlyEdges({Edge(n, t.breakTo.value, Jump)}));
    case Continue => MirrorsPlusSame(own, own', enter, OnlyEdges({Edge(n, t.continueTo.value, Jump)}));
    case Simple =>
  }

  lemma {:induction false} AgreesBlock(node: Node, n: nat, incoming: set<nat>, incoming': set<nat>, t: Targets)
    requires Comparable(node, incoming, incoming', t) && (node.kind.Block? || node.kind.Clause?)
    ensures Alike(Layout(Built, node, n, incoming, t), Layout(Mended, node, n, incoming', t),
                  n, Size(node), incoming, incoming', Gaps(node, n))
    decreases node, 1
  {
    hide Mirrors, Own, Into;
    var inner, inner', size, gaps;
    if node.kind.Block? {
      AgreesSeq(node.kind.children, n + 1, {n}, {n}, t);
      inner, inner' := LayoutSeq(Built, node.kind.children, n + 1, {n}, t),
          LayoutSeq(Mended, node.kind.children, n + 1, {n}, t);
      size, gaps := SizeSeq(node.kind.children), GapsSeq(node.kind.children, n + 1);
    } else {
      AgreesOpt(node.kind.body, n + 1, {n}, {n}, t);
      inner, inner' := LayoutOpt(Built, node.kind.body, n + 1, {n}, t),
          LayoutOpt(Mended, node.kind.body, n + 1, {n}, t);
      size, gaps := SizeOpt(node.kind.body), GapsOpt(node.kind.body, n + 1);
    }
    AlikeInside(inner, inner', n + 1, size, {n}, gaps);
    MirrorsInside(node, n, incoming, incoming', inner.facts, inner'.facts, gaps);
  }

  lemma {:induction false} AgreesIf(node: Node, n: nat, incoming: set<nat>, incoming': set<nat>, t: Targets)
    requires Comparable(node, incoming, incoming', t) && node.kind.If?
    ensures Alike(Layout(Built, node, n, incoming, t), Layout(Mended, node, n, incoming', t),
                  n, Size(node), incoming, incoming', Gaps(node, n))
    decreases node, 1
  {
    hide *;
    var consequence, alternative := node.kind.consequence, node.kind.alternative;
    var middle := n + 1 + SizeOpt(consequence);
    ComparableIf(node, incoming, incoming', t);
    AgreesOpt(consequence, n + 1, {n}, {n}, t);
    AgreesOpt(alternative, middle, {n}, {n}, t);
    AlikeIf(node, n, incoming, incoming', t);
  }

  lemma ComparableIf(node: Node, incoming: set<nat>, incoming': set<nat>, t: Targets)
    requires Comparable(node, incoming, incoming', t) && node.kind.If?
    ensures DirectOpt(node.kind.consequence) && !TroubledOpt(node.kind.consequence, t.breakTo.Some?, t.continueTo.Some?)
    ensures DirectOpt(node.kind.alternative) && !TroubledOpt(node.kind.alternative, t.breakTo.Some?, t.continueTo.Some?)
  {
  }

  lemma AlikeIf(node: Node, n: nat, incoming: set<nat>, incoming': set<nat>, t: Targets)
    requires Comparable(node, incoming, incoming', t) && node.kind.If?
    requires Alike(LayoutOpt(Built, node.kind.consequence, n + 1, {n}, t),
      LayoutOpt(Mended, node.kind.consequence, n + 1, {n}, t),
                   n + 1, SizeOpt(node.kind.consequence), {n}, {n}, GapsOpt(node.kind.consequence, n + 1))
    requires var middle := n + 1 + SizeOpt(node.kind.consequence);
      Alike(LayoutOpt(Built, node.kind.alternative, middle, {n}, t),
          LayoutOpt(Mended, node.kind.alternative, middle, {n}, t),
            middle, SizeOpt(node.kind.alternative), {n}, {n}, GapsOpt(node.kind.alternative, middle))
    ensures Alike(Layout(Built, node, n, incoming, t), Layout(Mended, node, n, incoming', t),
                  n, Size(node), incoming, incoming', Gaps(node, n))
  {
    hide Mirrors, Own, Into, LayoutOpt, SizeOpt, GapsOpt, Direct, Troubled, Facts.Plus;
    var consequence, alternative := node.kind.consequence, node.kind.alternative;
    var middle := n + 1 + SizeOpt(consequence);
    var yes, yes' := LayoutOpt(Built, consequence, n + 1, {n}, t), LayoutOpt(Mended, consequence, n + 1, {n}, t);
    var no, no' := LayoutOpt(Built, alternative, middle, {n}, t), LayoutOpt(Mended, alternative, middle, {n}, t);
    AlikeInside(yes, yes', n + 1, SizeOpt(consequence), {n}, GapsOpt(consequence, n + 1));
    AlikeInside(no, no', middle, SizeOpt(alternative), {n}, GapsOpt(alternative, middle));
    MirrorsPlus(yes.facts, yes'.facts, GapsOpt(consequence, n + 1), no.facts, no'.facts, GapsOpt(alternative, middle));
    MirrorsInside(node, n, incoming, incoming', yes.facts.Plus(no.facts), yes'.facts.Plus(no'.facts), Gaps(node, n));
    PlusGroups(Own(node, n, incoming), yes.facts, no.facts, NO_FACTS);
    PlusGroups(Own(node, n, incoming'), yes'.facts, no'.facts, NO_FACTS);
  }

  lemma {:induction false} AgreesWhile(node: Node, n: nat, incoming: set<nat>, incoming': set<nat>, t: Targets)
    requires Comparable(node, incoming, incoming', t) && node.kind.While?
    ensures Alike(Layout(Built, node, n, incoming, t), Layout(Mended, node, n, incoming', t),
                  n, Size(node), incoming, incoming', Gaps(node, n))
    decreases node, 1
  {
    hide Mirrors, Own, Into;
    var known, body := node.kind.known, node.kind.body;
    var into, inside := if known == Some(false) then {} else {n}, Targets(Some(n + 1), Some(n));
    AgreesOpt(body, n + 2, into, into, inside);
    var inner, inner' := LayoutOpt(Built, body, n + 2, into, inside), LayoutOpt(Mended, body, n + 2, into, inside);
    AlikeInside(inner, inner', n + 2, SizeOpt(body), into, GapsOpt(body, n + 2));
    var back := OnlyEdges(EdgesTo(inner.exits, n, Jump));
    var leave := EdgeIf(known != Some(true), n, n + 1, EdgeKind.Branch);
    MirrorsPlusSame(inner.facts, inner'.facts, GapsOpt(body, n + 2), back);
    MirrorsPlusSame(inner.facts.Plus(back), inner'.facts.Plus(back), GapsOpt(body, n + 2), leave);
    MirrorsInside(node, n, incoming, incoming', inner.facts.Plus(back).Plus(leave), inner'.facts.Plus(back).Plus(leave),
                  GapsOpt(body, n + 2));
    PlusGroups(Own(node, n, incoming), inner.facts, back, leave);
    PlusGroups(Own(node, n, incoming'), inner'.facts, back, leave);
  }

  lemma {:induction false} AgreesDo(node: Node, n: nat, incoming: set<nat>, incoming': set<nat>, t: Targets)
    requires Comparable(node, incoming, incoming', t) && node.kind.DoWhile?
    ensures Alike(Layout(Built, node, n, incoming, t), Layout(Mended, node, n, incoming', t),
                  n, Size(node), incoming, incoming', Gaps(node, n))
    decreases node, 1
  {
    hide Mirrors, Own, Into, Facts.Plus, EdgesTo, Troubled, Direct;
    assert DirectOpt(node.kind.body) && !TroubledOpt(node.kind.body, true, true) by {
      DoIsSound(node, incoming, incoming', t);
    }
    var known, body := node.kind.known, node.kind.body;
    var into, inside := DoEntries(Mended, known, n), Targets(Some(n + 1), Some(n + 2));
    AgreesOpt(body, n + 3, {n}, into, inside);
    var inner, inner' := LayoutOpt(Built, body, n + 3, {n}, inside), LayoutOpt(Mended, body, n + 3, into, inside);
    MirrorsDo(known, body, n, inner, inner');
    var leave := EdgeIf(known != Some(true), n + 2, n + 1, EdgeKind.Branch);
    var loop, loop' := DoFacts(known, body, n, inner), DoFacts(known, body, n, inner');
    MirrorsPlusSame(loop, loop', Gaps(node, n), leave);
    MirrorsInside(node, n, incoming, incoming', loop.Plus(leave), loop'.Plus(leave), Gaps(node, n));
    DoGroups(Own(node, n, incoming), known, body, n, inner, leave);
    DoGroups(Own(node, n, incoming'), known, body, n, inner', leave);
  }

  lemma DoIsSound(node: Node, incoming: set<nat>, incoming': set<nat>, t: Targets)
    requires Comparable(node, incoming, incoming', t) && node.kind.DoWhile?
    ensures DirectOpt(node.kind.body) && !TroubledOpt(node.kind.body, true, true)
  {
  }

  ghost function DoFacts(known: Option<bool>, body: Option<Node>, n: nat, inner: Part): Facts {
    inner.facts.Plus(OnlyEdges(EdgesTo(inner.exits, n + 2, Jump)))
               .Plus(EdgeIf(known != Some(false) && body.Some? && OwnsBlock(body.value), n + 2, n + 3, EdgeKind.Branch))
  }

  lemma DoGroups(own: Facts, known: Option<bool>, body: Option<Node>, n: nat, inner: Part, leave: Facts)
    ensures var back := OnlyEdges(EdgesTo(inner.exits, n + 2, Jump));
      var again := EdgeIf(known != Some(false) && body.Some? && OwnsBlock(body.value), n + 2, n + 3, EdgeKind.Branch);
      own.Plus(DoFacts(known, body, n, inner).Plus(leave)) == own.Plus(inner.facts).Plus(back).Plus(again).Plus(leave)
  {
  }

  /** The repeat edge is built if the body has a block of its own, and otherwise is a gap. */
  lemma MirrorsDo(known: Option<bool>, body: Option<Node>, n: nat, inner: Part, inner': Part)
    requires Alike(inner, inner', n + 3, SizeOpt(body), {n}, DoEntries(Mended, known, n), GapsOpt(body, n + 3))
    requires body.Some? && OwnsBlock(body.value) ==> SizeOpt(body) > 0
    ensures Mirrors(DoFacts(known, body, n, inner), DoFacts(known, body, n, inner'),
                    GapsOpt(body, n + 3) + if Skips(known, body) then {(n + 2, n + 3)} else {})
  {
    hide Mirrors, EdgesTo, Gaps, Size;
    var gaps, into := GapsOpt(body, n + 3), DoEntries(Mended, known, n);
    var enter := if SizeOpt(body) == 0 then {} else Into(into - {n}, n + 3);
    var back, back' := OnlyEdges(EdgesTo(inner.exits, n + 2, Jump)), OnlyEdges(EdgesTo(inner'.exits, n + 2, Jump));
    var again := EdgeIf(known != Some(false) && body.Some? && OwnsBlock(body.value), n + 2, n + 3, EdgeKind.Branch);
    var loops := Into(inner'.exits - inner.exits, n + 2);
    MirrorsEdgesTo(inner.exits, inner'.exits, n + 2, Jump);
    MirrorsPlus(inner.facts, inner'.facts, gaps + enter, back, back', loops);
    MirrorsPlusSame(inner.facts.Plus(back), inner'.facts.Plus(back'), gaps + enter + loops, again);
    var loop, less := DoFacts(known, body, n, inner), gaps + if Skips(known, body) then {(n + 2, n + 3)} else {};
    forall x, y {:trigger (x, y) in gaps + enter + loops} |
      (x, y) in gaps + enter + loops && x != y && (x, y) !in less ensures Leads(loop, x, y)
    {
      assert (x, y) in enter;
      assert Edge(n + 2, n + 3, EdgeKind.Branch) in loop.edges;
    }
    MirrorsLess(loop, DoFacts(known, body, n, inner'), gaps + enter + loops, less);
  }

  lemma SoundPieces(nodes: seq<Node>, breaks: bool, continues: bool)
    requires nodes != [] && DirectSeq(nodes) && !TroubledSeq(nodes, breaks, continues)
    ensures Direct(nodes[0]) && !Troubled(nodes[0], breaks, continues)
    ensures DirectSeq(nodes[1..]) && !TroubledSeq(nodes[1..], breaks, continues)
  {
    hide Direct, Troubled;
    assert forall i :: 0 <= i < |nodes[1..]| ==> nodes[1..][i] == nodes[i + 1];
  }

  lemma {:induction false} AgreesSeq(nodes: seq<Node>, n: nat, incoming: set<nat>, incoming': set<nat>, t: Targets)
    requires incoming <= incoming' && DirectSeq(nodes) && !TroubledSeq(nodes, t.breakTo.Some?, t.continueTo.Some?)
    ensures Alike(LayoutSeq(Built, nodes, n, incoming, t), LayoutSeq(Mended, nodes, n, incoming', t),
                  n, SizeSeq(nodes), incoming, incoming', GapsSeq(nodes, n))
    decreases nodes, 0
  {
    hide *;
    if nodes == [] {
      AgreesNothing(n, incoming, incoming', t);
    } else {
      SoundPieces(nodes, t.breakTo.Some?, t.continueTo.Some?);
      var first, first' := Layout(Built, nodes[0], n, incoming, t), Layout(Mended, nodes[0], n, incoming', t);
      Agrees(nodes[0], n, incoming, incoming', t);
      AlikeExits(first, first', n, Size(nodes[0]), incoming, incoming', Gaps(nodes[0], n));
      AgreesSeq(nodes[1..], first.next, first.exits, first'.exits, t);
      UnfoldSeq(Built, nodes, n, incoming, t);
      UnfoldSeq(Mended, nodes, n, incoming', t);
      AlikeSeq(first, first', LayoutSeq(Built, nodes[1..], first.next, first.exits, t),
               LayoutSeq(Mended, nodes[1..], first'.next, first'.exits, t), n, Size(nodes[0]), SizeSeq(nodes[1..]),
               incoming, incoming', Gaps(nodes[0], n), GapsSeq(nodes[1..], n + Size(nodes[0])));
    }
  }

  lemma AgreesNothing(n: nat, incoming: set<nat>, incoming': set<nat>, t: Targets)
    requires incoming <= incoming'
    ensures Alike(LayoutSeq(Built, [], n, incoming, t), LayoutSeq(Mended, [], n, incoming', t),
                  n, SizeSeq([]), incoming, incoming', GapsSeq([], n))
  {
    MirrorsSelf(NO_FACTS);
  }

  lemma AlikeExits(built: Part, mended: Part, n: nat, size: nat, incoming: set<nat>, incoming': set<nat>, gaps: Edges)
    requires Alike(built, mended, n, size, incoming, incoming', gaps)
    ensures built.exits <= mended.exits && built.next == mended.next == n + size
  {
  }

  lemma UnfoldSeq(view: View, nodes: seq<Node>, n: nat, incoming: set<nat>, t: Targets)
    requires nodes != []
    ensures var first := Layout(view, nodes[0], n, incoming, t);
      var rest := LayoutSeq(view, nodes[1..], first.next, first.exits, t);
      LayoutSeq(view, nodes, n, incoming, t) == Part(rest.next, rest.exits, first.facts.Plus(rest.facts))
    ensures SizeSeq(nodes) == Size(nodes[0]) + SizeSeq(nodes[1..])
    ensures GapsSeq(nodes, n) == Gaps(nodes[0], n) + GapsSeq(nodes[1..], n + Size(nodes[0]))
  {
    hide Layout, Size, Gaps, Facts.Plus;
  }

  lemma AlikeSeq(first: Part, first': Part, rest: Part, rest': Part, n: nat, size: nat, more: nat,
                 incoming: set<nat>, incoming': set<nat>, gaps: Edges, others: Edges)
    requires Alike(first, first', n, size, incoming, incoming', gaps)
    requires Alike(rest, rest', first.next, more, first.exits, first'.exits, others)
    ensures Alike(Part(rest.next, rest.exits, first.facts.Plus(rest.facts)),
                  Part(rest'.next, rest'.exits, first'.facts.Plus(rest'.facts)),
                  n, size + more, incoming, incoming', gaps + others)
  {
    hide Mirrors, Facts.Plus;
    var into := if size == 0 then {} else Into(incoming' - incoming, n);
    var onward := if more == 0 then {} else Into(first'.exits - first.exits, first.next);
    MirrorsPlus(first.facts, first'.facts, gaps + into, rest.facts, rest'.facts, others + onward);
    var all := gaps + others + if size + more == 0 then {} else Into(incoming' - incoming, n);
    assert size > 0 ==> first'.exits - first.exits == {};
    assert gaps + into + (others + onward) == all;
  }

  // ----- Switches -----

  lemma {:induction false} DirectClauses(children: seq<Node>, clause: Node)
    requires DirectChoice(children)
    ensures clause in Clauses(children) <==> clause in children && clause.kind.Clause?
    decreases |children|
  {
    if children != [] {
      DirectClauses(children[1..], clause);
      assert clause in children <==> clause == children[0] || clause in children[1..];
    }
  }

  /** A clause that is compiled out leaves the way past the switch open. */
  lemma {:induction false} InactiveClauseOpens(children: seq<Node>, s: nat, n: nat, continueTo: Option<nat>,
      clause: Node)
    requires clause in children && clause.kind.Clause? && clause.inactive
    ensures Edge(s, s + 1, EdgeKind.Branch) in LayoutClauses(Built, children, s, n, continueTo).facts.edges
    decreases |children|
  {
    var first := LayoutClause(Built, children[0], s, n, continueTo);
    if children[0] == clause {
      assert Layout(Built, clause, n, {s}, Targets(Some(s + 1), continueTo)).exits == {s};
      assert Edge(s, s + 1, EdgeKind.Branch) in first.facts.edges;
    } else {
      InactiveClauseOpens(children[1..], s, first.next, continueTo, clause);
    }
  }

  /** Both graphs have a way past the switch, or neither has, if clauses that are compiled out are counted. */
  lemma MirrorsPass(children: seq<Node>, s: nat, n: nat, continueTo: Option<nat>, a': Facts, gaps: Edges)
    requires DirectChoice(children)
    requires Mirrors(LayoutClauses(Built, children, s, n, continueTo).facts, a', gaps)
    ensures Mirrors(LayoutClauses(Built, children, s, n, continueTo).facts
                      .Plus(EdgeIf(PassesOver(Built, children), s, s + 1, EdgeKind.Branch)),
                    a'.Plus(EdgeIf(PassesOver(Mended, children), s, s + 1, EdgeKind.Branch)), gaps)
  {
    var a := LayoutClauses(Built, children, s, n, continueTo).facts;
    var pass, pass' := PassesOver(Built, children), PassesOver(Mended, children);
    if pass && !pass' {
      var clause :| clause in Clauses(children) && clause.kind.Clause? && clause.kind.isDefault;
      DirectClauses(children, clause);
    } else if pass' && !pass {
      var clause :| clause in children && clause.kind.Clause? && clause.kind.isDefault;
      DirectClauses(children, clause);
      InactiveClauseOpens(children, s, n, continueTo, clause);
      hide LayoutClauses;
      assert Leads(a, s, s + 1);
      assert a.Plus(NO_FACTS) == a;
    } else {
      MirrorsPlusSame(a, a', gaps, EdgeIf(pass, s, s + 1, EdgeKind.Branch));
    }
  }

  lemma {:induction false} AgreesSwitch(node: Node, n: nat, incoming: set<nat>, incoming': set<nat>, t: Targets)
    requires Comparable(node, incoming, incoming', t) && node.kind.Switch?
    ensures Alike(Layout(Built, node, n, incoming, t), Layout(Mended, node, n, incoming', t),
                  n, Size(node), incoming, incoming', Gaps(node, n))
    decreases node, 1
  {
    hide Mirrors, Own, Into, PassesOver;
    var children := node.kind.children;
    AgreesClauses(children, n, n + 2, t.continueTo);
    var inner := LayoutClauses(Built, children, n, n + 2, t.continueTo);
    var inner' := LayoutClauses(Mended, children, n, n + 2, t.continueTo);
    var pass := EdgeIf(PassesOver(Built, children), n, n + 1, EdgeKind.Branch);
    var pass' := EdgeIf(PassesOver(Mended, children), n, n + 1, EdgeKind.Branch);
    MirrorsPass(children, n, n + 2, t.continueTo, inner'.facts, GapsClauses(children, n + 2));
    MirrorsInside(node, n, incoming, incoming', inner.facts.Plus(pass), inner'.facts.Plus(pass'),
        GapsClauses(children, n + 2));
    PlusGroups(Own(node, n, incoming), inner.facts, pass, NO_FACTS);
    PlusGroups(Own(node, n, incoming'), inner'.facts, pass', NO_FACTS);
  }

  ghost predicate AlikeClauses(built: Part, mended: Part, n: nat, size: nat, gaps: Edges) {
    built.next == mended.next == n + size && Mirrors(built.facts, mended.facts, gaps)
  }

  lemma SoundClauses(children: seq<Node>, continues: bool)
    requires children != [] && DirectSeq(children) && DirectChoice(children) && !TroubledClauses(children, continues)
    ensures var child := children[0];
      Direct(child) && if child.kind.Clause? then !Troubled(child, true, continues) else ClausesOf(child) == []
    ensures DirectSeq(children[1..]) && DirectChoice(children[1..]) && !TroubledClauses(children[1..], continues)
  {
    hide Direct, Troubled, ClausesOf;
    assert forall i :: 0 <= i < |children[1..]| ==> children[1..][i] == children[i + 1];
  }

  lemma {:induction false} AgreesClauses(children: seq<Node>, s: nat, n: nat, continueTo: Option<nat>)
    requires DirectSeq(children) && !TroubledClauses(children, continueTo.Some?)
    requires DirectChoice(children)
    ensures AlikeClauses(LayoutClauses(Built, children, s, n, continueTo),
      LayoutClauses(Mended, children, s, n, continueTo),
                         n, SizeClauses(children), GapsClauses(children, n))
    decreases children, 0
  {
    hide *;
    if children == [] {
      AgreesNoClauses(s, n, continueTo);
    } else {
      var first, first' := LayoutClause(Built, children[0], s, n, continueTo),
          LayoutClause(Mended, children[0], s, n, continueTo);
      SoundClauses(children, continueTo.Some?);
      AgreesClause(children[0], s, n, continueTo);
      AlikeClausesNext(first, first', n, SizeClause(children[0]), GapsClause(children[0], n));
      AgreesClauses(children[1..], s, first.next, continueTo);
      UnfoldClauses(Built, children, s, n, continueTo);
      UnfoldClauses(Mended, children, s, n, continueTo);
      AlikeClausesSeq(first, first', LayoutClauses(Built, children[1..], s, first.next, continueTo),
                      LayoutClauses(Mended, children[1..], s, first'.next, continueTo), n, SizeClause(children[0]),
                      SizeClauses(children[1..]), GapsClause(children[0], n), GapsClauses(children[1..], first.next));
    }
  }

  lemma AgreesNoClauses(s: nat, n: nat, continueTo: Option<nat>)
    ensures AlikeClauses(LayoutClauses(Built, [], s, n, continueTo), LayoutClauses(Mended, [], s, n, continueTo),
                         n, SizeClauses([]), GapsClauses([], n))
  {
    MirrorsSelf(NO_FACTS);
  }

  lemma AlikeClausesNext(built: Part, mended: Part, n: nat, size: nat, gaps: Edges)
    requires AlikeClauses(built, mended, n, size, gaps)
    ensures built.next == mended.next == n + size
  {
  }

  lemma AlikeClausesSeq(first: Part, first': Part, rest: Part, rest': Part, n: nat, size: nat, more: nat,
      gaps: Edges, others: Edges)
    requires AlikeClauses(first, first', n, size, gaps) && AlikeClauses(rest, rest', first.next, more, others)
    ensures AlikeClauses(Part(rest.next, {}, first.facts.Plus(rest.facts)),
      Part(rest'.next, {}, first'.facts.Plus(rest'.facts)),
                         n, size + more, gaps + others)
  {
    hide Mirrors, Facts.Plus;
    MirrorsPlus(first.facts, first'.facts, gaps, rest.facts, rest'.facts, others);
  }

  lemma UnfoldClauses(view: View, children: seq<Node>, s: nat, n: nat, continueTo: Option<nat>)
    requires children != []
    ensures var first := LayoutClause(view, children[0], s, n, continueTo);
      var rest := LayoutClauses(view, children[1..], s, first.next, continueTo);
      LayoutClauses(view, children, s, n, continueTo) == Part(rest.next, {}, first.facts.Plus(rest.facts))
    ensures SizeClauses(children) == SizeClause(children[0]) + SizeClauses(children[1..])
    ensures GapsClauses(children, n) == GapsClause(children[0], n) + GapsClauses(children[1..],
      n + SizeClause(children[0]))
  {
  }

  lemma {:induction false} AgreesClause(child: Node, s: nat, n: nat, continueTo: Option<nat>)
    requires Direct(child)
    requires if child.kind.Clause? then !Troubled(child, true, continueTo.Some?) else ClausesOf(child) == []
    ensures AlikeClauses(LayoutClause(Built, child, s, n, continueTo), LayoutClause(Mended, child, s, n, continueTo),
                         n, SizeClause(child), GapsClause(child, n))
    decreases child, 3
  {
    if child.kind.Clause? {
      hide Mirrors;
      var inside := Targets(Some(s + 1), continueTo);
      Agrees(child, n, {s}, {s}, inside);
      var part, part' := Layout(Built, child, n, {s}, inside), Layout(Mended, child, n, {s}, inside);
      AlikeInside(part, part', n, Size(child), {s}, Gaps(child, n));
      MirrorsPlusSame(part.facts, part'.facts, Gaps(child, n), OnlyEdges(EdgesTo(part.exits, s + 1, EdgeKind.Branch)));
    } else {
      NoClause(child, s, n, continueTo);
      MirrorsSelf(NO_FACTS);
    }
  }

  lemma {:induction false} NoClauses(children: seq<Node>, s: nat, n: nat, continueTo: Option<nat>)
    requires Clauses(children) == []
    ensures LayoutClauses(Mended, children, s, n, continueTo) == Part(n, {}, NO_FACTS) && SizeClauses(children) == 0
    decreases children, 0
  {
    if children != [] {
      NoClause(children[0], s, n, continueTo);
      NoClauses(children[1..], s, n, continueTo);
    }
  }

  lemma {:induction false} NoClause(child: Node, s: nat, n: nat, continueTo: Option<nat>)
    requires ClausesOf(child) == []
    ensures LayoutClause(Mended, child, s, n, continueTo) == Part(n, {}, NO_FACTS) && SizeClause(child) == 0
    decreases child, 1
  {
    if child.kind.Region? && !child.inactive {
      NoClauses(child.kind.children, s, n, continueTo);
    }
  }

  // ----- Gaps are edges of the mended graph -----

  /** The first block of a tree is that of a statement, and everything that leads into the tree leads there. */
  ghost predicate StartsAt(facts: Facts, incoming: set<nat>, n: nat) {
    (exists id :: (id, n) in facts.blocks) && forall b :: b in incoming ==> Leads(facts, b, n)
  }

  lemma {:induction false} FirstBlock(node: Node, n: nat, incoming: set<nat>, t: Targets)
    requires Size(node) > 0 && !Troubled(node, t.breakTo.Some?, t.continueTo.Some?)
    ensures StartsAt(Layout(Mended, node, n, incoming, t).facts, incoming, n)
    decreases node, 1
  {
    var facts := Layout(Mended, node, n, incoming, t).facts;
    if node.kind.Region? {
      FirstBlockSeq(node.kind.children, n, incoming, t);
    } else {
      assert (node.id, n) in facts.blocks;
      forall b | b in incoming ensures Leads(facts, b, n) {
        assert Edge(b, n, Normal) in EdgesTo(incoming, n, Normal);
      }
    }
  }

  lemma {:induction false} FirstBlockSeq(nodes: seq<Node>, n: nat, incoming: set<nat>, t: Targets)
    requires SizeSeq(nodes) > 0 && !TroubledSeq(nodes, t.breakTo.Some?, t.continueTo.Some?)
    ensures StartsAt(LayoutSeq(Mended, nodes, n, incoming, t).facts, incoming, n)
    decreases nodes, 0
  {
    UntroubledSeq(nodes, t.breakTo.Some?, t.continueTo.Some?);
    UnfoldSeq(Mended, nodes, n, incoming, t);
    hide Layout, LayoutSeq, Troubled, TroubledSeq, StartsAt, Facts.Plus;
    var first := Layout(Mended, nodes[0], n, incoming, t);
    var rest := LayoutSeq(Mended, nodes[1..], first.next, first.exits, t);
    if Size(nodes[0]) > 0 {
      FirstBlock(nodes[0], n, incoming, t);
      StartsPlus(first.facts, rest.facts, incoming, n);
    } else {
      PassesThrough(nodes[0], n, incoming, t);
      FirstBlockSeq(nodes[1..], n, incoming, t);
      PlusNothingFirst(rest.facts);
    }
  }

  lemma PlusNothingFirst(a: Facts)
    ensures NO_FACTS.Plus(a) == a
  {
  }

  lemma UntroubledSeq(nodes: seq<Node>, breaks: bool, continues: bool)
    requires nodes != [] && !TroubledSeq(nodes, breaks, continues)
    ensures !Troubled(nodes[0], breaks, continues) && !TroubledSeq(nodes[1..], breaks, continues)
  {
    hide Troubled;
    assert forall i :: 0 <= i < |nodes[1..]| ==> nodes[1..][i] == nodes[i + 1];
  }

  lemma {:induction false} PassesThrough(node: Node, n: nat, incoming: set<nat>, t: Targets)
    requires Size(node) == 0 && !Troubled(node, t.breakTo.Some?, t.continueTo.Some?)
    ensures Layout(Mended, node, n, incoming, t) == Part(n, incoming, NO_FACTS)
    decreases node, 1
  {
    if node.kind.Region? && !node.inactive {
      PassesThroughSeq(node.kind.children, n, incoming, t);
    }
  }

  lemma {:induction false} PassesThroughSeq(nodes: seq<Node>, n: nat, incoming: set<nat>, t: Targets)
    requires SizeSeq(nodes) == 0 && !TroubledSeq(nodes, t.breakTo.Some?, t.continueTo.Some?)
    ensures LayoutSeq(Mended, nodes, n, incoming, t) == Part(n, incoming, NO_FACTS)
    decreases nodes, 0
  {
    if nodes != [] {
      UntroubledSeq(nodes, t.breakTo.Some?, t.continueTo.Some?);
      PassesThrough(nodes[0], n, incoming, t);
      PassesThroughSeq(nodes[1..], n, incoming, t);
    }
  }

  lemma StartsPlus(a: Facts, b: Facts, incoming: set<nat>, n: nat)
    requires StartsAt(a, incoming, n)
    ensures StartsAt(a.Plus(b), incoming, n)
  {
    var id :| (id, n) in a.blocks;
    assert (id, n) in a.Plus(b).blocks;
    forall x | x in incoming ensures Leads(a.Plus(b), x, n) {
      var e :| e in a.edges && e.from == x && e.to == n;
      assert e in a.Plus(b).edges;
    }
  }

  ghost predicate HasBlock(facts: Facts, b: nat) {
    exists id :: (id, b) in facts.blocks
  }

  /** All these gaps are edges to the block of a statement. */
  ghost predicate GapsWithin(gaps: Edges, whole: Facts) {
    forall x, y {:trigger (x, y) in gaps} :: (x, y) in gaps ==> Leads(whole, x, y) && HasBlock(whole, y)
  }

  lemma {:induction false} GapsDrawnOpt(whole: Facts, tree: Option<Node>, n: nat, incoming: set<nat>, t: Targets)
    requires LayoutOpt(Mended, tree, n, incoming, t).facts.Within(whole)
    requires !TroubledOpt(tree, t.breakTo.Some?, t.continueTo.Some?)
    ensures GapsWithin(GapsOpt(tree, n), whole)
    decreases tree, 2
  {
    if tree.Some? {
      hide GapsWithin;
      GapsDrawn(whole, tree.value, n, incoming, t);
    }
  }

  lemma {:induction false} GapsDrawn(whole: Facts, node: Node, n: nat, incoming: set<nat>, t: Targets)
    requires Layout(Mended, node, n, incoming, t).facts.Within(whole)
    requires !Troubled(node, t.breakTo.Some?, t.continueTo.Some?)
    ensures GapsWithin(Gaps(node, n), whole)
    decreases node, 1
  {
    if !node.inactive {
      match node.kind
      case Region(children) => GapsDrawnSeq(whole, children, n, incoming, t);
      case Block(children) => GapsDrawnSeq(whole, children, n + 1, {n}, t);
      case If(_, _) => GapsDrawnIf(whole, node, n, incoming, t);
      case While(_, _) => GapsDrawnWhile(whole, node, n, incoming, t);
      case DoWhile(_, _) => GapsDrawnDo(whole, node, n, incoming, t);
      case Switch(children) => GapsDrawnClauses(whole, children, n, n + 2, t.continueTo);
      case Clause(_, body) => GapsDrawnOpt(whole, body, n + 1, {n}, t);
      case _ =>
    }
  }

  lemma {:induction false} GapsDrawnIf(whole: Facts, node: Node, n: nat, incoming: set<nat>, t: Targets)
    requires OwnsBlock(node) && node.kind.If? && Layout(Mended, node, n, incoming, t).facts.Within(whole)
    requires !Troubled(node, t.breakTo.Some?, t.continueTo.Some?)
    ensures GapsWithin(Gaps(node, n), whole)
    decreases node, 0
  {
    var consequence, alternative := node.kind.consequence, node.kind.alternative;
    LabelsLieOpt(consequence, Stop, "", n + 1, {n}, t);
    GapsDrawnOpt(whole, consequence, n + 1, {n}, t);
    GapsDrawnOpt(whole, alternative, n + 1 + SizeOpt(consequence), {n}, t);
  }

  lemma {:induction false} GapsDrawnWhile(whole: Facts, node: Node, n: nat, incoming: set<nat>, t: Targets)
    requires OwnsBlock(node) && node.kind.While? && Layout(Mended, node, n, incoming, t).facts.Within(whole)
    requires !Troubled(node, t.breakTo.Some?, t.continueTo.Some?)
    ensures GapsWithin(Gaps(node, n), whole)
    decreases node, 0
  {
    var into := if node.kind.known == Some(false) then {} else {n};
    GapsDrawnOpt(whole, node.kind.body, n + 2, into, Targets(Some(n + 1), Some(n)));
  }

  lemma {:induction false} GapsDrawnDo(whole: Facts, node: Node, n: nat, incoming: set<nat>, t: Targets)
    requires OwnsBlock(node) && node.kind.DoWhile? && Layout(Mended, node, n, incoming, t).facts.Within(whole)
    requires !Troubled(node, t.breakTo.Some?, t.continueTo.Some?)
    ensures GapsWithin(Gaps(node, n), whole)
    decreases node, 0
  {
    var known, body := node.kind.known, node.kind.body;
    var into, inside := DoEntries(Mended, known, n), Targets(Some(n + 1), Some(n + 2));
    GapsDrawnOpt(whole, body, n + 3, into, inside);
    if Skips(known, body) {
      var facts := Layout(Mended, body.value, n + 3, into, inside).facts;
      FirstBlock(body.value, n + 3, into, inside);
      assert LayoutOpt(Mended, body, n + 3, into, inside).facts == facts;
      DrawnIn(facts, whole, into, n + 2, n + 3);
    }
  }

  lemma DrawnIn(facts: Facts, whole: Facts, incoming: set<nat>, x: nat, y: nat)
    requires facts.Within(whole) && StartsAt(facts, incoming, y) && x in incoming
    ensures Leads(whole, x, y) && HasBlock(whole, y)
  {
    var id :| (id, y) in facts.blocks;
    assert (id, y) in whole.blocks;
  }

  lemma {:induction false} GapsDrawnSeq(whole: Facts, nodes: seq<Node>, n: nat, incoming: set<nat>, t: Targets)
    requires LayoutSeq(Mended, nodes, n, incoming, t).facts.Within(whole)
    requires !TroubledSeq(nodes, t.breakTo.Some?, t.continueTo.Some?)
    ensures GapsWithin(GapsSeq(nodes, n), whole)
    decreases nodes, 0
  {
    hide *;
    if nodes == [] {
      NoGaps(whole, n);
    } else {
      var first := Layout(Mended, nodes[0], n, incoming, t);
      var rest := LayoutSeq(Mended, nodes[1..], first.next, first.exits, t);
      UntroubledSeq(nodes, t.breakTo.Some?, t.continueTo.Some?);
      UnfoldSeq(Mended, nodes, n, incoming, t);
      BothWithin(first.facts, rest.facts, whole);
      NextOf(nodes[0], n, incoming, t);
      GapsDrawn(whole, nodes[0], n, incoming, t);
      GapsDrawnSeq(whole, nodes[1..], first.next, first.exits, t);
      GapsOfBoth(Gaps(nodes[0], n), GapsSeq(nodes[1..], first.next), whole);
    }
  }

  lemma NoGaps(whole: Facts, n: nat)
    ensures GapsWithin(GapsSeq([], n), whole)
  {
  }

  lemma BothWithin(a: Facts, b: Facts, whole: Facts)
    requires a.Plus(b).Within(whole)
    ensures a.Within(whole) && b.Within(whole)
  {
  }

  lemma NextOf(node: Node, n: nat, incoming: set<nat>, t: Targets)
    ensures Layout(Mended, node, n, incoming, t).next == n + Size(node)
  {
    LabelsLie(node, Stop, "", n, incoming, t);
  }

  lemma GapsOfBoth(a: Edges, b: Edges, whole: Facts)
    requires GapsWithin(a, whole) && GapsWithin(b, whole)
    ensures GapsWithin(a + b, whole)
  {
    hide Leads, HasBlock;
  }

  lemma {:induction false} GapsDrawnClauses(whole: Facts, children: seq<Node>, s: nat, n: nat, continueTo: Option<nat>)
    requires LayoutClauses(Mended, children, s, n, continueTo).facts.Within(whole)
    requires !TroubledClauses(children, continueTo.Some?)
    ensures GapsWithin(GapsClauses(children, n), whole)
    decreases children, 0
  {
    if children != [] {
      var first := LayoutClause(Mended, children[0], s, n, continueTo);
      assert !TroubledClauses(children[1..], continueTo.Some?) by {
        assert forall i :: 0 <= i < |children[1..]| ==> children[1..][i] == children[i + 1];
      }
      LabelsLieClause(children[0], Stop, "", s, n, continueTo);
      if children[0].kind.Clause? {
        GapsDrawn(whole, children[0], n, {s}, Targets(Some(s + 1), continueTo));
      }
      GapsDrawnClauses(whole, children[1..], s, first.next, continueTo);
    }
  }

  // ----- Whole functions -----

  /** The builder does not call the body uncertain for what is in it; jumps without a label aside. */
  ghost predicate Certain(body: Node) {
    !Troubled(body, false, false) && Unique(Body(Built, body).facts.labels)
  }

  ghost predicate BuiltReaches(body: Node, b: nat) {
    Reaches(EdgePairs(Whole(Built, body).edges), 0, b)
  }

  /** The statement has a block, and none that the built graph reaches. */
  ghost predicate BuiltMisses(body: Node, id: nat) {
    exists b {:trigger (id, b) in Whole(Built, body).blocks} ::
      (id, b) in Whole(Built, body).blocks && !BuiltReaches(body, b)
  }

  ghost predicate BuiltExits(body: Node) {
    exists b :: b in Body(Built, body).exits && BuiltReaches(body, b)
  }

  ghost predicate MendedExits(body: Node) {
    exists b :: b in Body(Mended, body).exits && MendedReaches(body, b)
  }

  /** Whenever the condition of a do loop is reached, so is the first block of the body it repeats. */
  ghost predicate GapsBridged(body: Node) {
    forall x, y {:trigger (x, y) in Gaps(body, 2)} :: (x, y) in Gaps(body, 2) && BuiltReaches(body, x) ==>
        BuiltReaches(body, y)
  }

  lemma WholeMirrors(body: Node)
    requires Direct(body) && Certain(body)
    ensures Mirrors(Whole(Built, body), Whole(Mended, body), Gaps(body, 2))
    ensures Body(Built, body).exits == Body(Mended, body).exits
  {
    Agrees(body, 2, {0}, {0}, Targets(None, None));
    hide Layout, Direct, Troubled, Mirrors, Size, Gaps, Facts.Plus;
    var part, part' := Body(Built, body), Body(Mended, body);
    AlikeInside(part, part', 2, Size(body), {0}, Gaps(body, 2));
    SameJumps(part.facts, part'.facts, Gaps(body, 2));
    MirrorsPlusSame(part.facts, part'.facts, Gaps(body, 2),
                    OnlyEdges(EdgesTo(part.exits, 1, Fallthrough) + JumpEdges(Built, part.facts.gotos,
                        part.facts.labels)));
  }

  lemma SameJumps(built: Facts, mended: Facts, gaps: Edges)
    requires Mirrors(built, mended, gaps) && Unique(built.labels)
    ensures JumpEdges(Built, built.gotos, built.labels) == JumpEdges(Mended, mended.gotos, mended.labels)
  {
    forall l | l in built.labels ensures IsFirst(built.labels, l.0, l.1) {
    }
  }

  lemma {:induction false} FollowBuilt(body: Node, path: seq<nat>)
    requires Mirrors(Whole(Built, body), Whole(Mended, body), Gaps(body, 2))
    requires IsPath(EdgePairs(Whole(Built, body).edges), path)
    ensures IsPath(EdgePairs(Whole(Mended, body).edges), path)
    decreases |path|
  {
    hide Whole, Gaps;
    if |path| > 1 {
      FollowBuilt(body, path[..|path| - 1]);
    }
  }

  lemma {:induction false} FollowMended(body: Node, path: seq<nat>)
    requires Mirrors(Whole(Built, body), Whole(Mended, body), Gaps(body, 2)) && GapsBridged(body)
    requires IsPath(EdgePairs(Whole(Mended, body).edges), path) && path[0] == 0
    ensures BuiltReaches(body, path[|path| - 1])
    decreases |path|
  {
    hide Whole, Gaps;
    var built := EdgePairs(Whole(Built, body).edges);
    if |path| == 1 {
      ReachesSelf(built, 0);
    } else {
      FollowMended(body, path[..|path| - 1]);
      var e :| e in Whole(Mended, body).edges && e.from == path[|path| - 2] && e.to == path[|path| - 1];
      if Leads(Whole(Built, body), e.from, e.to) {
        assert (e.from, e.to) in built;
        ReachesSnoc(built, 0, e.from, e.to);
      }
    }
  }

  lemma GapsAreMended(body: Node)
    requires !Troubled(body, false, false)
    ensures GapsWithin(Gaps(body, 2), Whole(Mended, body))
  {
    hide Layout, Troubled, Gaps, GapsWithin;
    GapsDrawn(Whole(Mended, body), body, 2, {0}, Targets(None, None));
  }

  /** What the built graph reaches the mended one reaches too, and the converse is decided by the gaps. */
  lemma GapsDecide(body: Node)
    requires Direct(body) && Certain(body)
    ensures forall b: nat :: BuiltReaches(body, b) ==> MendedReaches(body, b)
    ensures (forall b: nat :: MendedReaches(body, b) ==> BuiltReaches(body, b)) <==> GapsBridged(body)
  {
    WholeMirrors(body);
    GapsAreMended(body);
    hide Direct, Certain, Whole, Gaps, Mirrors;
    var built, mended := EdgePairs(Whole(Built, body).edges), EdgePairs(Whole(Mended, body).edges);
    forall b: nat | BuiltReaches(body, b) ensures MendedReaches(body, b) {
      var path :| PathFromTo(built, path, 0, b);
      FollowBuilt(body, path);
      assert PathFromTo(mended, path, 0, b);
    }
    forall x, y | (x, y) in Gaps(body, 2) && MendedReaches(body, x) ensures MendedReaches(body, y) {
      assert Leads(Whole(Mended, body), x, y);
      assert (x, y) in mended;
      ReachesSnoc(mended, 0, x, y);
    }
    if GapsBridged(body) {
      forall b: nat | MendedReaches(body, b) ensures BuiltReaches(body, b) {
        var path :| PathFromTo(mended, path, 0, b);
        FollowMended(body, path);
      }
    }
  }

  /** The built graph with the edges it misses. */
  ghost function Repaired(body: Node): Edges {
    EdgePairs(Whole(Built, body).edges) + Gaps(body, 2)
  }

  lemma {:induction false} FollowRepaired(body: Node, path: seq<nat>)
    requires Mirrors(Whole(Built, body), Whole(Mended, body), Gaps(body, 2))
    requires GapsWithin(Gaps(body, 2), Whole(Mended, body))
    requires IsPath(Repaired(body), path)
    ensures IsPath(EdgePairs(Whole(Mended, body).edges), path)
    decreases |path|
  {
    hide Whole, Gaps, HasBlock;
    if |path| > 1 {
      FollowRepaired(body, path[..|path| - 1]);
      var x, y := path[|path| - 2], path[|path| - 1];
      assert (x, y) in EdgePairs(Whole(Built, body).edges) || Leads(Whole(Mended, body), x, y);
    }
  }

  lemma {:induction false} FollowInRepaired(body: Node, path: seq<nat>)
    requires Mirrors(Whole(Built, body), Whole(Mended, body), Gaps(body, 2))
    requires IsPath(EdgePairs(Whole(Mended, body).edges), path) && path[0] == 0
    ensures Reaches(Repaired(body), 0, path[|path| - 1])
    decreases |path|
  {
    hide Whole, Gaps;
    if |path| == 1 {
      ReachesSelf(Repaired(body), 0);
    } else {
      FollowInRepaired(body, path[..|path| - 1]);
      var e :| e in Whole(Mended, body).edges && e.from == path[|path| - 2] && e.to == path[|path| - 1];
      if e.from != e.to {
        assert (e.from, e.to) in Repaired(body);
        ReachesSnoc(Repaired(body), 0, e.from, e.to);
      }
    }
  }

  /** What the mended graph reaches is what the built one reaches once its gaps are filled. */
  lemma RepairedIsMended(body: Node, b: nat)
    requires Direct(body) && Certain(body)
    ensures MendedReaches(body, b) <==> Reaches(Repaired(body), 0, b)
  {
    WholeMirrors(body);
    GapsAreMended(body);
    hide Direct, Certain, Whole, Gaps, Mirrors, GapsWithin, Repaired;
    if MendedReaches(body, b) {
      var path :| PathFromTo(EdgePairs(Whole(Mended, body).edges), path, 0, b);
      FollowInRepaired(body, path);
    }
    if path :| PathFromTo(Repaired(body), path, 0, b) {
      FollowRepaired(body, path);
      assert PathFromTo(EdgePairs(Whole(Mended, body).edges), path, 0, b);
    }
  }
}
