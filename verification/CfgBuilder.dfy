/** Building the block graph of a function body, as internal/controlflow does it. */
module CfgBuilder {
  import opened Wrappers
  import opened Graphs
  import opened FlowGraphs
  import opened Cfg
  import opened CfgRuns
  import opened CfgCoverage
  import opened CfgAgreement
  import opened CfgVisits

  // ----- Node identity -----

  ghost function IdsOpt(tree: Option<Node>): set<nat>
    decreases tree, 1
  {
    if tree == None then {} else Ids(tree.value)
  }

  ghost function Ids(node: Node): set<nat>
    decreases node, 0
  {
    {node.id} + match node.kind
      case Region(children) => IdsSeq(children)
      case Block(children) => IdsSeq(children)
      case If(consequence, alternative) => IdsOpt(consequence) + IdsOpt(alternative)
      case While(_, body) => IdsOpt(body)
      case DoWhile(_, body) => IdsOpt(body)
      case Switch(children) => IdsSeq(children)
      case Clause(_, body) => IdsOpt(body)
      case _ => {}
  }

  ghost function IdsSeq(nodes: seq<Node>): set<nat>
    decreases nodes, 0
  {
    if nodes == [] then {} else Ids(nodes[0]) + IdsSeq(nodes[1..])
  }

  ghost predicate DistinctIdsOpt(tree: Option<Node>)
    decreases tree, 1
  {
    tree.Some? ==> DistinctIds(tree.value)
  }

  /** Every node of the tree is a different object. */
  ghost predicate DistinctIds(node: Node)
    decreases node, 0
  {
    match node.kind
    case Region(children) => DistinctIdsSeq(children) && node.id !in IdsSeq(children)
    case Block(children) => DistinctIdsSeq(children) && node.id !in IdsSeq(children)
    case If(consequence, alternative) =>
      && DistinctIdsOpt(consequence) && DistinctIdsOpt(alternative) && IdsOpt(consequence) !! IdsOpt(alternative)
      && node.id !in IdsOpt(consequence) + IdsOpt(alternative)
    case While(_, body) => DistinctIdsOpt(body) && node.id !in IdsOpt(body)
    case DoWhile(_, body) => DistinctIdsOpt(body) && node.id !in IdsOpt(body)
    case Switch(children) => DistinctIdsSeq(children) && node.id !in IdsSeq(children)
    case Clause(_, body) => DistinctIdsOpt(body) && node.id !in IdsOpt(body)
    case _ => true
  }

  ghost predicate DistinctIdsSeq(nodes: seq<Node>)
    decreases nodes, 0
  {
    nodes != [] ==> DistinctIds(nodes[0]) && DistinctIdsSeq(nodes[1..]) && Ids(nodes[0]) !! IdsSeq(nodes[1..])
  }

  // ----- Facts as an algebra -----

  lemma PlusAssociates(a: Facts, b: Facts, c: Facts)
    ensures a.Plus(b).Plus(c) == a.Plus(b.Plus(c))
  {
  }

  lemma PlusAssociatesFour(a: Facts, b: Facts, c: Facts, d: Facts)
    ensures a.Plus(b).Plus(c).Plus(d) == a.Plus(b.Plus(c).Plus(d))
  {
    hide Facts.Plus;
    PlusAssociates(a, b, c);
    PlusAssociates(a, b.Plus(c), d);
  }

  lemma PlusAssociatesFive(a: Facts, b: Facts, c: Facts, d: Facts, e: Facts)
    ensures a.Plus(b).Plus(c).Plus(d).Plus(e) == a.Plus(b.Plus(c).Plus(d).Plus(e))
  {
    hide Facts.Plus;
    PlusAssociatesFour(a, b, c, d);
    PlusAssociates(a, b.Plus(c).Plus(d), e);
  }

  lemma PlusNothing(a: Facts)
    ensures a.Plus(NO_FACTS) == a
  {
  }

  ghost function SetOf(s: seq<nat>): set<nat> {
    set x | x in s
  }

  lemma SetOfOne(b: nat)
    ensures SetOf([b]) == {b}
  {
  }

  lemma SetOfBoth(a: seq<nat>, b: seq<nat>)
    ensures SetOf(a + b) == SetOf(a) + SetOf(b)
  {
  }

  lemma NoEdgesYet(before: Facts, to: nat, kind: EdgeKind)
    ensures before == before.Plus(OnlyEdges(EdgesTo(SetOf([]), to, kind)))
  {
  }

  lemma OneMoreEdge(before: Facts, from: seq<nat>, i: nat, to: nat, kind: EdgeKind)
    requires i < |from|
    ensures before.Plus(OnlyEdges(EdgesTo(SetOf(from[..i]), to, kind))).Plus(OnlyEdges({Edge(from[i], to, kind)}))
      == before.Plus(OnlyEdges(EdgesTo(SetOf(from[..i + 1]), to, kind)))
  {
    assert SetOf(from[..i + 1]) == SetOf(from[..i]) + {from[i]} by { assert from[..i + 1] == from[..i] + [from[i]]; }
  }

  lemma OwnInTwo(before: Facts, node: Node, n: nat, incoming: set<nat>)
    ensures before.Plus(Facts({}, {(node.id, n)}, {}, {})).Plus(OnlyEdges(EdgesTo(incoming, n, Normal)))
      == before.Plus(Own(node, n, incoming))
  {
  }

  lemma BlockPlus(before: Facts, node: Node, n: nat, incoming: set<nat>, t: Targets)
    requires node.kind.Block? && OwnsBlock(node)
    ensures var inner, part := LayoutSeq(Built, node.kind.children, n + 1, {n}, t), Layout(Built, node, n, incoming, t);
      inner.next == part.next && inner.exits == part.exits
      && before.Plus(Own(node, n, incoming)).Plus(inner.facts) == before.Plus(part.facts)
  {
    hide Facts.Plus;
    PlusAssociates(before, Own(node, n, incoming), LayoutSeq(Built, node.kind.children, n + 1, {n}, t).facts);
  }

  lemma ClausePlus(before: Facts, node: Node, n: nat, incoming: set<nat>, t: Targets)
    requires node.kind.Clause? && OwnsBlock(node)
    ensures var inner, part := LayoutOpt(Built, node.kind.body, n + 1, {n}, t), Layout(Built, node, n, incoming, t);
      inner.next == part.next && inner.exits == part.exits
      && before.Plus(Own(node, n, incoming)).Plus(inner.facts) == before.Plus(part.facts)
  {
    hide Facts.Plus;
    PlusAssociates(before, Own(node, n, incoming), LayoutOpt(Built, node.kind.body, n + 1, {n}, t).facts);
  }

  lemma IfPlus(before: Facts, node: Node, n: nat, incoming: set<nat>, t: Targets)
    requires node.kind.If? && OwnsBlock(node)
    ensures var yes := LayoutOpt(Built, node.kind.consequence, n + 1, {n}, t);
      var no, part := LayoutOpt(Built, node.kind.alternative, yes.next, {n}, t), Layout(Built, node, n, incoming, t);
      no.next == part.next && yes.exits + no.exits == part.exits
      && before.Plus(Own(node, n, incoming)).Plus(yes.facts).Plus(no.facts) == before.Plus(part.facts)
  {
    hide Facts.Plus;
    var yes := LayoutOpt(Built, node.kind.consequence, n + 1, {n}, t);
    PlusAssociatesFour(before, Own(node, n, incoming), yes.facts,
        LayoutOpt(Built, node.kind.alternative, yes.next, {n}, t).facts);
  }

  lemma WhilePlus(before: Facts, node: Node, n: nat, incoming: set<nat>, t: Targets)
    requires node.kind.While? && OwnsBlock(node)
    ensures var known, part := node.kind.known, Layout(Built, node, n, incoming, t);
      var into := if known == Some(false) then {} else {n};
      var inner := LayoutOpt(Built, node.kind.body, n + 2, into, Targets(Some(n + 1), Some(n)));
      inner.next == part.next && part.exits == {n + 1}
      && before.Plus(Own(node, n, incoming)).Plus(inner.facts).Plus(OnlyEdges(EdgesTo(inner.exits, n, Jump)))
               .Plus(EdgeIf(known != Some(true), n, n + 1, EdgeKind.Branch)) == before.Plus(part.facts)
  {
    hide Facts.Plus;
    var into := if node.kind.known == Some(false) then {} else {n};
    var inner := LayoutOpt(Built, node.kind.body, n + 2, into, Targets(Some(n + 1), Some(n)));
    PlusAssociatesFive(before, Own(node, n, incoming), inner.facts, OnlyEdges(EdgesTo(inner.exits, n, Jump)),
                       EdgeIf(node.kind.known != Some(true), n, n + 1, EdgeKind.Branch));
  }

  lemma SwitchPlus(before: Facts, node: Node, n: nat, incoming: set<nat>, t: Targets)
    requires node.kind.Switch? && OwnsBlock(node)
    ensures var children, part := node.kind.children, Layout(Built, node, n, incoming, t);
      var inner := LayoutClauses(Built, children, n, n + 2, t.continueTo);
      inner.next == part.next && part.exits == {n + 1}
      && before.Plus(Own(node, n, incoming)).Plus(inner.facts)
               .Plus(EdgeIf(PassesOver(Built, children), n, n + 1, EdgeKind.Branch)) == before.Plus(part.facts)
  {
    hide Facts.Plus;
    PlusAssociatesFour(before, Own(node, n, incoming),
        LayoutClauses(Built, node.kind.children, n, n + 2, t.continueTo).facts,
                       EdgeIf(PassesOver(Built, node.kind.children), n, n + 1, EdgeKind.Branch));
  }

  lemma DoWhilePlus(before: Facts, node: Node, n: nat, incoming: set<nat>, t: Targets)
    requires node.kind.DoWhile? && OwnsBlock(node)
    ensures var known, body := node.kind.known, node.kind.body;
      var inner := LayoutOpt(Built, body, n + 3, {n}, Targets(Some(n + 1), Some(n + 2)));
      before.Plus(Own(node, n, incoming)).Plus(inner.facts).Plus(OnlyEdges(EdgesTo(inner.exits, n + 2, Jump)))
            .Plus(EdgeIf(known != Some(false) && body.Some? && OwnsBlock(body.value), n + 2, n + 3, EdgeKind.Branch))
            .Plus(EdgeIf(known != Some(true), n + 2, n + 1, EdgeKind.Branch))
      == before.Plus(Layout(Built, node, n, incoming, t).facts)
      && inner.next == Layout(Built, node, n, incoming, t).next && Layout(Built, node, n, incoming, t).exits == {n + 1}
  {
    hide Facts.Plus;
    var known, body, own := node.kind.known, node.kind.body, Own(node, n, incoming);
    var inner := LayoutOpt(Built, body, n + 3, {n}, Targets(Some(n + 1), Some(n + 2)));
    var again := EdgeIf(known != Some(false) && body.Some? && OwnsBlock(body.value), n + 2, n + 3, EdgeKind.Branch);
    var back := OnlyEdges(EdgesTo(inner.exits, n + 2, Jump));
    PlusAssociatesFive(before, own, inner.facts, back, again);
    PlusAssociates(before, own.Plus(inner.facts).Plus(back).Plus(again),
                   EdgeIf(known != Some(true), n + 2, n + 1, EdgeKind.Branch));
  }

  predicate IsLeaf(kind: Kind) {
    kind.Return? || kind.Goto? || kind.Label? || kind.Break? || kind.Continue? || kind.Simple?
  }

  /** What a statement without parts adds to its own block. */
  ghost function LeafFacts(kind: Kind, n: nat, t: Targets): Facts {
    match kind
    case Return => OnlyEdges({Edge(n, 1, ReturnEdge)})
    case Goto(target) => if target == None then NO_FACTS else Facts({}, {}, {(n, target.value)}, {})
    case Label(name) => Facts({}, {}, {}, if name == "" then {} else {(name, n)})
    case Break => if t.breakTo == None then NO_FACTS else OnlyEdges({Edge(n, t.breakTo.value, Jump)})
    case Continue => if t.continueTo == None then NO_FACTS else OnlyEdges({Edge(n, t.continueTo.value, Jump)})
    case _ => NO_FACTS
  }

  ghost function LeafExits(kind: Kind, n: nat, t: Targets): set<nat> {
    match kind
    case Return => {}
    case Goto(target) => if target == None then {n} else {}
    case Break => if t.breakTo == None then {n} else {}
    case Continue => if t.continueTo == None then {n} else {}
    case _ => {n}
  }

  lemma LeafPlus(before: Facts, node: Node, n: nat, incoming: set<nat>, t: Targets)
    requires OwnsBlock(node) && IsLeaf(node.kind)
    ensures before.Plus(Own(node, n, incoming)).Plus(LeafFacts(node.kind, n, t))
      == before.Plus(Layout(Built, node, n, incoming, t).facts)
    ensures Layout(Built, node, n, incoming, t).exits == LeafExits(node.kind, n, t)
    ensures Layout(Built, node, n, incoming, t).next == n + 1
  {
    hide Facts.Plus;
    PlusNothing(Own(node, n, incoming));
    PlusAssociates(before, Own(node, n, incoming), LeafFacts(node.kind, n, t));
  }

  lemma FirstIsDistinct(nodes: seq<Node>, i: nat, keys: set<nat>)
    requires i < |nodes| && DistinctIdsSeq(nodes[i..]) && IdsSeq(nodes[i..]) !! keys
    ensures DistinctIds(nodes[i]) && Ids(nodes[i]) !! keys
  {
  }

  lemma RestIsDistinct(nodes: seq<Node>, i: nat, keys: set<nat>, grown: set<nat>)
    requires i < |nodes| && DistinctIdsSeq(nodes[i..]) && IdsSeq(nodes[i..]) !! keys && grown <= keys + Ids(nodes[i])
    ensures DistinctIdsSeq(nodes[i + 1..]) && IdsSeq(nodes[i + 1..]) !! grown
    ensures grown + IdsSeq(nodes[i + 1..]) <= keys + IdsSeq(nodes[i..])
  {
    assert nodes[i..][1..] == nodes[i + 1..];
  }

  lemma RestOfClauses(before: Facts, children: seq<Node>, i: nat, s: nat, n: nat, continueTo: Option<nat>)
    requires i < |children|
    ensures var rest := LayoutClauses(Built, children[i..], s, n, continueTo);
      if !children[i].kind.Clause? then rest == LayoutClauses(Built, children[i + 1..], s, n, continueTo)
      else
        var first := Layout(Built, children[i], n, {s}, Targets(Some(s + 1), continueTo));
        var others := LayoutClauses(Built, children[i + 1..], s, first.next, continueTo);
        rest.next == others.next
        && before.Plus(first.facts).Plus(OnlyEdges(EdgesTo(first.exits, s + 1, EdgeKind.Branch))).Plus(others.facts)
           == before.Plus(rest.facts)
  {
    hide Facts.Plus;
    assert children[i..][1..] == children[i + 1..];
    PlusFirst(LayoutClauses(Built, children[i + 1..], s, n, continueTo).facts);
    if children[i].kind.Clause? {
      var first := Layout(Built, children[i], n, {s}, Targets(Some(s + 1), continueTo));
      PlusAssociatesFour(before, first.facts, OnlyEdges(EdgesTo(first.exits, s + 1, EdgeKind.Branch)),
                         LayoutClauses(Built, children[i + 1..], s, first.next, continueTo).facts);
    }
  }

  lemma NoClausesBuilt(continues: bool)
    ensures !HasDefault([]) && !TroubledClauses([], continues)
  {
  }

  lemma NoClausesLeft(s: nat, n: nat, continueTo: Option<nat>)
    ensures LayoutClauses(Built, [], s, n, continueTo) == Part(n, {}, NO_FACTS)
  {
  }

  lemma DefaultSnoc(children: seq<Node>, i: nat)
    requires i < |children|
    ensures HasDefault(children[..i + 1])
      <==> HasDefault(children[..i]) || (children[i].kind.Clause? && children[i].kind.isDefault)
  {
    assert children[..i + 1] == children[..i] + [children[i]];
  }

  lemma TroubledSnoc(children: seq<Node>, i: nat, continues: bool)
    requires i < |children|
    ensures TroubledClauses(children[..i + 1], continues) <==>
      || TroubledClauses(children[..i], continues)
      || (children[i].kind.Clause? && Troubled(children[i], true, continues))
  {
    hide Troubled;
    assert forall j :: 0 <= j < i ==> children[..i + 1][j] == children[..i][j];
    assert children[..i + 1][i] == children[i];
    if j :| 0 <= j < i && children[..i][j].kind.Clause? && Troubled(children[..i][j], true, continues) {
      assert children[..i + 1][j].kind.Clause? && Troubled(children[..i + 1][j], true, continues);
    }
  }

  // ----- Blocks belong to the nodes of the tree -----

  ghost predicate BlocksOf(facts: Facts, ids: set<nat>) {
    forall id, b {:trigger (id, b) in facts.blocks} :: (id, b) in facts.blocks ==> id in ids
  }

  lemma {:induction false} BlocksInOpt(tree: Option<Node>, n: nat, incoming: set<nat>, t: Targets)
    ensures BlocksOf(LayoutOpt(Built, tree, n, incoming, t).facts, IdsOpt(tree))
    decreases tree, 1
  {
    if tree.Some? {
      BlocksIn(tree.value, n, incoming, t);
    }
  }

  lemma {:induction false} BlocksIn(node: Node, n: nat, incoming: set<nat>, t: Targets)
    ensures BlocksOf(Layout(Built, node, n, incoming, t).facts, Ids(node))
    decreases node, 0
  {
    if !node.inactive {
      match node.kind
      case Region(children) => BlocksInSeq(children, n, incoming, t);
      case Block(children) => BlocksInSeq(children, n + 1, {n}, t);
      case If(consequence, alternative) =>
        BlocksInOpt(consequence, n + 1, {n}, t);
        BlocksInOpt(alternative, LayoutOpt(Built, consequence, n + 1, {n}, t).next, {n}, t);
      case While(known, body) =>
        BlocksInOpt(body, n + 2, if known == Some(false) then {} else {n}, Targets(Some(n + 1), Some(n)));
      case DoWhile(_, body) => BlocksInOpt(body, n + 3, {n}, Targets(Some(n + 1), Some(n + 2)));
      case Switch(children) => BlocksInClauses(children, n, n + 2, t.continueTo);
      case Clause(_, body) => BlocksInOpt(body, n + 1, {n}, t);
      case _ =>
    }
  }

  lemma {:induction false} BlocksInSeq(nodes: seq<Node>, n: nat, incoming: set<nat>, t: Targets)
    ensures BlocksOf(LayoutSeq(Built, nodes, n, incoming, t).facts, IdsSeq(nodes))
    decreases nodes, 0
  {
    if nodes != [] {
      var first := Layout(Built, nodes[0], n, incoming, t);
      BlocksIn(nodes[0], n, incoming, t);
      BlocksInSeq(nodes[1..], first.next, first.exits, t);
    }
  }

  lemma {:induction false} BlocksInClauses(children: seq<Node>, s: nat, n: nat, continueTo: Option<nat>)
    ensures BlocksOf(LayoutClauses(Built, children, s, n, continueTo).facts, IdsSeq(children))
    decreases children, 0
  {
    if children != [] {
      if !children[0].kind.Clause? {
        BlocksInClauses(children[1..], s, n, continueTo);
      } else {
        var inside := Targets(Some(s + 1), continueTo);
        BlocksIn(children[0], n, {s}, inside);
        BlocksInClauses(children[1..], s, Layout(Built, children[0], n, {s}, inside).next, continueTo);
      }
    }
  }

  /** A node has at most one block: its own. */
  lemma OwnBlockOnly(node: Node, n: nat, incoming: set<nat>, t: Targets)
    requires DistinctIds(node)
    ensures forall b {:trigger (node.id, b) in Layout(Built, node, n, incoming, t).facts.blocks} ::
      (node.id, b) in Layout(Built, node, n, incoming, t).facts.blocks <==> OwnsBlock(node) && b == n
  {
    if !node.inactive {
      match node.kind
      case Region(children) => BlocksInSeq(children, n, incoming, t);
      case Block(children) => BlocksInSeq(children, n + 1, {n}, t);
      case If(consequence, alternative) =>
        BlocksInOpt(consequence, n + 1, {n}, t);
        BlocksInOpt(alternative, LayoutOpt(Built, consequence, n + 1, {n}, t).next, {n}, t);
      case While(known, body) =>
        BlocksInOpt(body, n + 2, if known == Some(false) then {} else {n}, Targets(Some(n + 1), Some(n)));
      case DoWhile(_, body) => BlocksInOpt(body, n + 3, {n}, Targets(Some(n + 1), Some(n + 2)));
      case Switch(children) => BlocksInClauses(children, n, n + 2, t.continueTo);
      case Clause(_, body) => BlocksInOpt(body, n + 1, {n}, t);
      case _ =>
    }
  }

  ghost function EdgesOf(succs: seq<seq<(nat, EdgeKind)>>): set<Edge> {
    set b, e | 0 <= b < |succs| && e in succs[b] :: Edge(b, e.0, e.1)
  }

  lemma EdgesOfGrown(succs: seq<seq<(nat, EdgeKind)>>)
    ensures EdgesOf(succs + [[]]) == EdgesOf(succs)
  {
    forall e ensures e in EdgesOf(succs + [[]]) <==> e in EdgesOf(succs) {
      if e in EdgesOf(succs) {
        assert (e.to, e.kind) in (succs + [[]])[e.from];
      }
    }
  }

  lemma EdgesOfAppended(succs: seq<seq<(nat, EdgeKind)>>, from: nat, e: (nat, EdgeKind))
    requires from < |succs|
    ensures EdgesOf(succs[from := succs[from] + [e]]) == EdgesOf(succs) + {Edge(from, e.0, e.1)}
  {
    var grown := succs[from := succs[from] + [e]];
    forall x ensures x in EdgesOf(grown) <==> x in EdgesOf(succs) || x == Edge(from, e.0, e.1) {
      if x in EdgesOf(succs) || x == Edge(from, e.0, e.1) {
        assert (x.to, x.kind) in grown[x.from];
      }
    }
  }

  /** Both directions name the same neighbours, every block exists, and nothing leads to the entry. */
  ghost predicate ListsAgree(succs: seq<seq<(nat, EdgeKind)>>, preds: seq<seq<nat>>) {
    && |succs| == |preds| >= 2 && preds[0] == []
    && (forall b, e {:trigger e in succs[b]} :: 0 <= b < |succs| && e in succs[b] ==>
      0 < e.0 < |succs| && b in preds[e.0])
    && (forall s, b {:trigger b in preds[s]} :: 0 <= s < |preds| && b in preds[s] ==>
          0 <= b < |succs| && exists kind :: (s, kind) in succs[b])
  }

  lemma ListsGrow(succs: seq<seq<(nat, EdgeKind)>>, preds: seq<seq<nat>>)
    requires ListsAgree(succs, preds)
    ensures ListsAgree(succs + [[]], preds + [[]])
  {
  }

  lemma ListsStillAgree(succs: seq<seq<(nat, EdgeKind)>>, preds: seq<seq<nat>>, from: nat, to: nat, kind: EdgeKind)
    requires ListsAgree(succs, preds) && from < |succs| && 0 < to < |succs|
    ensures ListsAgree(succs[from := succs[from] + [(to, kind)]], preds[to := preds[to] + [from]])
  {
    var succs', preds' := succs[from := succs[from] + [(to, kind)]], preds[to := preds[to] + [from]];
    forall s, b | 0 <= s < |preds'| && b in preds'[s]
      ensures 0 <= b < |succs'| && exists kind' :: (s, kind') in succs'[b]
    {
      if b in preds[s] {
        var kind' :| (s, kind') in succs[b];
        assert (s, kind') in succs'[b];
      } else {
        assert (to, kind) in succs'[from];
      }
    }
  }

  ghost function DrawnJumps(gotos: seq<(nat, string)>, labels: map<string, nat>): set<Edge> {
    set g | g in gotos && g.1 in labels :: Edge(g.0, labels[g.1], Jump)
  }

  ghost function DrawnJump(jump: (nat, string), labels: map<string, nat>): set<Edge> {
    if jump.1 in labels then {Edge(jump.0, labels[jump.1], Jump)} else {}
  }

  lemma NoJumpsDrawn(before: Facts, labels: map<string, nat>)
    ensures before == before.Plus(OnlyEdges(DrawnJumps([], labels)))
  {
  }

  lemma DrawnJumpsSnoc(before: Facts, gotos: seq<(nat, string)>, i: nat, labels: map<string, nat>)
    requires i < |gotos|
    ensures before.Plus(OnlyEdges(DrawnJumps(gotos[..i], labels))).Plus(OnlyEdges(DrawnJump(gotos[i], labels)))
      == before.Plus(OnlyEdges(DrawnJumps(gotos[..i + 1], labels)))
  {
    assert gotos[..i + 1] == gotos[..i] + [gotos[i]];
    assert DrawnJumps(gotos[..i + 1], labels) == DrawnJumps(gotos[..i], labels) + DrawnJump(gotos[i], labels);
  }

  /** With one block to a name, the jumps drawn are all that can be taken. */
  lemma DrawnAreJumps(gotos: seq<(nat, string)>, labels: map<string, nat>, pending: set<(nat, string)>,
      named: set<(string, nat)>)
    requires Unique(named) && forall g :: g in gotos <==> g in pending
    requires forall name :: name in labels ==> (name, labels[name]) in named
    requires forall l :: l in named ==> l.0 in labels
    ensures DrawnJumps(gotos, labels) == JumpEdges(Built, pending, named)
  {
    forall g, l | g in pending && l in named && g.1 == l.0 ensures Edge(g.0, l.1, Jump) in DrawnJumps(gotos, labels) {
      assert l == (g.1, labels[g.1]);
    }
  }

  lemma PlusFirst(a: Facts)
    ensures NO_FACTS.Plus(a) == a
  {
  }

  predicate IsBelow(b: nat, n: nat) {
    b < n
  }

  ghost function BlocksBelow(n: nat): set<nat> {
    set b: nat | b < n && IsBelow(b, n)
  }

  ghost function GraphOf(succs: seq<seq<(nat, EdgeKind)>>, preds: seq<seq<nat>>): FlowGraph {
    FlowGraph(seq(|succs|, b requires 0 <= b < |succs| => seq(|succs[b]|,
        i requires 0 <= i < |succs[b]| => succs[b][i].0)), preds)
  }

  lemma GraphFacts(succs: seq<seq<(nat, EdgeKind)>>, preds: seq<seq<nat>>)
    requires ListsAgree(succs, preds)
    ensures GraphOf(succs, preds).WellFormed() && GraphOf(succs, preds).EdgeSet() == EdgePairs(EdgesOf(succs))
  {
    var g := GraphOf(succs, preds);
    forall b, s | 0 <= b < |succs| && s in g.succs[b] ensures exists kind :: (s, kind) in succs[b] {
      var i :| 0 <= i < |g.succs[b]| && g.succs[b][i] == s;
      assert succs[b][i] in succs[b];
    }
    forall b, e {:trigger e in succs[b]} | 0 <= b < |succs| && e in succs[b] ensures e.0 in g.succs[b] {
      var i :| 0 <= i < |succs[b]| && succs[b][i] == e;
      assert g.succs[b][i] == e.0;
    }
    forall b, s ensures (b, s) in g.EdgeSet() <==> (b, s) in EdgePairs(EdgesOf(succs)) {
      if (b, s) in g.EdgeSet() {
        var kind :| (s, kind) in succs[b];
        assert Edge(b, s, kind) in EdgesOf(succs);
      }
    }
  }

  /** The builder of one function: its blocks, the statements they stand for and the jumps not yet drawn. */
  class Builder {
    var succs: seq<seq<(nat, EdgeKind)>>
    var preds: seq<seq<nat>>
    var nodes: map<nat, nat>
    var labels: map<string, nat>
    var gotos: seq<(nat, string)>
    var uncertain: bool
    var fallthroughExits: seq<nat>
    var reachable: set<nat>
    ghost var facts: Facts
    ghost var troubled: bool

    ghost predicate Valid()
      reads this`succs, this`preds, this`nodes, this`labels, this`gotos, this`uncertain, this`facts, this`troubled
    {
      && ListsAgree(succs, preds)
      && facts.edges == EdgesOf(succs)
      && (forall id, b {:trigger (id, b) in facts.blocks} :: (id, b) in facts.blocks <==> id in nodes && nodes[id] == b)
      && (forall id :: id in nodes ==> nodes[id] < |succs|)
      && (forall g :: g in gotos <==> g in facts.gotos)
      && (forall g :: g in gotos ==> g.0 < |succs|)
      && (forall name :: name in labels ==> (name, labels[name]) in facts.labels)
      && (forall l :: l in facts.labels ==> l.0 in labels && 0 < l.1 < |succs|)
      && uncertain == (troubled || !Unique(facts.labels))
    }

    /** Nothing has been built but the entry and the exit. */
    ghost predicate Fresh()
      reads this
    {
      && Valid() && |succs| == 2 && facts == NO_FACTS && !troubled && nodes == map[]
      && fallthroughExits == [] && reachable == {}
    }

    predicate IsTarget(b: Option<nat>)
      reads this
    {
      b.Some? ==> 0 < b.value < |succs|
    }

    predicate AllBlocks(blocks: seq<nat>)
      reads this
    {
      forall b :: b in blocks ==> b < |succs|
    }

    predicate AreTargets(t: Targets)
      reads this
    {
      IsTarget(t.breakTo) && IsTarget(t.continueTo)
    }

    constructor ()
      ensures Fresh()
    {
      succs, preds := [[], []], [[], []];
      nodes, labels, gotos, uncertain := map[], map[], [], false;
      fallthroughExits, reachable := [], {};
      facts, troubled := NO_FACTS, false;
    }

    method NewBlock(id: Option<nat>) returns (b: nat)
      requires Valid() && (id.Some? ==> id.value !in nodes)
      modifies this`succs, this`preds, this`nodes, this`facts
      ensures Valid() && 2 <= b == old(|succs|) && |succs| == b + 1
      ensures nodes == if id.Some? then old(nodes)[id.value := b] else old(nodes)
      ensures forall l :: l in facts.labels ==> l.1 < b
      ensures facts == old(facts).Plus(if id.Some? then Facts({}, {(id.value, b)}, {}, {}) else NO_FACTS)
    {
      assert 2 <= |succs| == |preds|;
      EdgesOfGrown(succs);
      ListsGrow(succs, preds);
      hide EdgesOf, ListsAgree, Unique;
      b := |succs|;
      succs, preds := succs + [[]], preds + [[]];
      if id.Some? {
        nodes := nodes[id.value := b];
      }
      facts := facts.Plus(if id.Some? then Facts({}, {(id.value, b)}, {}, {}) else NO_FACTS);
      assert facts.labels == old(facts.labels);
    }

    method HasEdge(from: nat, to: nat, kind: EdgeKind) returns (found: bool)
      requires from < |succs|
      ensures found <==> Edge(from, to, kind) in EdgesOf(succs)
    {
      for i := 0 to |succs[from]|
        invariant (to, kind) !in succs[from][..i]
      {
        if succs[from][i] == (to, kind) {
          return true;
        }
      }
      found := false;
    }

    /** An edge is drawn once for each kind. */
    method Connect(from: nat, to: Option<nat>, kind: EdgeKind)
      requires Valid() && from < |succs| && IsTarget(to)
      modifies this`succs, this`preds, this`facts
      ensures Valid() && |succs| == old(|succs|) && facts.labels == old(facts.labels)
      ensures facts == old(facts).Plus(if to.Some? then OnlyEdges({Edge(from, to.value, kind)}) else NO_FACTS)
    {
      hide Unique;
      if to == None {
        return;
      }
      var found := HasEdge(from, to.value, kind);
      if !found {
        EdgesOfAppended(succs, from, (to.value, kind));
        ListsStillAgree(succs, preds, from, to.value, kind);
        assert |preds| == |succs|;
        hide EdgesOf, ListsAgree;
        succs := succs[from := succs[from] + [(to.value, kind)]];
        preds := preds[to.value := preds[to.value] + [from]];
        facts := facts.Plus(OnlyEdges({Edge(from, to.value, kind)}));
        assert facts.labels == old(facts.labels);
      }
    }

    method ConnectAll(from: seq<nat>, to: nat, kind: EdgeKind)
      requires Valid() && AllBlocks(from) && IsTarget(Some(to))
      modifies this`succs, this`preds, this`facts
      ensures Valid() && |succs| == old(|succs|) && facts.labels == old(facts.labels)
      ensures facts == old(facts).Plus(OnlyEdges(EdgesTo(SetOf(from), to, kind)))
    {
      hide Valid, Facts.Plus, SetOf, EdgesTo;
      NoEdgesYet(facts, to, kind);
      assert from[..0] == [];
      for i := 0 to |from|
        invariant Valid() && |succs| == old(|succs|) && facts.labels == old(facts.labels)
        invariant facts == old(facts).Plus(OnlyEdges(EdgesTo(SetOf(from[..i]), to, kind)))
      {
        assert from[i] in from;
        OneMoreEdge(old(facts), from, i, to, kind);
        Connect(from[i], Some(to), kind);
      }
      assert from[..|from|] == from;
    }

    // ----- Statements -----

    method BuildOpt(tree: Option<Node>, incoming: seq<nat>, t: Targets) returns (exits: seq<nat>)
      requires Valid() && AllBlocks(incoming) && AreTargets(t)
      requires DistinctIdsOpt(tree) && IdsOpt(tree) !! nodes.Keys
      modifies this`succs, this`preds, this`nodes, this`labels, this`gotos, this`uncertain, this`facts, this`troubled
      ensures Valid() && AllBlocks(exits) && |succs| >= old(|succs|)
      ensures nodes.Keys <= old(nodes.Keys) + IdsOpt(tree)
      ensures var part := LayoutOpt(Built, tree, old(|succs|), SetOf(incoming), t);
        |succs| == part.next && SetOf(exits) == part.exits && facts == old(facts).Plus(part.facts)
      ensures troubled == (old(troubled) || TroubledOpt(tree, t.breakTo.Some?, t.continueTo.Some?))
      decreases tree, 1
    {
      if tree == None {
        PlusNothing(facts);
        return incoming;
      }
      exits := BuildNode(tree.value, incoming, t);
    }

    method BuildNode(node: Node, incoming: seq<nat>, t: Targets) returns (exits: seq<nat>)
      requires Valid() && AllBlocks(incoming) && AreTargets(t)
      requires DistinctIds(node) && Ids(node) !! nodes.Keys
      modifies this`succs, this`preds, this`nodes, this`labels, this`gotos, this`uncertain, this`facts, this`troubled
      ensures Valid() && AllBlocks(exits) && |succs| >= old(|succs|)
      ensures nodes.Keys <= old(nodes.Keys) + Ids(node)
      ensures var part := Layout(Built, node, old(|succs|), SetOf(incoming), t);
        |succs| == part.next && SetOf(exits) == part.exits && facts == old(facts).Plus(part.facts)
      ensures troubled == (old(troubled) || Troubled(node, t.breakTo.Some?, t.continueTo.Some?))
      decreases node, 2
    {
      hide Valid;
      if node.inactive {
        PlusNothing(facts);
        return incoming;
      }
      if node.damaged {
        MarkUncertain();
      }
      match node.kind
      case Region(children) => exits := BuildSequence(children, incoming, t);
      case Unclear =>
        PlusNothing(facts);
        MarkUncertain();
        return incoming;
      case NotStatement =>
        PlusNothing(facts);
        return incoming;
      case _ => exits := BuildStatement(node, incoming, t);
    }

    method MarkUncertain()
      requires Valid()
      modifies this`uncertain, this`troubled
      ensures Valid() && uncertain && troubled
    {
      uncertain, troubled := true, true;
    }

    method BuildSequence(children: seq<Node>, incoming: seq<nat>, t: Targets) returns (exits: seq<nat>)
      requires Valid() && AllBlocks(incoming) && AreTargets(t)
      requires DistinctIdsSeq(children) && IdsSeq(children) !! nodes.Keys
      modifies this`succs, this`preds, this`nodes, this`labels, this`gotos, this`uncertain, this`facts, this`troubled
      ensures Valid() && AllBlocks(exits) && |succs| >= old(|succs|)
      ensures nodes.Keys <= old(nodes.Keys) + IdsSeq(children)
      ensures var part := LayoutSeq(Built, children, old(|succs|), SetOf(incoming), t);
        |succs| == part.next && SetOf(exits) == part.exits && facts == old(facts).Plus(part.facts)
      ensures troubled == (old(troubled) || TroubledSeq(children, t.breakTo.Some?, t.continueTo.Some?))
      decreases children, 0
    {
      hide Valid;
      exits := incoming;
      ghost var whole := LayoutSeq(Built, children, |succs|, SetOf(incoming), t);
      var i := 0;
      while i < |children|
        invariant 0 <= i <= |children|
        invariant Valid() && AllBlocks(exits) && AreTargets(t) && |succs| >= old(|succs|)
        invariant DistinctIdsSeq(children[i..]) && IdsSeq(children[i..]) !! nodes.Keys
        invariant nodes.Keys + IdsSeq(children[i..]) <= old(nodes.Keys) + IdsSeq(children)
        invariant var rest := LayoutSeq(Built, children[i..], |succs|, SetOf(exits), t);
          whole.next == rest.next && whole.exits == rest.exits && old(facts).Plus(whole.facts) == facts.Plus(rest.facts)
        invariant troubled == (old(troubled)
          || exists j :: 0 <= j < i && Troubled(children[j], t.breakTo.Some?, t.continueTo.Some?))
      {
        assert children[i..][1..] == children[i + 1..];
        ghost var first := Layout(Built, children[i], |succs|, SetOf(exits), t);
        ghost var was := facts;
        exits := BuildNode(children[i], exits, t);
        PlusAssociates(was, first.facts, LayoutSeq(Built, children[i + 1..], |succs|, SetOf(exits), t).facts);
        i := i + 1;
      }
      assert children[i..] == [];
      PlusNothing(facts);
    }

    method BuildIf(node: Node, block: nat, t: Targets) returns (exits: seq<nat>)
      requires Valid() && |succs| == block + 1 && AreTargets(t)
      requires node.kind.If? && DistinctIds(node) && Ids(node) - {node.id} !! nodes.Keys
      modifies this`succs, this`preds, this`nodes, this`labels, this`gotos, this`uncertain, this`facts, this`troubled
      ensures Valid() && AllBlocks(exits) && |succs| >= old(|succs|)
      ensures nodes.Keys <= old(nodes.Keys) + Ids(node)
      ensures var yes := LayoutOpt(Built, node.kind.consequence, block + 1, {block}, t);
        var no := LayoutOpt(Built, node.kind.alternative, yes.next, {block}, t);
        |succs| == no.next && SetOf(exits) == yes.exits + no.exits && facts == old(facts).Plus(yes.facts).Plus(no.facts)
      ensures var (breaks, continues) := (t.breakTo.Some?, t.continueTo.Some?);
        troubled == (old(troubled) || TroubledOpt(node.kind.consequence, breaks, continues)
                     || TroubledOpt(node.kind.alternative, breaks, continues))
      decreases node, 0
    {
      hide Valid, Facts.Plus;
      SetOfOne(block);
      var consequence := BuildOpt(node.kind.consequence, [block], t);
      if node.kind.alternative == None {
        PlusNothing(facts);
        exits := consequence + [block];
        SetOfBoth(consequence, [block]);
        return;
      }
      var alternative := BuildOpt(node.kind.alternative, [block], t);
      exits := consequence + alternative;
      SetOfBoth(consequence, alternative);
    }

    method BuildWhile(node: Node, block: nat) returns (exits: seq<nat>)
      requires Valid() && |succs| == block + 1 && block > 0
      requires node.kind.While? && DistinctIds(node) && Ids(node) - {node.id} !! nodes.Keys
      modifies this`succs, this`preds, this`nodes, this`labels, this`gotos, this`uncertain, this`facts, this`troubled
      ensures Valid() && AllBlocks(exits) && |succs| >= old(|succs|) && exits == [block + 1]
      ensures nodes.Keys <= old(nodes.Keys) + Ids(node)
      ensures var into := if node.kind.known == Some(false) then {} else {block};
        var inner := LayoutOpt(Built, node.kind.body, block + 2, into, Targets(Some(block + 1), Some(block)));
        |succs| == inner.next
        && facts == old(facts).Plus(inner.facts).Plus(OnlyEdges(EdgesTo(inner.exits, block, Jump)))
                      .Plus(EdgeIf(node.kind.known != Some(true), block, block + 1, EdgeKind.Branch))
      ensures troubled == (old(troubled) || TroubledOpt(node.kind.body, true, true))
      decreases node, 0
    {
      hide Valid, Facts.Plus;
      var after := NewBlock(None);
      PlusNothing(old(facts));
      var bodyIncoming := [block];
      SetOfOne(block);
      if node.kind.known == Some(false) {
        bodyIncoming := [];
      }
      assert SetOf(bodyIncoming) == if node.kind.known == Some(false) then {} else {block};
      var bodyExits := BuildOpt(node.kind.body, bodyIncoming, Targets(Some(after), Some(block)));
      ConnectAll(bodyExits, block, Jump);
      if node.kind.known != Some(true) {
        Connect(block, Some(after), EdgeKind.Branch);
      } else {
        PlusNothing(facts);
      }
      exits := [after];
    }

    /** The ways on from the condition of a do loop: to its body, if that has a block, and behind the loop. */
    method DrawDoEdges(known: Option<bool>, condition: nat, first: Option<nat>, after: nat)
      requires Valid() && condition < |succs| && IsTarget(first) && IsTarget(Some(after))
      modifies this`succs, this`preds, this`facts
      ensures Valid() && |succs| == old(|succs|)
      ensures facts == old(facts)
        .Plus(if known != Some(false) && first.Some? then OnlyEdges({Edge(condition, first.value, EdgeKind.Branch)})
            else NO_FACTS)
        .Plus(EdgeIf(known != Some(true), condition, after, EdgeKind.Branch))
    {
      hide Valid, Facts.Plus;
      if known != Some(false) {
        Connect(condition, first, EdgeKind.Branch);
      } else {
        PlusNothing(facts);
      }
      if known != Some(true) {
        Connect(condition, Some(after), EdgeKind.Branch);
      } else {
        PlusNothing(facts);
      }
    }

    method BuildDoWhile(node: Node, block: nat) returns (exits: seq<nat>)
      requires Valid() && |succs| == block + 1 && block > 0
      requires node.kind.DoWhile? && DistinctIds(node) && Ids(node) - {node.id} !! nodes.Keys
      modifies this`succs, this`preds, this`nodes, this`labels, this`gotos, this`uncertain, this`facts, this`troubled
      ensures Valid() && AllBlocks(exits) && |succs| >= old(|succs|) && exits == [block + 1]
      ensures nodes.Keys <= old(nodes.Keys) + Ids(node)
      ensures var body := node.kind.body;
        var inner := LayoutOpt(Built, body, block + 3, {block}, Targets(Some(block + 1), Some(block + 2)));
        |succs| == inner.next
        && facts == old(facts).Plus(inner.facts).Plus(OnlyEdges(EdgesTo(inner.exits, block + 2, Jump)))
                      .Plus(EdgeIf(node.kind.known != Some(false) && body.Some? && OwnsBlock(body.value),
                                   block + 2, block + 3, EdgeKind.Branch))
                      .Plus(EdgeIf(node.kind.known != Some(true), block + 2, block + 1, EdgeKind.Branch))
      ensures troubled == (old(troubled) || TroubledOpt(node.kind.body, true, true))
      decreases node, 0
    {
      hide Valid, Facts.Plus;
      var body := node.kind.body;
      var after := NewBlock(None);
      PlusNothing(old(facts));
      var condition := NewBlock(None);
      PlusNothing(old(facts));
      SetOfOne(block);
      BlocksHaveNodes();
      ghost var keys := nodes.Keys;
      ghost var was := facts;
      var bodyExits := BuildOpt(body, [block], Targets(Some(after), Some(condition)));
      var first := None;
      if body.Some? && body.value.id in nodes {
        first := Some(nodes[body.value.id]);
      }
      BodyBlock(was, keys, body, block + 3, {block}, Targets(Some(after), Some(condition)));
      ConnectAll(bodyExits, condition, Jump);
      DrawDoEdges(node.kind.known, condition, first, after);
      exits := [after];
    }

    lemma BlocksHaveNodes()
      requires Valid()
      ensures forall id, b {:trigger (id, b) in facts.blocks} :: (id, b) in facts.blocks ==> id in nodes
    {
    }

    /** Looking a loop body up finds its own block, if it has one. */
    lemma BodyBlock(was: Facts, keys: set<nat>, body: Option<Node>, n: nat, incoming: set<nat>, t: Targets)
      requires Valid() && DistinctIdsOpt(body) && facts == was.Plus(LayoutOpt(Built, body, n, incoming, t).facts)
      requires forall id, b {:trigger (id, b) in was.blocks} :: (id, b) in was.blocks ==> id in keys
      requires IdsOpt(body) !! keys && n > 0
      ensures body.Some? ==> (body.value.id in nodes <==> OwnsBlock(body.value))
      ensures body.Some? && OwnsBlock(body.value) ==> nodes[body.value.id] == n && 0 < n < |succs|
    {
      if body.Some? {
        var id := body.value.id;
        assert id in Ids(body.value);
        OwnBlockOnly(body.value, n, incoming, t);
        if id in nodes {
          assert (id, nodes[id]) in facts.blocks;
        }
        if OwnsBlock(body.value) {
          assert (id, n) in facts.blocks;
        }
      }
    }

    method BuildClause(clause: Node, block: nat, after: nat, continueTo: Option<nat>)
      requires Valid() && block < |succs| && 0 < after < |succs| && IsTarget(continueTo)
      requires DistinctIds(clause) && Ids(clause) !! nodes.Keys
      modifies this`succs, this`preds, this`nodes, this`labels, this`gotos, this`uncertain, this`facts, this`troubled
      ensures Valid() && |succs| >= old(|succs|)
      ensures nodes.Keys <= old(nodes.Keys) + Ids(clause)
      ensures var part := Layout(Built, clause, old(|succs|), {block}, Targets(Some(after), continueTo));
        |succs| == part.next
        && facts == old(facts).Plus(part.facts).Plus(OnlyEdges(EdgesTo(part.exits, after, EdgeKind.Branch)))
      ensures troubled == (old(troubled) || Troubled(clause, true, continueTo.Some?))
      decreases clause, 3
    {
      hide Valid, Facts.Plus;
      SetOfOne(block);
      var left := BuildNode(clause, [block], Targets(Some(after), continueTo));
      ConnectAll(left, after, EdgeKind.Branch);
    }

    method BuildClauses(children: seq<Node>, block: nat, after: nat, continueTo: Option<nat>)
      returns (hasClause: bool, hasDefault: bool)
      requires Valid() && block < |succs| && after == block + 1 && after < |succs| && IsTarget(continueTo)
      requires DistinctIdsSeq(children) && IdsSeq(children) !! nodes.Keys
      modifies this`succs, this`preds, this`nodes, this`labels, this`gotos, this`uncertain, this`facts, this`troubled
      ensures Valid() && |succs| >= old(|succs|)
      ensures nodes.Keys <= old(nodes.Keys) + IdsSeq(children)
      ensures var part := LayoutClauses(Built, children, block, old(|succs|), continueTo);
        |succs| == part.next && facts == old(facts).Plus(part.facts)
      ensures hasDefault == HasDefault(children) && (hasDefault ==> hasClause)
      ensures troubled == (old(troubled) || TroubledClauses(children, continueTo.Some?))
      decreases children, 0
    {
      hide Valid, Facts.Plus, LayoutClauses, Layout, DistinctIdsSeq, DistinctIds, IdsSeq, Ids, HasDefault,
          TroubledClauses, Troubled;
      hasClause, hasDefault := false, false;
      ghost var whole := LayoutClauses(Built, children, block, |succs|, continueTo);
      var i := 0;
      assert children[0..] == children && children[..0] == [];
      NoClausesBuilt(continueTo.Some?);
      while i < |children|
        invariant 0 <= i <= |children|
        invariant Valid() && block < |succs| && after < |succs| && IsTarget(continueTo) && |succs| >= old(|succs|)
        invariant DistinctIdsSeq(children[i..]) && IdsSeq(children[i..]) !! nodes.Keys
        invariant nodes.Keys + IdsSeq(children[i..]) <= old(nodes.Keys) + IdsSeq(children)
        invariant var rest := LayoutClauses(Built, children[i..], block, |succs|, continueTo);
          whole.next == rest.next && old(facts).Plus(whole.facts) == facts.Plus(rest.facts)
        invariant hasDefault == HasDefault(children[..i]) && (hasDefault ==> hasClause)
        invariant troubled == (old(troubled) || TroubledClauses(children[..i], continueTo.Some?))
      {
        var child := children[i];
        FirstIsDistinct(children, i, nodes.Keys);
        ghost var keys := nodes.Keys;
        RestOfClauses(facts, children, i, block, |succs|, continueTo);
        TroubledSnoc(children, i, continueTo.Some?);
        DefaultSnoc(children, i);
        if child.kind.Clause? {
          hasClause := true;
          hasDefault := hasDefault || child.kind.isDefault;
          BuildClause(child, block, after, continueTo);
        }
        RestIsDistinct(children, i, keys, nodes.Keys);
        i := i + 1;
      }
      assert children[i..] == [] && children[..i] == children;
      NoClausesLeft(block, |succs|, continueTo);
      PlusNothing(facts);
    }

    method BuildSwitch(node: Node, block: nat, outer: Targets) returns (exits: seq<nat>)
      requires Valid() && |succs| == block + 1 && block > 0 && AreTargets(outer)
      requires node.kind.Switch? && DistinctIds(node) && Ids(node) - {node.id} !! nodes.Keys
      modifies this`succs, this`preds, this`nodes, this`labels, this`gotos, this`uncertain, this`facts, this`troubled
      ensures Valid() && AllBlocks(exits) && |succs| >= old(|succs|) && exits == [block + 1]
      ensures nodes.Keys <= old(nodes.Keys) + Ids(node)
      ensures var children := node.kind.children;
        var inner := LayoutClauses(Built, children, block, block + 2, outer.continueTo);
        |succs| == inner.next
        && facts == old(facts).Plus(inner.facts).Plus(EdgeIf(PassesOver(Built, children), block, block + 1,
          EdgeKind.Branch))
      ensures troubled == (old(troubled) || TroubledClauses(node.kind.children, outer.continueTo.Some?))
      decreases node, 0
    {
      hide Valid, Facts.Plus;
      var after := NewBlock(None);
      PlusNothing(old(facts));
      var hasClause, hasDefault := BuildClauses(node.kind.children, block, after, outer.continueTo);
      PlusNothing(facts);
      if !hasClause || !hasDefault {
        Connect(block, Some(after), EdgeKind.Branch);
      }
      exits := [after];
    }

    method RecordGoto(block: nat, target: Option<string>) returns (exits: seq<nat>)
      requires Valid() && block < |succs|
      modifies this`gotos, this`uncertain, this`facts, this`troubled
      ensures Valid() && exits == if target == None then [block] else []
      ensures facts == old(facts).Plus(if target == None then NO_FACTS else Facts({}, {}, {(block, target.value)}, {}))
      ensures troubled == (old(troubled) || target == None)
    {
      PlusNothing(facts);
      if target == None {
        MarkUncertain();
        return [block];
      }
      gotos := gotos + [(block, target.value)];
      facts := facts.Plus(Facts({}, {}, {(block, target.value)}, {}));
      assert facts.labels == old(facts.labels);
      exits := [];
    }

    /** The first statement with a name takes it; an empty or repeated name makes the function uncertain. */
    method RecordLabel(block: nat, name: string)
      requires Valid() && 0 < block < |succs| && forall l :: l in facts.labels ==> l.1 < block
      modifies this`labels, this`uncertain, this`facts, this`troubled
      ensures Valid()
      ensures facts == old(facts).Plus(Facts({}, {}, {}, if name == "" then {} else {(name, block)}))
      ensures troubled == (old(troubled) || name == "")
    {
      PlusNothing(facts);
      if name == "" {
        MarkUncertain();
      } else {
        facts := facts.Plus(Facts({}, {}, {}, {(name, block)}));
        assert facts.edges == old(facts.edges) && facts.blocks == old(facts.blocks) && facts.gotos == old(facts.gotos);
        if name in labels {
          uncertain := true;
          assert (name, labels[name]) in facts.labels && (name, block) in facts.labels;
        } else {
          labels := labels[name := block];
          assert old(facts.labels) <= facts.labels;
        }
      }
    }

    /** A break or a continue: an edge to its target, or an uncertain function if it has none. */
    method RecordJump(block: nat, to: Option<nat>) returns (exits: seq<nat>)
      requires Valid() && block < |succs| && IsTarget(to)
      modifies this`succs, this`preds, this`uncertain, this`facts, this`troubled
      ensures Valid() && |succs| == old(|succs|) && exits == if to == None then [block] else []
      ensures facts == old(facts).Plus(if to == None then NO_FACTS else OnlyEdges({Edge(block, to.value, Jump)}))
      ensures troubled == (old(troubled) || to == None)
    {
      hide Valid;
      PlusNothing(facts);
      if to == None {
        MarkUncertain();
        return [block];
      }
      Connect(block, to, Jump);
      exits := [];
    }

    /** Statements without parts of their own. */
    method BuildLeaf(node: Node, block: nat, t: Targets) returns (exits: seq<nat>)
      requires Valid() && 0 < block < |succs| && AreTargets(t) && IsLeaf(node.kind)
      requires forall l :: l in facts.labels ==> l.1 < block
      modifies this`succs, this`preds, this`labels, this`gotos, this`uncertain, this`facts, this`troubled
      ensures Valid() && AllBlocks(exits) && |succs| == old(|succs|)
      ensures SetOf(exits) == LeafExits(node.kind, block, t) && facts == old(facts).Plus(LeafFacts(node.kind, block, t))
      ensures troubled == (old(troubled) || Troubled(node.(inactive := false, damaged := false), t.breakTo.Some?,
        t.continueTo.Some?))
    {
      hide Valid, Facts.Plus;
      SetOfOne(block);
      match node.kind
      case Return =>
        Connect(block, Some(1), ReturnEdge);
        exits := [];
      case Goto(target) => exits := RecordGoto(block, target);
      case Label(name) =>
        RecordLabel(block, name);
        exits := [block];
      case Break => exits := RecordJump(block, t.breakTo);
      case Continue => exits := RecordJump(block, t.continueTo);
      case Simple =>
        PlusNothing(facts);
        exits := [block];
    }

    /** The block of a statement, the edges into it, and whatever its kind asks for. */
    method BuildStatement(node: Node, incoming: seq<nat>, t: Targets) returns (exits: seq<nat>)
      requires Valid() && AllBlocks(incoming) && AreTargets(t)
      requires OwnsBlock(node) && DistinctIds(node) && Ids(node) !! nodes.Keys
      modifies this`succs, this`preds, this`nodes, this`labels, this`gotos, this`uncertain, this`facts, this`troubled
      ensures Valid() && AllBlocks(exits) && |succs| >= old(|succs|)
      ensures nodes.Keys <= old(nodes.Keys) + Ids(node)
      ensures var part := Layout(Built, node, old(|succs|), SetOf(incoming), t);
        |succs| == part.next && SetOf(exits) == part.exits && facts == old(facts).Plus(part.facts)
      ensures troubled == (old(troubled) || Troubled(node.(damaged := false), t.breakTo.Some?, t.continueTo.Some?))
      decreases node, 1
    {
      hide Valid, Facts.Plus, Layout, LayoutOpt, LayoutSeq, LayoutClauses, Own, TroubledOpt, TroubledSeq,
          TroubledClauses;
      assert node.id in Ids(node);
      var block := NewBlock(Some(node.id));
      ConnectAll(incoming, block, Normal);
      ghost var before, from := old(facts), SetOf(incoming);
      OwnInTwo(before, node, block, from);
      SetOfOne(block);
      SetOfOne(block + 1);
      if IsLeaf(node.kind) {
        exits := BuildLeaf(node, block, t);
        LeafPlus(before, node, block, from, t);
        return;
      }
      match node.kind
      case Block(children) =>
        exits := BuildSequence(children, [block], t);
        BlockPlus(before, node, block, from, t);
      case If(_, _) =>
        exits := BuildIf(node, block, t);
        IfPlus(before, node, block, from, t);
      case While(_, _) =>
        exits := BuildWhile(node, block);
        WhilePlus(before, node, block, from, t);
      case DoWhile(_, _) =>
        exits := BuildDoWhile(node, block);
        DoWhilePlus(before, node, block, from, t);
      case Switch(_) =>
        exits := BuildSwitch(node, block, t);
        SwitchPlus(before, node, block, from, t);
      case Clause(_, body) =>
        exits := BuildOpt(body, [block], t);
        ClausePlus(before, node, block, from, t);
    }

    // ----- The whole function -----

    /** The exact graph of a body, and when the function is uncertain. */
    ghost predicate Drawn(body: Node)
      reads this`succs, this`preds, this`nodes, this`uncertain, this`fallthroughExits
    {
      var part := Body(Built, body);
      && ListsAgree(succs, preds)
      && (uncertain <==> Troubled(body, false, false) || !Unique(part.facts.labels)
                         || !Resolved(part.facts.gotos, part.facts.labels))
      && (!uncertain ==> EdgesOf(succs) == Whole(Built, body).edges)
      && (forall id, b {:trigger (id, b) in part.facts.blocks} ::
            (id, b) in part.facts.blocks <==> id in nodes && nodes[id] == b)
      && SetOf(fallthroughExits) == part.exits
    }

    ghost predicate Marked()
      reads this`succs, this`reachable
    {
      forall b: nat :: b in reachable <==> Reaches(EdgePairs(EdgesOf(succs)), 0, b)
    }

    /** What a finished build says about its input. */
    ghost predicate Finished(body: Option<Node>, broken: bool)
      reads this
    {
      if body == None || broken then uncertain else Drawn(body.value) && Marked()
    }

    lemma HasEntry()
      requires Valid()
      ensures |succs| >= 2
    {
    }

    method DrawFallthrough(exits: seq<nat>)
      requires Valid() && AllBlocks(exits) && fallthroughExits == []
      modifies this`succs, this`preds, this`facts, this`fallthroughExits
      ensures Valid() && |succs| == old(|succs|) && fallthroughExits == exits
      ensures facts == old(facts).Plus(OnlyEdges(EdgesTo(SetOf(exits), 1, Fallthrough)))
    {
      hide Valid, Facts.Plus, SetOf, EdgesTo, OnlyEdges;
      HasEntry();
      NoEdgesYet(facts, 1, Fallthrough);
      assert exits[..0] == [];
      for i := 0 to |exits|
        invariant Valid() && |succs| == old(|succs|) && fallthroughExits == exits[..i]
        invariant facts == old(facts).Plus(OnlyEdges(EdgesTo(SetOf(exits[..i]), 1, Fallthrough)))
      {
        assert exits[i] in exits;
        OneMoreEdge(old(facts), exits, i, 1, Fallthrough);
        Connect(exits[i], Some(1), Fallthrough);
        fallthroughExits := fallthroughExits + [exits[i]];
      }
      assert exits[..|exits|] == exits;
    }

    method ResolveGoto(jump: (nat, string))
      requires Valid() && jump in gotos
      modifies this`succs, this`preds, this`facts, this`uncertain, this`troubled
      ensures Valid() && |succs| == old(|succs|)
      ensures facts == old(facts).Plus(OnlyEdges(DrawnJump(jump, labels)))
      ensures troubled == (old(troubled) || jump.1 !in labels)
    {
      hide EdgesOf, ListsAgree, Unique;
      if jump.1 !in labels {
        PlusNothing(facts);
        MarkUncertain();
      } else {
        assert (jump.1, labels[jump.1]) in facts.labels;
        Connect(jump.0, Some(labels[jump.1]), Jump);
      }
    }

    /** Draws the pending jumps; one to a label that is not there makes the function uncertain. */
    method ResolveGotos()
      requires Valid()
      modifies this`succs, this`preds, this`facts, this`uncertain, this`troubled
      ensures Valid() && |succs| == old(|succs|)
      ensures facts == old(facts).Plus(OnlyEdges(DrawnJumps(gotos, labels)))
      ensures troubled == (old(troubled) || exists g :: g in gotos && g.1 !in labels)
    {
      hide Valid, Facts.Plus, DrawnJumps, DrawnJump, OnlyEdges;
      NoJumpsDrawn(facts, labels);
      assert gotos[..0] == [];
      for i := 0 to |gotos|
        invariant Valid() && |succs| == old(|succs|)
        invariant facts == old(facts).Plus(OnlyEdges(DrawnJumps(gotos[..i], labels)))
        invariant troubled == (old(troubled) || exists g :: g in gotos[..i] && g.1 !in labels)
      {
        assert gotos[i] in gotos && gotos[..i + 1] == gotos[..i] + [gotos[i]];
        DrawnJumpsSnoc(old(facts), gotos, i, labels);
        ResolveGoto(gotos[i]);
      }
      assert gotos[..|gotos|] == gotos;
    }

    method MarkReachable()
      requires ListsAgree(succs, preds)
      modifies this`reachable
      ensures Marked()
    {
      ghost var edges := EdgePairs(EdgesOf(succs));
      var queue: seq<nat> := [0];
      reachable := {0};
      ReachesSelf(edges, 0);
      while queue != []
        invariant 0 in reachable && Searched(edges)
        invariant forall b :: b in queue ==> b in reachable
        invariant forall b, e {:trigger e in succs[b]} :: b in reachable && b !in queue && e in succs[b] ==>
          e.0 in reachable
        decreases BlocksBelow(|succs|) - reachable, |queue|
      {
        var block := queue[0];
        assert queue == [block] + queue[1..] && block in queue;
        ghost var seen := reachable;
        queue := MarkSuccessors(block, queue[1..]);
        if seen != reachable {
          assert BlocksBelow(|succs|) - reachable < BlocksBelow(|succs|) - seen by {
            var b :| b in reachable && b !in seen;
            assert b in BlocksBelow(|succs|) - seen;
          }
        }
      }
      forall b: nat | Reaches(edges, 0, b) ensures b in reachable {
        ClosedContains(edges, reachable, 0, b);
      }
    }

    /** What is marked is reached. */
    ghost predicate Searched(edges: Edges)
      reads this`succs, this`reachable
    {
      forall b :: b in reachable ==> b < |succs| && Reaches(edges, 0, b)
    }

    method MarkSuccessors(block: nat, queue: seq<nat>) returns (grown: seq<nat>)
      requires ListsAgree(succs, preds) && Searched(EdgePairs(EdgesOf(succs))) && block in reachable
      requires forall b :: b in queue ==> b in reachable
      requires forall b, e {:trigger e in succs[b]} ::
        b in reachable && b !in queue && b != block && e in succs[b] ==> e.0 in reachable
      modifies this`reachable
      ensures Searched(EdgePairs(EdgesOf(succs))) && old(reachable) <= reachable
      ensures forall b :: b in grown ==> b in reachable
      ensures forall b, e {:trigger e in succs[b]} :: b in reachable && b !in grown && e in succs[b] ==>
        e.0 in reachable
      ensures old(reachable) == reachable ==> grown == queue
    {
      ghost var edges := EdgePairs(EdgesOf(succs));
      grown := queue;
      for i := 0 to |succs[block]|
        invariant Searched(edges) && old(reachable) <= reachable
        invariant forall b :: b in grown ==> b in reachable
        invariant forall b, e {:trigger e in succs[b]} ::
          b in reachable && b !in grown && b != block && e in succs[b] ==> e.0 in reachable
        invariant forall j :: 0 <= j < i ==> succs[block][j].0 in reachable
        invariant old(reachable) == reachable ==> grown == queue
      {
        var edge := succs[block][i];
        assert edge in succs[block];
        if edge.0 !in reachable {
          assert Edge(block, edge.0, edge.1) in EdgesOf(succs);
          assert (block, edge.0) in edges;
          ReachesSnoc(edges, 0, block, edge.0);
          reachable := reachable + {edge.0};
          grown := grown + [edge.0];
        }
      }
    }

    method Build(body: Option<Node>, broken: bool)
      requires Fresh() && DistinctIdsOpt(body)
      modifies this
      ensures Finished(body, broken)
    {
      if body == None || broken {
        uncertain := true;
        return;
      }
      hide *;
      var exits := BuildBody(body.value);
      DrawJumps(body.value, exits);
      MarkReachable();
    }

    method DrawJumps(body: Node, exits: seq<nat>)
      requires Valid() && AllBlocks(exits) && fallthroughExits == [] && reachable == {}
      requires SetOf(exits) == Body(Built, body).exits && facts == Body(Built, body).facts
        && troubled == Troubled(body, false, false)
      modifies this`succs, this`preds, this`facts, this`uncertain, this`troubled, this`fallthroughExits
      ensures Drawn(body)
    {
      hide Facts.Plus, Unique, Resolved, Troubled, Whole, EdgesOf, DrawnJumps, EdgesTo, SetOf, Body;
      DrawFallthrough(exits);
      ResolveGotos();
      BuildIsWhole(body);
    }

    method BuildBody(body: Node) returns (exits: seq<nat>)
      requires Fresh() && DistinctIds(body)
      modifies this`succs, this`preds, this`nodes, this`labels, this`gotos, this`uncertain, this`facts, this`troubled
      ensures Valid() && AllBlocks(exits)
      ensures SetOf(exits) == Body(Built, body).exits && facts == Body(Built, body).facts
        && troubled == Troubled(body, false, false)
    {
      hide Layout, Facts.Plus, Unique, Troubled, Whole;
      SetOfOne(0);
      PlusFirst(Body(Built, body).facts);
      exits := BuildNode(body, [0], Targets(None, None));
    }

    lemma BuildIsWhole(body: Node)
      requires Valid() && SetOf(fallthroughExits) == Body(Built, body).exits
      requires facts == Body(Built, body).facts.Plus(OnlyEdges(EdgesTo(Body(Built, body).exits, 1, Fallthrough)))
                                        .Plus(OnlyEdges(DrawnJumps(gotos, labels)))
      requires troubled == (Troubled(body, false, false) || exists g :: g in gotos && g.1 !in labels)
      ensures var part := Body(Built, body);
        && (uncertain <==> Troubled(body, false, false) || !Unique(part.facts.labels)
                           || !Resolved(part.facts.gotos, part.facts.labels))
        && (!uncertain ==> EdgesOf(succs) == Whole(Built, body).edges)
        && (forall id, b {:trigger (id, b) in part.facts.blocks} ::
              (id, b) in part.facts.blocks <==> id in nodes && nodes[id] == b)
    {
      hide Layout, EdgesOf, ListsAgree, Troubled, Body;
      var part := Body(Built, body);
      assert facts.labels == part.facts.labels && facts.gotos == part.facts.gotos && facts.blocks == part.facts.blocks;
      assert (exists g :: g in gotos && g.1 !in labels) <==> !Resolved(part.facts.gotos, part.facts.labels) by {
        forall g | g in gotos && g.1 in labels ensures exists l :: l in facts.labels && l.0 == g.1 {
          assert (g.1, labels[g.1]) in facts.labels;
        }
      }
      if !uncertain {
        DrawnAreJumps(gotos, labels, facts.gotos, facts.labels);
        assert facts.edges == Whole(Built, body).edges;
      }
    }

    // ----- Answers -----

    predicate Reachable(id: nat)
      reads this
    {
      uncertain || id !in nodes || nodes[id] in reachable
    }

    predicate CanFallThrough()
      reads this
    {
      uncertain || exists block :: block in fallthroughExits && block in reachable
    }

    /** Every statement that some run executes is reported reachable. */
    ghost predicate MissesNothing(body: Node)
      reads this
    {
      forall id :: Runs(body, id) ==> Reachable(id)
    }

    /** Whenever the condition of a do loop is marked, so is the first block of a body that has none of its own. */
    ghost predicate Bridged(body: Node)
      reads this
    {
      uncertain || forall x, y {:trigger (x, y) in Gaps(body, 2)} :: (x, y) in Gaps(body, 2) && x in reachable ==>
          y in reachable
    }

    lemma MarkedIsReached(body: Node, broken: bool, b: nat)
      requires Finished(Some(body), broken) && !uncertain
      ensures b in reachable <==> BuiltReaches(body, b)
    {
      hide Troubled, Whole;
    }

    lemma CertainWhenFinished(body: Node, broken: bool)
      requires Finished(Some(body), broken) && !uncertain
      ensures Certain(body)
    {
      hide Troubled, Whole, Layout;
    }

    lemma BlockOfNode(body: Node, broken: bool, id: nat, b: nat)
      requires Finished(Some(body), broken) && !uncertain
      ensures (id, b) in Whole(Built, body).blocks <==> id in nodes && nodes[id] == b
    {
      hide Troubled, Layout;
    }

    /** Answers for uncertain functions never say that something does not happen. */
    lemma UncertainAnswers()
      requires uncertain
      ensures (forall id :: Reachable(id)) && CanFallThrough()
    {
    }

    /**
     In a certain function a node is reported unreachable exactly if it has a block that the built graph does
     not reach.
     */
    lemma UnreachableIff(body: Node, broken: bool, id: nat)
      requires Finished(Some(body), broken)
      ensures !Reachable(id) <==> !uncertain && BuiltMisses(body, id)
    {
      hide Finished, BuiltReaches, Whole;
      if !uncertain {
        if id in nodes {
          BlockOfNode(body, broken, id, nodes[id]);
          MarkedIsReached(body, broken, nodes[id]);
        }
        if b :| (id, b) in Whole(Built, body).blocks && !BuiltReaches(body, b) {
          BlockOfNode(body, broken, id, b);
          MarkedIsReached(body, broken, b);
        }
      }
    }

    /**
     A function is uncertain exactly if it has no body or is broken, or if in the part of its body that is compiled
     there is damaged or unclear code, a jump to nowhere, a label without a name of its own, or a goto without a label.
     */
    lemma UncertainIffDoubtful(body: Option<Node>, broken: bool)
      requires Finished(body, broken)
      ensures uncertain <==> body == None || broken || Doubtful(body.value)
    {
      hide Body, Troubled, Unique, Resolved, Doubtful, Marked;
      if body.Some? && !broken {
        UncertainIff(body.value);
      }
    }

    /** A node has a block exactly if it is a statement that a way through active nodes leads to. */
    lemma BlockIffVisited(body: Node, broken: bool, id: nat)
      requires Finished(Some(body), broken) && !broken
      ensures id in nodes <==> exists way :: LeadsToStatement(body, way, id)
    {
      hide Body, Troubled, Unique, Resolved, LeadsToStatement, Marked;
      HasBlockIff(body, id);
      assert id in nodes ==> (id, nodes[id]) in Body(Built, body).facts.blocks;
    }

    /** A node that gets no block is never reported unreachable. */
    lemma NoBlockIsReachable(body: Node, broken: bool, id: nat)
      requires Finished(Some(body), broken) && forall b :: (id, b) !in Body(Built, body).facts.blocks
      ensures Reachable(id)
    {
      UnreachableIff(body, broken, id);
      hide Layout;
    }

    /** CanFallThrough says no exactly in a certain function of whose exits the built graph reaches none. */
    lemma NoFallThroughIff(body: Node, broken: bool)
      requires Finished(Some(body), broken)
      ensures !CanFallThrough() <==> !uncertain && !BuiltExits(body)
    {
      if !uncertain {
        forall b: nat ensures b in reachable <==> BuiltReaches(body, b) { MarkedIsReached(body, broken, b); }
        ExitsAreBuilt(body, broken);
        hide Finished, BuiltReaches, Body;
      }
    }

    /**
     For any body: nothing that runs is reported unreachable exactly if the function is uncertain or the built
     graph misses no statement that the mended graph shows.
     */
    lemma SoundIff(body: Node, broken: bool)
      requires Finished(Some(body), broken)
      ensures MissesNothing(body) <==> uncertain || forall id :: MendedShows(body, id) ==> !BuiltMisses(body, id)
    {
      hide Finished, Runs, MendedShows, Reachable, BuiltMisses;
      forall id ensures Runs(body, id) <==> MendedShows(body, id) { RunsIffShown(body, id); }
      forall id ensures !Reachable(id) <==> !uncertain && BuiltMisses(body, id) { UnreachableIff(body, broken, id); }
    }

    /** Every statement with a block that is reported reachable is executed by some run. */
    ghost predicate InventsNothing(body: Node)
      reads this
    {
      forall id :: id in nodes && Reachable(id) ==> Runs(body, id)
    }

    /** For any body: everything reported reachable runs exactly if the mended graph shows all of it. */
    lemma CompleteIff(body: Node, broken: bool)
      requires Finished(Some(body), broken)
      ensures InventsNothing(body) <==>
        forall id :: id in nodes && (uncertain || !BuiltMisses(body, id)) ==> MendedShows(body, id)
    {
      hide Finished, Runs, MendedShows, Reachable, BuiltMisses;
      forall id ensures Runs(body, id) <==> MendedShows(body, id) { RunsIffShown(body, id); }
      forall id ensures !Reachable(id) <==> !uncertain && BuiltMisses(body, id) { UnreachableIff(body, broken, id); }
    }

    /**
     For any body: falling off its end is foreseen exactly if the function is uncertain or the built graph
     reaches an exit wherever the mended graph does.
     */
    lemma ForeseenIff(body: Node, broken: bool)
      requires Finished(Some(body), broken)
      ensures (Happens(body, Done(Stop)) ==> CanFallThrough())
        <==> uncertain || (MendedExits(body) ==> BuiltExits(body))
    {
      hide Finished, Happens, BuiltExits;
      FallsOffIffShown(body);
      NoFallThroughIff(body, broken);
    }

    /**
     Where switches have their clauses directly, nothing that runs is reported unreachable exactly
     if every do loop whose condition is marked has the beginning of its body marked.
     */
    lemma SoundIffBridged(body: Node, broken: bool)
      requires Finished(Some(body), broken) && Direct(body)
      ensures MissesNothing(body) <==> Bridged(body)
    {
      hide Finished, Runs, MendedShows, Direct, Certain, BuiltReaches, MendedReaches, Gaps;
      if !uncertain {
        CertainWhenFinished(body, broken);
        GapsDecide(body);
        if Bridged(body) {
          forall id | Runs(body, id) ensures Reachable(id) {
            BridgedIsSound(body, broken, id);
          }
        }
        if MissesNothing(body) {
          forall x, y | (x, y) in Gaps(body, 2) && x in reachable ensures y in reachable {
            SoundIsBridged(body, broken, x, y);
          }
        }
      }
    }

    lemma BridgedIsSound(body: Node, broken: bool, id: nat)
      requires Finished(Some(body), broken) && Direct(body) && !uncertain && Certain(body) && Bridged(body)
      requires Runs(body, id)
      ensures Reachable(id)
    {
      RunsIffShown(body, id);
      GapsDecide(body);
      WholeMirrors(body);
      hide Finished, Runs, Direct, Certain, BuiltReaches, MendedReaches, Gaps, Whole;
      var b :| (id, b) in Whole(Mended, body).blocks && MendedReaches(body, b);
      forall x, y | (x, y) in Gaps(body, 2) && BuiltReaches(body, x) ensures BuiltReaches(body, y) {
        MarkedIsReached(body, broken, x);
        MarkedIsReached(body, broken, y);
      }
      assert GapsBridged(body);
      MarkedIsReached(body, broken, b);
      BlockOfNode(body, broken, id, b);
    }

    lemma SoundIsBridged(body: Node, broken: bool, x: nat, y: nat)
      requires Finished(Some(body), broken) && Direct(body) && !uncertain && Certain(body) && MissesNothing(body)
      requires (x, y) in Gaps(body, 2) && x in reachable
      ensures y in reachable
    {
      MarkedIsReached(body, broken, x);
      GapsDecide(body);
      WholeMirrors(body);
      GapsAreMended(body);
      hide Finished, Runs, Direct, BuiltReaches, Gaps, Whole;
      var id :| (id, y) in Whole(Mended, body).blocks;
      var mended := EdgePairs(Whole(Mended, body).edges);
      assert (x, y) in mended;
      ReachesSnoc(mended, 0, x, y);
      assert MendedShows(body, id);
      RunsIffShown(body, id);
      BlockOfNode(body, broken, id, y);
    }

    /**
     Where switches have their clauses directly, a statement of a certain body that is reported reachable does
     run.
     */
    lemma ReachableRuns(body: Node, broken: bool, id: nat)
      requires Finished(Some(body), broken) && Direct(body) && !uncertain
      requires id in nodes && Reachable(id)
      ensures Runs(body, id)
    {
      CertainWhenFinished(body, broken);
      GapsDecide(body);
      WholeMirrors(body);
      hide Finished, Runs, Direct, Certain, BuiltReaches, MendedReaches, Gaps, Whole;
      MarkedIsReached(body, broken, nodes[id]);
      BlockOfNode(body, broken, id, nodes[id]);
      RunsIffShown(body, id);
    }

    /**
     From the beginning of a do loop body, which is missed although the condition is marked, control
     gets to a block from which it leaves the tree.
     */
    ghost predicate EscapesByGap(body: Node)
      reads this
    {
      exists x, y, b {:trigger (x, y) in Gaps(body, 2), b in fallthroughExits} ::
        (x, y) in Gaps(body, 2) && x in reachable && b in fallthroughExits && Reaches(Repaired(body), y, b)
    }

    /** Exits that are reached in spite of the marks are reached through a gap. */
    lemma ExitBehindGap(body: Node, broken: bool, b: nat)
      requires Finished(Some(body), broken) && Direct(body) && !uncertain
      requires b in fallthroughExits && b !in reachable && Reaches(Repaired(body), 0, b)
      ensures EscapesByGap(body)
    {
      var built := EdgePairs(Whole(Built, body).edges);
      MarkedIsReached(body, broken, 0);
      ReachesSelf(built, 0);
      hide Finished, Direct, Gaps, Whole, BuiltReaches;
      assert 0 in reachable by { assert BuiltReaches(body, 0); }
      var x, y := FirstCrossing(Repaired(body), reachable, 0, b);
      MarkedIsReached(body, broken, x);
      MarkedIsReached(body, broken, y);
      if (x, y) in built {
        MarksFollow(body, x, y);
      }
      assert (x, y) in Gaps(body, 2);
    }

    lemma MarksFollow(body: Node, x: nat, y: nat)
      requires BuiltReaches(body, x) && (x, y) in EdgePairs(Whole(Built, body).edges)
      ensures BuiltReaches(body, y)
    {
      ReachesSnoc(EdgePairs(Whole(Built, body).edges), 0, x, y);
    }

    lemma EscapeReaches(body: Node, broken: bool, x: nat, y: nat, b: nat)
      requires Finished(Some(body), broken) && !uncertain
      requires (x, y) in Gaps(body, 2) && x in reachable && Reaches(Repaired(body), y, b)
      ensures Reaches(Repaired(body), 0, b)
    {
      MarkedIsReached(body, broken, x);
      hide Finished, Gaps, Whole;
      var path :| PathFromTo(EdgePairs(Whole(Built, body).edges), path, 0, x);
      PathInMore(EdgePairs(Whole(Built, body).edges), Repaired(body), path);
      assert PathFromTo(Repaired(body), path, 0, x);
      ReachesSnoc(Repaired(body), 0, x, y);
      ReachesTransitive(Repaired(body), 0, y, b);
    }

    lemma MarkedExit(body: Node, broken: bool, b: nat)
      requires Finished(Some(body), broken) && !uncertain && b in reachable
      ensures Reaches(Repaired(body), 0, b)
    {
      MarkedIsReached(body, broken, b);
      hide Finished, Gaps, Whole;
      var path :| PathFromTo(EdgePairs(Whole(Built, body).edges), path, 0, b);
      PathInMore(EdgePairs(Whole(Built, body).edges), Repaired(body), path);
      assert PathFromTo(Repaired(body), path, 0, b);
    }

    /**
     Where switches have their clauses directly, some run of a certain body falls off its end exactly if
     CanFallThrough says so or control escapes by a gap; what it says is right exactly without such an escape.
     */
    lemma FallsThroughIff(body: Node, broken: bool)
      requires Finished(Some(body), broken) && Direct(body) && !uncertain
      ensures Happens(body, Done(Stop)) <==> CanFallThrough() || EscapesByGap(body)
    {
      CertainWhenFinished(body, broken);
      WholeMirrors(body);
      FallsOffIffShown(body);
      ExitsAreBuilt(body, broken);
      hide Finished, Happens, Direct, Certain, BuiltReaches, MendedReaches, Gaps, Whole, Body, Repaired, Reaches;
      forall b: nat ensures MendedReaches(body, b) <==> Reaches(Repaired(body), 0, b) { RepairedIsMended(body, b); }
      assert forall b :: b in fallthroughExits <==> b in Body(Mended, body).exits;
      if b: nat :| b in fallthroughExits && Reaches(Repaired(body), 0, b) {
        if b !in reachable { ExitBehindGap(body, broken, b); }
      }
      if CanFallThrough() {
        var b :| b in fallthroughExits && b in reachable;
        MarkedExit(body, broken, b);
      }
      if EscapesByGap(body) {
        var x, y, b :|
          (x, y) in Gaps(body, 2) && x in reachable && b in fallthroughExits && Reaches(Repaired(body), y, b);
        EscapeReaches(body, broken, x, y, b);
      }
    }

    /** With do loops bridged nothing escapes: CanFallThrough says exactly whether some run falls off the end. */
    lemma FallsThroughWhenBridged(body: Node, broken: bool)
      requires Finished(Some(body), broken) && Direct(body) && !uncertain && Bridged(body)
      ensures CanFallThrough() <==> Happens(body, Done(Stop))
    {
      CertainWhenFinished(body, broken);
      GapsDecide(body);
      WholeMirrors(body);
      FallsOffIffShown(body);
      ExitsAreBuilt(body, broken);
      hide Finished, Happens, Direct, Certain, BuiltReaches, MendedReaches, Gaps, Whole, Body;
      forall b: nat ensures b in reachable <==> BuiltReaches(body, b) { MarkedIsReached(body, broken, b); }
      assert CanFallThrough() <==> exists b :: b in Body(Built, body).exits && b in reachable;
    }

    lemma ExitsAreBuilt(body: Node, broken: bool)
      requires Finished(Some(body), broken) && !uncertain
      ensures SetOf(fallthroughExits) == Body(Built, body).exits
    {
      hide Troubled, Layout;
    }

    /** The finished graph in the form the dataflow analyses take. */
    ghost function Graph(): (g: FlowGraph)
      requires ListsAgree(succs, preds)
      reads this
      ensures g.WellFormed() && g.EdgeSet() == EdgePairs(EdgesOf(succs))
    {
      GraphFacts(succs, preds);
      GraphOf(succs, preds)
    }
  }
}
