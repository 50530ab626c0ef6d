/**
 Statement trees and the block graphs they call for. Blocks are numbered in the order they are
 made: 0 is the entry, 1 the exit, and a statement tree starts at a given number.
 */
module Cfg {
  import opened Wrappers

  /** `damaged` marks parse errors and uncertain conditional code; `inactive` marks code that is compiled out. */
  datatype Node = Node(id: nat, inactive: bool, damaged: bool, kind: Kind)

  /** Conditions carry the constant the evaluator found for them, if any. */
  datatype Kind =
    | Region(children: seq<Node>)
    | Unclear
    | NotStatement
    | Block(children: seq<Node>)
    | If(consequence: Option<Node>, alternative: Option<Node>)
    | While(known: Option<bool>, body: Option<Node>)
    | DoWhile(known: Option<bool>, body: Option<Node>)
    | Switch(children: seq<Node>)
    | Clause(isDefault: bool, body: Option<Node>)
    | Return
    | Goto(target: Option<string>)
    | Label(name: string)
    | Break
    | Continue
    | Simple

  /** Whether entering the node makes a block for it. */
  predicate OwnsBlock(node: Node) {
    !node.inactive && !node.kind.Region? && !node.kind.Unclear? && !node.kind.NotStatement?
  }

  datatype EdgeKind = Normal | Branch | Jump | ReturnEdge | Fallthrough

  datatype Edge = Edge(from: nat, to: nat, kind: EdgeKind)

  /**
   The graph as it is built, or mended where that one loses or invents control flow: a do loop
   repeats whatever its body is, a switch also chooses clauses inside regions, a jump goes to the
   first label of its name, and nothing goes on behind code that cannot go on.
   */
  datatype View = Built | Mended

  datatype Targets = Targets(breakTo: Option<nat>, continueTo: Option<nat>)

  /** What a piece of tree adds to the graph: edges, statement blocks, pending jumps and labels. */
  datatype Facts = Facts(edges: set<Edge>, blocks: set<(nat, nat)>, gotos: set<(nat, string)>,
      labels: set<(string, nat)>) {
    ghost predicate Within(whole: Facts) {
      edges <= whole.edges && blocks <= whole.blocks && gotos <= whole.gotos && labels <= whole.labels
    }

    ghost function Plus(other: Facts): Facts {
      Facts(edges + other.edges, blocks + other.blocks, gotos + other.gotos, labels + other.labels)
    }
  }

  const NO_FACTS := Facts({}, {}, {}, {})

  /** The first block number left free, and the blocks from which control leaves the piece. */
  datatype Part = Part(next: nat, exits: set<nat>, facts: Facts)

  ghost function EdgesTo(from: set<nat>, to: nat, kind: EdgeKind): set<Edge> {
    set b | b in from :: Edge(b, to, kind)
  }

  ghost function OnlyEdges(edges: set<Edge>): Facts {
    Facts(edges, {}, {}, {})
  }

  ghost function EdgeIf(condition: bool, from: nat, to: nat, kind: EdgeKind): Facts {
    if condition then OnlyEdges({Edge(from, to, kind)}) else NO_FACTS
  }

  /** The block of the node itself, with an edge from every block that leads into it. */
  ghost function Own(node: Node, n: nat, incoming: set<nat>): Facts {
    Facts(EdgesTo(incoming, n, Normal), {(node.id, n)}, {}, {})
  }

  predicate HasDefault(children: seq<Node>) {
    exists child :: child in children && child.kind.Clause? && child.kind.isDefault
  }

  /** The clauses a switch chooses from, also those inside active conditional regions. */
  function Clauses(children: seq<Node>): seq<Node>
    decreases children
  {
    if children == [] then [] else ClausesOf(children[0]) + Clauses(children[1..])
  }

  function ClausesOf(node: Node): seq<Node>
    decreases node
  {
    if node.kind.Clause? then [node]
    else if node.kind.Region? && !node.inactive then Clauses(node.kind.children)
    else []
  }

  /** An active default clause catches every value; without one a switch may pass over all its clauses. */
  predicate CatchesAll(clauses: seq<Node>) {
    exists clause :: clause in clauses && clause.kind.Clause? && clause.kind.isDefault && !clause.inactive
  }

  predicate PassesOver(view: View, children: seq<Node>) {
    if view == Built then !HasDefault(children) else !CatchesAll(Clauses(children))
  }

  /** Control stays on the block of a jump that has nowhere to go, in the graph as it is built. */
  ghost function Stuck(view: View, n: nat): set<nat> {
    if view == Built then {n} else {}
  }

  /** The blocks from which the body of a do loop is entered. */
  ghost function DoEntries(view: View, known: Option<bool>, n: nat): set<nat> {
    if view == Mended && known != Some(false) then {n, n + 2} else {n}
  }

  ghost function LayoutOpt(view: View, node: Option<Node>, n: nat, incoming: set<nat>, t: Targets): Part
    decreases node, 1
  {
    match node
    case None => Part(n, incoming, NO_FACTS)
    case Some(inner) => Layout(view, inner, n, incoming, t)
  }

  /** The piece of graph for a node whose blocks are numbered from n. */
  ghost function Layout(view: View, node: Node, n: nat, incoming: set<nat>, t: Targets): Part
    decreases node, 0
  {
    if node.inactive then Part(n, incoming, NO_FACTS)
    else match node.kind
      case Region(children) => LayoutSeq(view, children, n, incoming, t)
      case Unclear => Part(n, if view == Built then incoming else {}, NO_FACTS)
      case NotStatement => Part(n, incoming, NO_FACTS)
      case Block(children) =>
        var inner := LayoutSeq(view, children, n + 1, {n}, t);
        Part(inner.next, inner.exits, Own(node, n, incoming).Plus(inner.facts))
      case If(consequence, alternative) =>
        var yes := LayoutOpt(view, consequence, n + 1, {n}, t);
        var no := LayoutOpt(view, alternative, yes.next, {n}, t);
        Part(no.next, yes.exits + no.exits, Own(node, n, incoming).Plus(yes.facts).Plus(no.facts))
      case While(known, body) =>
        var inner := LayoutOpt(view, body, n + 2, if known == Some(false) then {} else {n},
            Targets(Some(n + 1), Some(n)));
        Part(inner.next, {n + 1},
             Own(node, n, incoming).Plus(inner.facts).Plus(OnlyEdges(EdgesTo(inner.exits, n, Jump)))
               .Plus(EdgeIf(known != Some(true), n, n + 1, EdgeKind.Branch)))
      case DoWhile(known, body) =>
        var inner := LayoutOpt(view, body, n + 3, DoEntries(view, known, n), Targets(Some(n + 1), Some(n + 2)));
        Part(inner.next, {n + 1},
             Own(node, n, incoming).Plus(inner.facts).Plus(OnlyEdges(EdgesTo(inner.exits, n + 2, Jump)))
               .Plus(EdgeIf(known != Some(false) && body.Some? && OwnsBlock(body.value), n + 2, n + 3, EdgeKind.Branch))
               .Plus(EdgeIf(known != Some(true), n + 2, n + 1, EdgeKind.Branch)))
      case Switch(children) =>
        var inner := LayoutClauses(view, children, n, n + 2, t.continueTo);
        Part(inner.next, {n + 1},
             Own(node, n, incoming).Plus(inner.facts).Plus(EdgeIf(PassesOver(view, children), n, n + 1,
                 EdgeKind.Branch)))
      case Clause(_, body) =>
        var inner := LayoutOpt(view, body, n + 1, {n}, t);
        Part(inner.next, inner.exits, Own(node, n, incoming).Plus(inner.facts))
      case Return =>
        Part(n + 1, {}, Own(node, n, incoming).Plus(OnlyEdges({Edge(n, 1, ReturnEdge)})))
      case Goto(target) =>
        if target == None then Part(n + 1, Stuck(view, n), Own(node, n, incoming))
        else Part(n + 1, {}, Own(node, n, incoming).Plus(Facts({}, {}, {(n, target.value)}, {})))
      case Label(name) =>
        Part(n + 1, {n}, Own(node, n, incoming).Plus(Facts({}, {}, {}, if name == "" then {} else {(name, n)})))
      case Break =>
        if t.breakTo == None then Part(n + 1, Stuck(view, n), Own(node, n, incoming))
        else Part(n + 1, {}, Own(node, n, incoming).Plus(OnlyEdges({Edge(n, t.breakTo.value, Jump)})))
      case Continue =>
        if t.continueTo == None then Part(n + 1, Stuck(view, n), Own(node, n, incoming))
        else Part(n + 1, {}, Own(node, n, incoming).Plus(OnlyEdges({Edge(n, t.continueTo.value, Jump)})))
      case Simple =>
        Part(n + 1, {n}, Own(node, n, incoming))
  }

  ghost function LayoutSeq(view: View, nodes: seq<Node>, n: nat, incoming: set<nat>, t: Targets): Part
    decreases nodes, 0
  {
    if nodes == [] then Part(n, incoming, NO_FACTS)
    else
      var first := Layout(view, nodes[0], n, incoming, t);
      var rest := LayoutSeq(view, nodes[1..], first.next, first.exits, t);
      Part(rest.next, rest.exits, first.facts.Plus(rest.facts))
  }

  ghost function LayoutClauses(view: View, children: seq<Node>, s: nat, n: nat, continueTo: Option<nat>): Part
    decreases children, 0
  {
    if children == [] then Part(n, {}, NO_FACTS)
    else
      var first := LayoutClause(view, children[0], s, n, continueTo);
      var rest := LayoutClauses(view, children[1..], s, first.next, continueTo);
      Part(rest.next, {}, first.facts.Plus(rest.facts))
  }

  /** A child of the switch at block s; the graph as it is built skips all but clauses. */
  ghost function LayoutClause(view: View, child: Node, s: nat, n: nat, continueTo: Option<nat>): Part
    decreases child, 1
  {
    if child.kind.Clause? then
      var part := Layout(view, child, n, {s}, Targets(Some(s + 1), continueTo));
      Part(part.next, {}, part.facts.Plus(OnlyEdges(EdgesTo(part.exits, s + 1, EdgeKind.Branch))))
    else if view == Mended && child.kind.Region? && !child.inactive then
      LayoutClauses(view, child.kind.children, s, n, continueTo)
    else Part(n, {}, NO_FACTS)
  }

  /** The tree of a whole function body. */
  ghost function Body(view: View, body: Node): Part {
    Layout(view, body, 2, {0}, Targets(None, None))
  }

  ghost predicate IsFirst(labels: set<(string, nat)>, name: string, b: nat) {
    (name, b) in labels && forall l :: l in labels && l.0 == name ==> b <= l.1
  }

  ghost function JumpEdges(view: View, gotos: set<(nat, string)>, labels: set<(string, nat)>): set<Edge> {
    set g, l | g in gotos && l in labels && g.1 == l.0 && (view == Mended ==> IsFirst(labels, l.0, l.1))
      :: Edge(g.0, l.1, Jump)
  }

  /** The graph of a whole function body: the tree, falling off its end, and the jumps to labels. */
  ghost function Whole(view: View, body: Node): Facts {
    var part := Body(view, body);
    part.facts.Plus(OnlyEdges(EdgesTo(part.exits, 1, Fallthrough) + JumpEdges(view, part.facts.gotos,
        part.facts.labels)))
  }
}
