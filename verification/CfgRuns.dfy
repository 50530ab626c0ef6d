/**
 What statement trees do when they run, as a small-step machine that knows nothing about blocks,
 and the proof that every run stays on the mended block graph.
 */
module CfgRuns {
  import opened Wrappers
  import opened Graphs
  import opened Cfg

  /** What is left to do once the current statement is finished. */
  datatype Cont =
    | Stop
    | Then(rest: seq<Node>, next: Cont)
    | InLoop(loop: Node, next: Cont)
    | InDo(loop: Node, next: Cont)
    | InSwitch(next: Cont)

  /** Control is about to enter a tree, at a statement, at the condition of a do loop, done with a tree, or gone. */
  datatype Config =
    | Enter(tree: Option<Node>, k: Cont)
    | At(node: Node, k: Cont)
    | AtCondition(node: Node, k: Cont)
    | Done(k: Cont)
    | Returned

  /** A break leaves the nearest loop or switch. */
  function AfterBreak(k: Cont): Option<Config> {
    match k
    case Stop => None
    case Then(_, next) => AfterBreak(next)
    case InLoop(_, next) => Some(Done(next))
    case InDo(_, next) => Some(Done(next))
    case InSwitch(next) => Some(Done(next))
  }

  /** A continue goes back to the nearest loop, through any switch. */
  function AfterContinue(k: Cont): Option<Config> {
    match k
    case Stop => None
    case Then(_, next) => AfterContinue(next)
    case InLoop(loop, next) => Some(At(loop, next))
    case InDo(loop, next) => Some(AtCondition(loop, next))
    case InSwitch(next) => AfterContinue(next)
  }

  function FindOpt(tree: Option<Node>, k: Cont, name: string): Option<Config>
    decreases tree, 1
  {
    if tree == None then None else Find(tree.value, k, name)
  }

  /** The labelled statement inside a tree, with what is left to do after it. */
  function Find(node: Node, k: Cont, name: string): Option<Config>
    decreases node, 0
  {
    if node.inactive then None
    else match node.kind
      case Region(children) => FindSeq(children, k, name)
      case Block(children) => FindSeq(children, k, name)
      case If(consequence, alternative) =>
        var found := FindOpt(consequence, k, name);
        if found.Some? then found else FindOpt(alternative, k, name)
      case While(_, body) => FindOpt(body, InLoop(node, k), name)
      case DoWhile(_, body) => FindOpt(body, InDo(node, k), name)
      case Switch(children) => FindClauses(children, InSwitch(k), name)
      case Clause(_, body) => FindOpt(body, k, name)
      case Label(label') => if label' == name && name != "" then Some(At(node, k)) else None
      case _ => None
  }

  function FindSeq(nodes: seq<Node>, k: Cont, name: string): Option<Config>
    decreases nodes, 0
  {
    if nodes == [] then None
    else
      var found := Find(nodes[0], Then(nodes[1..], k), name);
      if found.Some? then found else FindSeq(nodes[1..], k, name)
  }

  function FindClauses(children: seq<Node>, k: Cont, name: string): Option<Config>
    decreases children, 0
  {
    if children == [] then None
    else
      var found := FindClause(children[0], k, name);
      if found.Some? then found else FindClauses(children[1..], k, name)
  }

  function FindClause(node: Node, k: Cont, name: string): Option<Config>
    decreases node, 1
  {
    if node.kind.Clause? then Find(node, k, name)
    else if node.kind.Region? && !node.inactive then FindClauses(node.kind.children, k, name)
    else None
  }

  // ----- Which configuration each block stands for -----

  function SizeOpt(tree: Option<Node>): nat
    decreases tree, 1
  {
    if tree == None then 0 else Size(tree.value)
  }

  /** How many blocks a tree has in the mended graph. */
  function Size(node: Node): nat
    decreases node, 0
  {
    if node.inactive then 0
    else match node.kind
      case Region(children) => SizeSeq(children)
      case Unclear => 0
      case NotStatement => 0
      case Block(children) => 1 + SizeSeq(children)
      case If(consequence, alternative) => 1 + SizeOpt(consequence) + SizeOpt(alternative)
      case While(_, body) => 2 + SizeOpt(body)
      case DoWhile(_, body) => 3 + SizeOpt(body)
      case Switch(children) => 2 + SizeClauses(children)
      case Clause(_, body) => 1 + SizeOpt(body)
      case _ => 1
  }

  function SizeSeq(nodes: seq<Node>): nat
    decreases nodes, 0
  {
    if nodes == [] then 0 else Size(nodes[0]) + SizeSeq(nodes[1..])
  }

  function SizeClauses(children: seq<Node>): nat
    decreases children, 0
  {
    if children == [] then 0 else SizeClause(children[0]) + SizeClauses(children[1..])
  }

  function SizeClause(child: Node): nat
    decreases child, 1
  {
    if child.kind.Clause? then Size(child)
    else if child.kind.Region? && !child.inactive then SizeClauses(child.kind.children)
    else 0
  }

  function SpotOpt(tree: Option<Node>, n: nat, k: Cont, b: nat): Option<Config>
    decreases tree, 2
  {
    if tree == None then None else Spot(tree.value, n, k, b)
  }

  /** The configuration that block b stands for in a tree with blocks from n, in the mended graph. */
  function Spot(node: Node, n: nat, k: Cont, b: nat): Option<Config>
    decreases node, 1
  {
    if node.kind.Region? && !node.inactive then SpotSeq(node.kind.children, n, k, b)
    else if !OwnsBlock(node) then None
    else if b == n then Some(At(node, k))
    else SpotInside(node, n, k, b)
  }

  function SpotInside(node: Node, n: nat, k: Cont, b: nat): Option<Config>
    decreases node, 0
  {
    match node.kind
    case Block(children) => SpotSeq(children, n + 1, k, b)
    case If(consequence, alternative) =>
      var middle := n + 1 + SizeOpt(consequence);
      if b < middle then SpotOpt(consequence, n + 1, k, b) else SpotOpt(alternative, middle, k, b)
    case While(_, body) =>
      if b == n + 1 then Some(Done(k)) else SpotOpt(body, n + 2, InLoop(node, k), b)
    case DoWhile(_, body) =>
      if b == n + 1 then Some(Done(k))
      else if b == n + 2 then Some(AtCondition(node, k))
      else SpotOpt(body, n + 3, InDo(node, k), b)
    case Switch(children) =>
      if b == n + 1 then Some(Done(k)) else SpotClauses(children, n + 2, InSwitch(k), b)
    case Clause(_, body) => SpotOpt(body, n + 1, k, b)
    case _ => None
  }

  function SpotSeq(nodes: seq<Node>, n: nat, k: Cont, b: nat): Option<Config>
    decreases nodes, 0
  {
    if nodes == [] then None
    else
      var middle := n + Size(nodes[0]);
      if b < middle then Spot(nodes[0], n, Then(nodes[1..], k), b) else SpotSeq(nodes[1..], middle, k, b)
  }

  function SpotClauses(children: seq<Node>, n: nat, k: Cont, b: nat): Option<Config>
    decreases children, 0
  {
    if children == [] then None
    else
      var middle := n + SizeClause(children[0]);
      if b < middle then SpotClause(children[0], n, k, b) else SpotClauses(children[1..], middle, k, b)
  }

  function SpotClause(child: Node, n: nat, k: Cont, b: nat): Option<Config>
    decreases child, 2
  {
    if child.kind.Clause? then Spot(child, n, k, b)
    else if child.kind.Region? && !child.inactive then SpotClauses(child.kind.children, n, k, b)
    else None
  }

  /** One step of the machine. A known condition only goes the way it evaluates. */
  ghost predicate Step(body: Node, c: Config, c': Config) {
    match c
    case Enter(None, k) => c' == Done(k)
    case Enter(Some(node), k) =>
      if node.inactive || node.kind.NotStatement? then c' == Done(k)
      else if node.kind.Region? then c' == Done(Then(node.kind.children, k))
      else !node.kind.Unclear? && c' == At(node, k)
    case At(node, k) => StepAt(body, node, k, c')
    case AtCondition(node, k) =>
      && node.kind.DoWhile?
      && ((node.kind.known != Some(false) && c' == Enter(node.kind.body, InDo(node, k)))
          || (node.kind.known != Some(true) && c' == Done(k)))
    case Done(Stop) => false
    case Done(Then(rest, next)) =>
      if rest == [] then c' == Done(next) else c' == Enter(Some(rest[0]), Then(rest[1..], next))
    case Done(InLoop(loop, next)) => c' == At(loop, next)
    case Done(InDo(loop, next)) => c' == AtCondition(loop, next)
    case Done(InSwitch(next)) => c' == Done(next)
    case Returned => false
  }

  ghost predicate StepAt(body: Node, node: Node, k: Cont, c': Config) {
    match node.kind
    case Block(children) => c' == Done(Then(children, k))
    case If(consequence, alternative) => c' == Enter(consequence, k) || c' == Enter(alternative, k)
    case While(known, inner) =>
      || (known != Some(false) && c' == Enter(inner, InLoop(node, k)))
      || (known != Some(true) && c' == Done(k))
    case DoWhile(_, inner) => c' == Enter(inner, InDo(node, k))
    case Switch(children) =>
      || (exists clause :: clause in Clauses(children) && c' == Enter(Some(clause), InSwitch(k)))
      || (!CatchesAll(Clauses(children)) && c' == Done(k))
    case Clause(_, inner) => c' == Enter(inner, k)
    case Return => c' == Returned
    case Goto(target) => target.Some? && Find(body, Stop, target.value) == Some(c')
    case Label(_) => c' == Done(k)
    case Break => AfterBreak(k) == Some(c')
    case Continue => AfterContinue(k) == Some(c')
    case Simple => c' == Done(k)
    case _ => false
  }

  ghost predicate IsRun(body: Node, run: seq<Config>) {
    && |run| > 0 && run[0] == Enter(Some(body), Stop)
    && forall i :: 0 < i < |run| ==> Step(body, run[i - 1], run[i])
  }

  // ----- Where control stands on the graph -----

  ghost function EdgePairs(edges: set<Edge>): Edges {
    set e | e in edges :: (e.from, e.to)
  }

  ghost predicate Leads(whole: Facts, from: nat, to: nat) {
    exists e :: e in whole.edges && e.from == from && e.to == to
  }

  ghost predicate AllLead(whole: Facts, from: set<nat>, to: nat) {
    forall b :: b in from ==> Leads(whole, b, to)
  }

  /** The tree sits in the graph with blocks from n, entered from some blocks and left from others. */
  ghost predicate Placed(whole: Facts, tree: Option<Node>, n: nat, incoming: set<nat>, t: Targets, exits: set<nat>) {
    var part := LayoutOpt(Mended, tree, n, incoming, t);
    part.facts.Within(whole) && part.exits <= exits
  }

  ghost predicate PlacedSeq(whole: Facts, nodes: seq<Node>, n: nat, incoming: set<nat>, t: Targets, exits: set<nat>) {
    var part := LayoutSeq(Mended, nodes, n, incoming, t);
    part.facts.Within(whole) && part.exits <= exits
  }

  /** A loop whose body is left to the given blocks and jumps to the given targets. */
  ghost predicate LoopFrame(
    whole: Facts, loop: Node, n: nat, incoming: set<nat>, outer: Targets, out: set<nat>, t: Targets)
  {
    && OwnsBlock(loop) && Placed(whole, Some(loop), n, incoming, outer, out)
    && t == Targets(Some(n + 1), Some(if loop.kind.DoWhile? then n + 2 else n))
  }

  ghost predicate BackEdges(whole: Facts, loop: Node, n: nat, last: set<nat>) {
    if loop.kind.DoWhile? then AllLead(whole, last, n + 2)
    else loop.kind.While? && AllLead(whole, last, n)
  }

  ghost predicate SwitchFrame(whole: Facts, s: nat, outer: Targets, out: set<nat>, last: set<nat>, t: Targets) {
    t == Targets(Some(s + 1), outer.continueTo) && AllLead(whole, last, s + 1) && s + 1 in out
  }

  /**
   From each of the blocks in `last`, with jump targets t, the graph goes on as the continuation
   says; `exits` are the blocks from which control falls off the end of the function.
   */
  ghost predicate Continues(whole: Facts, exits: set<nat>, k: Cont, last: set<nat>, t: Targets)
    decreases k
  {
    match k
    case Stop => last <= exits && t == Targets(None, None)
    case Then(rest, next) =>
      exists n: nat, incoming, out ::
        last <= incoming && PlacedSeq(whole, rest, n, incoming, t, out) && Continues(whole, exits, next, out, t)
    case InLoop(loop, next) =>
      exists n: nat, incoming, outer, out ::
        && LoopFrame(whole, loop, n, incoming, outer, out, t) && loop.kind.While? && BackEdges(whole, loop, n, last)
        && Continues(whole, exits, next, out, outer)
    case InDo(loop, next) =>
      exists n: nat, incoming, outer, out ::
        && LoopFrame(whole, loop, n, incoming, outer, out, t) && loop.kind.DoWhile? && BackEdges(whole, loop, n, last)
        && Continues(whole, exits, next, out, outer)
    case InSwitch(next) =>
      exists s: nat, outer, out ::
        SwitchFrame(whole, s, outer, out, last, t) && Continues(whole, exits, next, out, outer)
  }

  ghost predicate Entered(whole: Facts, tree: Option<Node>, n: nat, incoming: set<nat>, b: nat) {
    b in incoming || (tree.Some? && OwnsBlock(tree.value) && Leads(whole, b, n))
  }

  /** Control in this configuration is at block b. */
  ghost predicate Stands(whole: Facts, exits: set<nat>, c: Config, b: nat) {
    match c
    case Enter(tree, k) =>
      exists n: nat, incoming, t, out ::
        Placed(whole, tree, n, incoming, t, out) && Entered(whole, tree, n, incoming, b)
            && Continues(whole, exits, k, out, t)
    case At(node, k) =>
      OwnsBlock(node) && exists incoming, t, out ::
        Placed(whole, Some(node), b, incoming, t, out) && Continues(whole, exits, k, out, t)
    case AtCondition(node, k) =>
      OwnsBlock(node) && node.kind.DoWhile? && exists n: nat, incoming, t, out ::
        && b == n + 2 && Placed(whole, Some(node), n, incoming, t, out) && Continues(whole, exits, k, out, t)
    case Done(k) =>
      exists last, t :: b in last && Continues(whole, exits, k, last, t)
    case Returned => b == 1
  }

  // ----- One step -----

  /** One step keeps to the graph: control stays on its block or follows one edge. */
  ghost predicate Follows(whole: Facts, exits: set<nat>, b: nat, c': Config, b': nat) {
    Stands(whole, exits, c', b') && (b' == b || Leads(whole, b, b'))
  }

  lemma OwnWithin(whole: Facts, node: Node, n: nat, incoming: set<nat>, t: Targets)
    requires OwnsBlock(node) && Layout(Mended, node, n, incoming, t).facts.Within(whole)
    ensures EdgesTo(incoming, n, Normal) <= whole.edges && (node.id, n) in whole.blocks
  {
  }

  lemma EdgeLeads(whole: Facts, from: nat, to: nat, kind: EdgeKind)
    requires Edge(from, to, kind) in whole.edges
    ensures Leads(whole, from, to)
  {
  }

  lemma EdgesLead(whole: Facts, from: set<nat>, to: nat, kind: EdgeKind)
    requires EdgesTo(from, to, kind) <= whole.edges
    ensures AllLead(whole, from, to)
  {
    forall b | b in from ensures Leads(whole, b, to) {
      assert Edge(b, to, kind) in EdgesTo(from, to, kind);
    }
  }

  lemma StepIntoTree(whole: Facts, exits: set<nat>, body: Node, node: Node, k: Cont, c': Config, b: nat)
      returns (b': nat)
    requires Stands(whole, exits, Enter(Some(node), k), b) && Step(body, Enter(Some(node), k), c')
    ensures Follows(whole, exits, b, c', b')
  {
    hide Continues;
    var n: nat, incoming, t, out :| Placed(whole, Some(node), n, incoming, t, out)
      && Entered(whole, Some(node), n, incoming, b) && Continues(whole, exits, k, out, t);
    var part := Layout(Mended, node, n, incoming, t);
    if node.inactive || node.kind.NotStatement? {
      assert part == Part(n, incoming, NO_FACTS);
      return b;
    } else if node.kind.Region? {
      assert part == LayoutSeq(Mended, node.kind.children, n, incoming, t);
      assert PlacedSeq(whole, node.kind.children, n, incoming, t, out);
      ContinuesWithSequence(whole, exits, node.kind.children, k, incoming, t, n, incoming, out);
      return b;
    } else {
      if b in incoming {
        assert Edge(b, n, Normal) in EdgesTo(incoming, n, Normal);
        OwnWithin(whole, node, n, incoming, t);
      }
      return n;
    }
  }

  lemma ContinuesWithSequence(whole: Facts, exits: set<nat>, rest: seq<Node>, k: Cont, last: set<nat>, t: Targets,
                              n: nat, incoming: set<nat>, out: set<nat>)
    requires last <= incoming && PlacedSeq(whole, rest, n, incoming, t, out) && Continues(whole, exits, k, out, t)
    ensures Continues(whole, exits, Then(rest, k), last, t)
  {
    hide PlacedSeq;
  }

  lemma StepThroughSequence(whole: Facts, exits: set<nat>, rest: seq<Node>, k: Cont, b: nat)
    requires Stands(whole, exits, Done(Then(rest, k)), b)
    ensures rest == [] ==> Stands(whole, exits, Done(k), b)
    ensures rest != [] ==> Stands(whole, exits, Enter(Some(rest[0]), Then(rest[1..], k)), b)
  {
    var last, t :| b in last && Continues(whole, exits, Then(rest, k), last, t);
    var n: nat, incoming, out :|
      last <= incoming && PlacedSeq(whole, rest, n, incoming, t, out) && Continues(whole, exits, k, out, t);
    if rest == [] {
      assert b in out;
    } else {
      hide Continues;
      var first := Layout(Mended, rest[0], n, incoming, t);
      assert LayoutOpt(Mended, Some(rest[0]), n, incoming, t) == first;
      var others := LayoutSeq(Mended, rest[1..], first.next, first.exits, t);
      assert LayoutSeq(Mended, rest, n, incoming, t) == Part(others.next, others.exits, first.facts.Plus(others.facts));
      assert Placed(whole, Some(rest[0]), n, incoming, t, first.exits);
      assert PlacedSeq(whole, rest[1..], first.next, first.exits, t, out);
      ContinuesWithSequence(whole, exits, rest[1..], k, first.exits, t, first.next, first.exits, out);
    }
  }

  // ----- Steps of single statements -----

  /** A statement at its own block, with what surrounds it. */
  ghost predicate Sits(
    whole: Facts, exits: set<nat>, node: Node, k: Cont, b: nat, incoming: set<nat>, t: Targets, out: set<nat>)
  {
    && OwnsBlock(node) && Placed(whole, Some(node), b, incoming, t, out) && Continues(whole, exits, k, out, t)
    && Layout(Mended, node, b, incoming, t).facts.Within(whole) && Layout(Mended, node, b, incoming, t).exits <= out
  }

  lemma SitsDown(whole: Facts, exits: set<nat>, node: Node, k: Cont, b: nat)
    returns (incoming: set<nat>, t: Targets, out: set<nat>)
    requires Stands(whole, exits, At(node, k), b)
    ensures Sits(whole, exits, node, k, b, incoming, t, out)
  {
    hide Continues;
    incoming, t, out :| Placed(whole, Some(node), b, incoming, t, out) && Continues(whole, exits, k, out, t);
    assert LayoutOpt(Mended, Some(node), b, incoming, t) == Layout(Mended, node, b, incoming, t);
  }

  lemma EntersAt(whole: Facts, exits: set<nat>, tree: Option<Node>, k: Cont, b: nat,
                 n: nat, incoming: set<nat>, t: Targets, out: set<nat>)
    requires Placed(whole, tree, n, incoming, t, out) && Entered(whole, tree, n, incoming, b)
    requires Continues(whole, exits, k, out, t)
    ensures Stands(whole, exits, Enter(tree, k), b)
  {
    hide Placed, Entered, Continues;
  }

  lemma DoneAt(whole: Facts, exits: set<nat>, k: Cont, b: nat, last: set<nat>, t: Targets)
    requires b in last && Continues(whole, exits, k, last, t)
    ensures Stands(whole, exits, Done(k), b)
  {
    hide Continues;
  }

  lemma StepBlock(whole: Facts, exits: set<nat>, node: Node, k: Cont, b: nat)
    requires Stands(whole, exits, At(node, k), b) && node.kind.Block?
    ensures Stands(whole, exits, Done(Then(node.kind.children, k)), b)
  {
    hide Continues, Stands;
    var incoming, t, out := SitsDown(whole, exits, node, k, b);
    assert PlacedSeq(whole, node.kind.children, b + 1, {b}, t, out);
    ContinuesWithSequence(whole, exits, node.kind.children, k, {b}, t, b + 1, {b}, out);
    DoneAt(whole, exits, Then(node.kind.children, k), b, {b}, t);
  }

  lemma StepIf(whole: Facts, exits: set<nat>, node: Node, k: Cont, b: nat)
    requires Stands(whole, exits, At(node, k), b) && node.kind.If?
    ensures Stands(whole, exits, Enter(node.kind.consequence, k), b)
    ensures Stands(whole, exits, Enter(node.kind.alternative, k), b)
  {
    hide Continues, Stands;
    var incoming, t, out := SitsDown(whole, exits, node, k, b);
    var yes := LayoutOpt(Mended, node.kind.consequence, b + 1, {b}, t);
    assert Placed(whole, node.kind.consequence, b + 1, {b}, t, out);
    assert Placed(whole, node.kind.alternative, yes.next, {b}, t, out);
    EntersAt(whole, exits, node.kind.consequence, k, b, b + 1, {b}, t, out);
    EntersAt(whole, exits, node.kind.alternative, k, b, yes.next, {b}, t, out);
  }

  lemma StepClause(whole: Facts, exits: set<nat>, node: Node, k: Cont, b: nat)
    requires Stands(whole, exits, At(node, k), b) && node.kind.Clause?
    ensures Stands(whole, exits, Enter(node.kind.body, k), b)
  {
    hide Continues, Stands;
    var incoming, t, out := SitsDown(whole, exits, node, k, b);
    assert Placed(whole, node.kind.body, b + 1, {b}, t, out);
    EntersAt(whole, exits, node.kind.body, k, b, b + 1, {b}, t, out);
  }

  lemma StepOver(whole: Facts, exits: set<nat>, node: Node, k: Cont, b: nat)
    requires Stands(whole, exits, At(node, k), b) && (node.kind.Label? || node.kind.Simple?)
    ensures Stands(whole, exits, Done(k), b)
  {
    hide Continues, Stands;
    var incoming, t, out := SitsDown(whole, exits, node, k, b);
    DoneAt(whole, exits, k, b, out, t);
  }

  lemma StepReturn(whole: Facts, exits: set<nat>, node: Node, k: Cont, b: nat)
    requires Stands(whole, exits, At(node, k), b) && node.kind.Return?
    ensures Leads(whole, b, 1)
  {
    hide Continues, Stands;
    var incoming, t, out := SitsDown(whole, exits, node, k, b);
    EdgeLeads(whole, b, 1, ReturnEdge);
  }

  // ----- Loops -----

  lemma ContinuesWithWhile(whole: Facts, exits: set<nat>, loop: Node, k: Cont, last: set<nat>, t: Targets,
                           n: nat, incoming: set<nat>, outer: Targets, out: set<nat>)
    requires LoopFrame(whole, loop, n, incoming, outer, out, t) && loop.kind.While? && BackEdges(whole, loop, n, last)
    requires Continues(whole, exits, k, out, outer)
    ensures Continues(whole, exits, InLoop(loop, k), last, t)
  {
    hide LoopFrame, BackEdges;
  }

  lemma ContinuesWithDo(whole: Facts, exits: set<nat>, loop: Node, k: Cont, last: set<nat>, t: Targets,
                        n: nat, incoming: set<nat>, outer: Targets, out: set<nat>)
    requires LoopFrame(whole, loop, n, incoming, outer, out, t) && loop.kind.DoWhile? && BackEdges(whole, loop, n, last)
    requires Continues(whole, exits, k, out, outer)
    ensures Continues(whole, exits, InDo(loop, k), last, t)
  {
    hide LoopFrame, BackEdges;
  }

  /** The body of a loop sits in the graph, and what follows it there is the loop again. */
  lemma InsideWhile(whole: Facts, exits: set<nat>, node: Node, k: Cont, b: nat, incoming: set<nat>, t: Targets,
      out: set<nat>)
    returns (inside: Targets, last: set<nat>)
    requires Sits(whole, exits, node, k, b, incoming, t, out) && node.kind.While?
    ensures inside == Targets(Some(b + 1), Some(b))
    ensures Placed(whole, node.kind.body, b + 2, if node.kind.known == Some(false) then {} else {b}, inside, last)
    ensures Continues(whole, exits, InLoop(node, k), last, inside)
  {
    hide Continues;
    var into := if node.kind.known == Some(false) then {} else {b};
    inside := Targets(Some(b + 1), Some(b));
    last := LayoutOpt(Mended, node.kind.body, b + 2, into, inside).exits;
    EdgesLead(whole, last, b, Jump);
    ContinuesWithWhile(whole, exits, node, k, last, inside, b, incoming, t, out);
  }

  lemma InsideDo(whole: Facts, exits: set<nat>, node: Node, k: Cont, b: nat, incoming: set<nat>, t: Targets,
      out: set<nat>)
    returns (inside: Targets, last: set<nat>)
    requires Sits(whole, exits, node, k, b, incoming, t, out) && node.kind.DoWhile?
    ensures inside == Targets(Some(b + 1), Some(b + 2))
    ensures Placed(whole, node.kind.body, b + 3, DoEntries(Mended, node.kind.known, b), inside, last)
    ensures Continues(whole, exits, InDo(node, k), last, inside)
  {
    hide Continues;
    inside := Targets(Some(b + 1), Some(b + 2));
    last := LayoutOpt(Mended, node.kind.body, b + 3, DoEntries(Mended, node.kind.known, b), inside).exits;
    EdgesLead(whole, last, b + 2, Jump);
    ContinuesWithDo(whole, exits, node, k, last, inside, b, incoming, t, out);
  }

  lemma StepWhileIn(whole: Facts, exits: set<nat>, node: Node, k: Cont, b: nat)
    requires Stands(whole, exits, At(node, k), b) && node.kind.While? && node.kind.known != Some(false)
    ensures Stands(whole, exits, Enter(node.kind.body, InLoop(node, k)), b)
  {
    hide Continues, Stands, Sits, Placed;
    var incoming, t, out := SitsDown(whole, exits, node, k, b);
    var inside, last := InsideWhile(whole, exits, node, k, b, incoming, t, out);
    EntersAt(whole, exits, node.kind.body, InLoop(node, k), b, b + 2, {b}, inside, last);
  }

  lemma StepWhileOut(whole: Facts, exits: set<nat>, node: Node, k: Cont, b: nat)
    requires Stands(whole, exits, At(node, k), b) && node.kind.While? && node.kind.known != Some(true)
    ensures Follows(whole, exits, b, Done(k), b + 1)
  {
    hide Continues, Stands;
    var incoming, t, out := SitsDown(whole, exits, node, k, b);
    EdgeLeads(whole, b, b + 1, EdgeKind.Branch);
    DoneAt(whole, exits, k, b + 1, out, t);
  }

  lemma StepWhileAgain(whole: Facts, exits: set<nat>, loop: Node, k: Cont, b: nat) returns (b': nat)
    requires Stands(whole, exits, Done(InLoop(loop, k)), b)
    ensures Follows(whole, exits, b, At(loop, k), b')
  {
    var last, t :| b in last && Continues(whole, exits, InLoop(loop, k), last, t);
    var n: nat, incoming, outer, out :|
      LoopFrame(whole, loop, n, incoming, outer, out, t) && loop.kind.While? && BackEdges(whole, loop, n, last)
      && Continues(whole, exits, k, out, outer);
    hide Continues;
    b' := n;
  }

  lemma StepDoIn(whole: Facts, exits: set<nat>, node: Node, k: Cont, b: nat)
    requires Stands(whole, exits, At(node, k), b) && node.kind.DoWhile?
    ensures Stands(whole, exits, Enter(node.kind.body, InDo(node, k)), b)
  {
    hide Continues, Stands, Sits, Placed;
    var incoming, t, out := SitsDown(whole, exits, node, k, b);
    var inside, last := InsideDo(whole, exits, node, k, b, incoming, t, out);
    EntersAt(whole, exits, node.kind.body, InDo(node, k), b, b + 3, DoEntries(Mended, node.kind.known, b), inside,
        last);
  }

  lemma StepDoBodyDone(whole: Facts, exits: set<nat>, loop: Node, k: Cont, b: nat) returns (b': nat)
    requires Stands(whole, exits, Done(InDo(loop, k)), b)
    ensures Follows(whole, exits, b, AtCondition(loop, k), b')
  {
    var last, t :| b in last && Continues(whole, exits, InDo(loop, k), last, t);
    var n: nat, incoming, outer, out :|
      LoopFrame(whole, loop, n, incoming, outer, out, t) && loop.kind.DoWhile? && BackEdges(whole, loop, n, last)
      && Continues(whole, exits, k, out, outer);
    hide Continues;
    b' := n + 2;
  }

  lemma StepDoAgain(whole: Facts, exits: set<nat>, node: Node, k: Cont, b: nat)
    requires Stands(whole, exits, AtCondition(node, k), b) && node.kind.known != Some(false)
    ensures Stands(whole, exits, Enter(node.kind.body, InDo(node, k)), b)
  {
    hide Continues;
    var n: nat, incoming, t, out :|
      b == n + 2 && Placed(whole, Some(node), n, incoming, t, out) && Continues(whole, exits, k, out, t);
    assert LayoutOpt(Mended, Some(node), n, incoming, t) == Layout(Mended, node, n, incoming, t);
    var inside, last := InsideDo(whole, exits, node, k, n, incoming, t, out);
    EntersAt(whole, exits, node.kind.body, InDo(node, k), b, n + 3, DoEntries(Mended, node.kind.known, n), inside,
        last);
  }

  lemma StepDoOut(whole: Facts, exits: set<nat>, node: Node, k: Cont, b: nat) returns (b': nat)
    requires Stands(whole, exits, AtCondition(node, k), b) && node.kind.known != Some(true)
    ensures Follows(whole, exits, b, Done(k), b')
  {
    hide Continues;
    var n: nat, incoming, t, out :|
      b == n + 2 && Placed(whole, Some(node), n, incoming, t, out) && Continues(whole, exits, k, out, t);
    assert LayoutOpt(Mended, Some(node), n, incoming, t) == Layout(Mended, node, n, incoming, t);
    b' := n + 1;
    EdgeLeads(whole, b, b', EdgeKind.Branch);
    DoneAt(whole, exits, k, b', out, t);
  }

  // ----- Break and continue -----

  lemma {:induction false} BreakStands(whole: Facts, exits: set<nat>, k: Cont, last: set<nat>, t: Targets, c': Config)
    requires Continues(whole, exits, k, last, t) && AfterBreak(k) == Some(c')
    ensures t.breakTo.Some? && Stands(whole, exits, c', t.breakTo.value)
    decreases k
  {
    match k
    case Stop =>
    case Then(rest, next) =>
      var n: nat, incoming, out :|
        last <= incoming && PlacedSeq(whole, rest, n, incoming, t, out) && Continues(whole, exits, next, out, t);
      BreakStands(whole, exits, next, out, t, c');
    case InLoop(loop, next) =>
      var n: nat, incoming, outer, out :|
        LoopFrame(whole, loop, n, incoming, outer, out, t) && loop.kind.While? && BackEdges(whole, loop, n, last)
        && Continues(whole, exits, next, out, outer);
      assert LayoutOpt(Mended, Some(loop), n, incoming, outer) == Layout(Mended, loop, n, incoming, outer);
      DoneAt(whole, exits, next, n + 1, out, outer);
    case InDo(loop, next) =>
      var n: nat, incoming, outer, out :|
        LoopFrame(whole, loop, n, incoming, outer, out, t) && loop.kind.DoWhile? && BackEdges(whole, loop, n, last)
        && Continues(whole, exits, next, out, outer);
      assert LayoutOpt(Mended, Some(loop), n, incoming, outer) == Layout(Mended, loop, n, incoming, outer);
      DoneAt(whole, exits, next, n + 1, out, outer);
    case InSwitch(next) =>
      var s: nat, outer, out :|
        SwitchFrame(whole, s, outer, out, last, t) && Continues(whole, exits, next, out, outer);
      DoneAt(whole, exits, next, s + 1, out, outer);
  }

  lemma {:induction false} ContinueStands(whole: Facts, exits: set<nat>, k: Cont, last: set<nat>, t: Targets,
      c': Config)
    requires Continues(whole, exits, k, last, t) && AfterContinue(k) == Some(c')
    ensures t.continueTo.Some? && Stands(whole, exits, c', t.continueTo.value)
    decreases k
  {
    match k
    case Stop =>
    case Then(rest, next) =>
      var n: nat, incoming, out :|
        last <= incoming && PlacedSeq(whole, rest, n, incoming, t, out) && Continues(whole, exits, next, out, t);
      ContinueStands(whole, exits, next, out, t, c');
    case InLoop(loop, next) =>
      var n: nat, incoming, outer, out :|
        LoopFrame(whole, loop, n, incoming, outer, out, t) && loop.kind.While? && BackEdges(whole, loop, n, last)
        && Continues(whole, exits, next, out, outer);
    case InDo(loop, next) =>
      var n: nat, incoming, outer, out :|
        LoopFrame(whole, loop, n, incoming, outer, out, t) && loop.kind.DoWhile? && BackEdges(whole, loop, n, last)
        && Continues(whole, exits, next, out, outer);
    case InSwitch(next) =>
      var s: nat, outer, out :|
        SwitchFrame(whole, s, outer, out, last, t) && Continues(whole, exits, next, out, outer);
      ContinueStands(whole, exits, next, out, outer, c');
  }

  lemma StepJumpOut(whole: Facts, exits: set<nat>, node: Node, k: Cont, c': Config, b: nat) returns (b': nat)
    requires Stands(whole, exits, At(node, k), b)
    requires (node.kind.Break? && AfterBreak(k) == Some(c')) || (node.kind.Continue? && AfterContinue(k) == Some(c'))
    ensures Follows(whole, exits, b, c', b')
  {
    hide Continues, Stands;
    var incoming, t, out := SitsDown(whole, exits, node, k, b);
    if node.kind.Break? {
      BreakStands(whole, exits, k, out, t, c');
      b' := t.breakTo.value;
    } else {
      ContinueStands(whole, exits, k, out, t, c');
      b' := t.continueTo.value;
    }
    EdgeLeads(whole, b, b', Jump);
  }

  // ----- Switches -----

  lemma {:induction false} ClausesPlaced(whole: Facts, children: seq<Node>, s: nat, n: nat, continueTo: Option<nat>,
      clause: Node)
    returns (m: nat)
    requires LayoutClauses(Mended, children, s, n, continueTo).facts.Within(whole) && clause in Clauses(children)
    ensures var part := Layout(Mended, clause, m, {s}, Targets(Some(s + 1), continueTo));
      part.facts.Within(whole) && AllLead(whole, part.exits, s + 1)
    decreases children, 0
  {
    var first := LayoutClause(Mended, children[0], s, n, continueTo);
    if clause in ClausesOf(children[0]) {
      m := ClausePlaced(whole, children[0], s, n, continueTo, clause);
    } else {
      m := ClausesPlaced(whole, children[1..], s, first.next, continueTo, clause);
    }
  }

  lemma {:induction false} ClausePlaced(whole: Facts, child: Node, s: nat, n: nat, continueTo: Option<nat>,
      clause: Node)
    returns (m: nat)
    requires LayoutClause(Mended, child, s, n, continueTo).facts.Within(whole) && clause in ClausesOf(child)
    ensures var part := Layout(Mended, clause, m, {s}, Targets(Some(s + 1), continueTo));
      part.facts.Within(whole) && AllLead(whole, part.exits, s + 1)
    decreases child, 1
  {
    if child.kind.Clause? {
      m := n;
      EdgesLead(whole, Layout(Mended, child, n, {s}, Targets(Some(s + 1), continueTo)).exits, s + 1, EdgeKind.Branch);
    } else {
      m := ClausesPlaced(whole, child.kind.children, s, n, continueTo, clause);
    }
  }

  lemma ContinuesWithSwitch(whole: Facts, exits: set<nat>, k: Cont, last: set<nat>, t: Targets,
                            s: nat, outer: Targets, out: set<nat>)
    requires SwitchFrame(whole, s, outer, out, last, t) && Continues(whole, exits, k, out, outer)
    ensures Continues(whole, exits, InSwitch(k), last, t)
  {
    hide SwitchFrame;
  }

  lemma StepSwitchIn(whole: Facts, exits: set<nat>, node: Node, k: Cont, clause: Node, b: nat)
    requires Stands(whole, exits, At(node, k), b) && node.kind.Switch? && clause in Clauses(node.kind.children)
    ensures Stands(whole, exits, Enter(Some(clause), InSwitch(k)), b)
  {
    hide Continues, Stands;
    var incoming, t, out := SitsDown(whole, exits, node, k, b);
    var inside := Targets(Some(b + 1), t.continueTo);
    var m := ClausesPlaced(whole, node.kind.children, b, b + 2, t.continueTo, clause);
    var part := Layout(Mended, clause, m, {b}, inside);
    assert LayoutOpt(Mended, Some(clause), m, {b}, inside) == part;
    assert Placed(whole, Some(clause), m, {b}, inside, part.exits);
    ContinuesWithSwitch(whole, exits, k, part.exits, inside, b, t, out);
    EntersAt(whole, exits, Some(clause), InSwitch(k), b, m, {b}, inside, part.exits);
  }

  lemma StepSwitchOut(whole: Facts, exits: set<nat>, node: Node, k: Cont, b: nat)
    requires Stands(whole, exits, At(node, k), b) && node.kind.Switch? && !CatchesAll(Clauses(node.kind.children))
    ensures Follows(whole, exits, b, Done(k), b + 1)
  {
    hide Continues, Stands;
    var incoming, t, out := SitsDown(whole, exits, node, k, b);
    EdgeLeads(whole, b, b + 1, EdgeKind.Branch);
    DoneAt(whole, exits, k, b + 1, out, t);
  }

  lemma StepSwitchDone(whole: Facts, exits: set<nat>, k: Cont, b: nat) returns (b': nat)
    requires Stands(whole, exits, Done(InSwitch(k)), b)
    ensures Follows(whole, exits, b, Done(k), b')
  {
    var last, t :| b in last && Continues(whole, exits, InSwitch(k), last, t);
    var s: nat, outer, out :| SwitchFrame(whole, s, outer, out, last, t) && Continues(whole, exits, k, out, outer);
    b' := s + 1;
    DoneAt(whole, exits, k, b', out, outer);
  }

  // ----- Jumps to labels -----

  /** Where the labels of a piece of tree are, and what a search for a name that fails says about them. */
  ghost predicate LabelsFit(part: Part, n: nat, size: nat, name: string, found: bool) {
    && part.next == n + size
    && (forall l :: l in part.facts.labels ==> n <= l.1 < part.next)
    && (!found ==> forall l :: l in part.facts.labels ==> l.0 != name)
  }

  lemma {:induction false} LabelsLieOpt(tree: Option<Node>, k: Cont, name: string, n: nat, incoming: set<nat>,
      t: Targets)
    ensures LabelsFit(LayoutOpt(Mended, tree, n, incoming, t), n, SizeOpt(tree), name, FindOpt(tree, k, name).Some?)
    decreases tree, 2
  {
    if tree.Some? {
      LabelsLie(tree.value, k, name, n, incoming, t);
    }
  }

  lemma {:induction false} LabelsLie(node: Node, k: Cont, name: string, n: nat, incoming: set<nat>, t: Targets)
    ensures LabelsFit(Layout(Mended, node, n, incoming, t), n, Size(node), name, Find(node, k, name).Some?)
    decreases node, 1
  {
    if !node.inactive {
      match node.kind
      case Region(children) => LabelsLieSeq(children, k, name, n, incoming, t);
      case Block(_) => LabelsLieWithin(node, k, name, n, incoming, t);
      case If(_, _) => LabelsLieIf(node, k, name, n, incoming, t);
      case While(_, _) => LabelsLieLoop(node, k, name, n, incoming, t);
      case DoWhile(_, _) => LabelsLieLoop(node, k, name, n, incoming, t);
      case Switch(_) => LabelsLieWithin(node, k, name, n, incoming, t);
      case Clause(_, _) => LabelsLieWithin(node, k, name, n, incoming, t);
      case _ =>
    }
  }

  lemma {:induction false} LabelsLieWithin(node: Node, k: Cont, name: string, n: nat, incoming: set<nat>, t: Targets)
    requires OwnsBlock(node) && (node.kind.Block? || node.kind.Switch? || node.kind.Clause?)
    ensures LabelsFit(Layout(Mended, node, n, incoming, t), n, Size(node), name, Find(node, k, name).Some?)
    decreases node, 0
  {
    match node.kind
    case Block(children) => LabelsLieSeq(children, k, name, n + 1, {n}, t);
    case Switch(children) => LabelsLieClauses(children, InSwitch(k), name, n, n + 2, t.continueTo);
    case Clause(_, body) => LabelsLieOpt(body, k, name, n + 1, {n}, t);
  }

  lemma {:induction false} LabelsLieIf(node: Node, k: Cont, name: string, n: nat, incoming: set<nat>, t: Targets)
    requires OwnsBlock(node) && node.kind.If?
    ensures LabelsFit(Layout(Mended, node, n, incoming, t), n, Size(node), name, Find(node, k, name).Some?)
    decreases node, 0
  {
    LabelsLieOpt(node.kind.consequence, k, name, n + 1, {n}, t);
    LabelsLieOpt(node.kind.alternative, k, name, LayoutOpt(Mended, node.kind.consequence, n + 1, {n}, t).next, {n}, t);
  }

  lemma {:induction false} LabelsLieLoop(node: Node, k: Cont, name: string, n: nat, incoming: set<nat>, t: Targets)
    requires OwnsBlock(node) && (node.kind.While? || node.kind.DoWhile?)
    ensures LabelsFit(Layout(Mended, node, n, incoming, t), n, Size(node), name, Find(node, k, name).Some?)
    decreases node, 0
  {
    var known, body := node.kind.known, node.kind.body;
    if node.kind.While? {
      var into := if known == Some(false) then {} else {n};
      LabelsLieOpt(body, InLoop(node, k), name, n + 2, into, Targets(Some(n + 1), Some(n)));
    } else {
      LabelsLieOpt(body, InDo(node, k), name, n + 3, DoEntries(Mended, known, n), Targets(Some(n + 1), Some(n + 2)));
    }
  }

  lemma {:induction false} LabelsLieSeq(nodes: seq<Node>, k: Cont, name: string, n: nat, incoming: set<nat>, t: Targets)
    ensures LabelsFit(LayoutSeq(Mended, nodes, n, incoming, t), n, SizeSeq(nodes), name, FindSeq(nodes, k, name).Some?)
    decreases nodes, 0
  {
    if nodes != [] {
      var first := Layout(Mended, nodes[0], n, incoming, t);
      LabelsLie(nodes[0], Then(nodes[1..], k), name, n, incoming, t);
      LabelsLieSeq(nodes[1..], k, name, first.next, first.exits, t);
    }
  }

  lemma {:induction false} LabelsLieClauses(children: seq<Node>, k: Cont, name: string, s: nat, n: nat,
      continueTo: Option<nat>)
    ensures LabelsFit(LayoutClauses(Mended, children, s, n, continueTo), n, SizeClauses(children), name,
      FindClauses(children, k, name).Some?)
    decreases children, 0
  {
    if children != [] {
      LabelsLieClause(children[0], k, name, s, n, continueTo);
      LabelsLieClauses(children[1..], k, name, s, LayoutClause(Mended, children[0], s, n, continueTo).next, continueTo);
    }
  }

  lemma {:induction false} LabelsLieClause(child: Node, k: Cont, name: string, s: nat, n: nat, continueTo: Option<nat>)
    ensures LabelsFit(LayoutClause(Mended, child, s, n, continueTo), n, SizeClause(child), name,
      FindClause(child, k, name).Some?)
    decreases child, 2
  {
    if child.kind.Clause? {
      LabelsLie(child, k, name, n, {s}, Targets(Some(s + 1), continueTo));
    } else if child.kind.Region? && !child.inactive {
      LabelsLieClauses(child.kind.children, k, name, s, n, continueTo);
    }
  }

  lemma FirstOfBoth(a: set<(string, nat)>, b: set<(string, nat)>, middle: nat, name: string, m: nat)
    requires (IsFirst(a, name, m) && forall l :: l in a ==> l.1 < middle)
             || (IsFirst(b, name, m) && forall l :: l in a ==> l.0 != name)
    requires forall l :: l in b ==> middle <= l.1
    ensures IsFirst(a + b, name, m)
  {
  }

  lemma {:induction false} FindStandsOpt(whole: Facts, exits: set<nat>, tree: Option<Node>, k: Cont, name: string,
                                         n: nat, incoming: set<nat>, t: Targets, out: set<nat>) returns (m: nat)
    requires Placed(whole, tree, n, incoming, t, out) && Continues(whole, exits, k, out, t)
    requires FindOpt(tree, k, name).Some?
    ensures Stands(whole, exits, FindOpt(tree, k, name).value, m)
    ensures IsFirst(LayoutOpt(Mended, tree, n, incoming, t).facts.labels, name, m)
    ensures n <= m < n + SizeOpt(tree) && SpotOpt(tree, n, k, m) == FindOpt(tree, k, name)
    decreases tree, 2
  {
    hide Continues, Stands;
    m := FindStands(whole, exits, tree.value, k, name, n, incoming, t, out);
  }

  /** A label is found where the layout first recorded its name. */
  lemma {:induction false} FindStands(whole: Facts, exits: set<nat>, node: Node, k: Cont, name: string,
                                      n: nat, incoming: set<nat>, t: Targets, out: set<nat>) returns (m: nat)
    requires Placed(whole, Some(node), n, incoming, t, out) && Continues(whole, exits, k, out, t)
    requires Find(node, k, name).Some?
    ensures Stands(whole, exits, Find(node, k, name).value, m)
    ensures IsFirst(Layout(Mended, node, n, incoming, t).facts.labels, name, m)
    ensures n <= m < n + Size(node) && Spot(node, n, k, m) == Find(node, k, name)
    decreases node, 1
  {
    hide Continues, Stands, LoopFrame, BackEdges, SwitchFrame, AllLead;
    assert LayoutOpt(Mended, Some(node), n, incoming, t) == Layout(Mended, node, n, incoming, t);
    match node.kind
    case Region(children) =>
      m := FindStandsSeq(whole, exits, children, k, name, n, incoming, t, out);
    case Block(_) =>
      m := FindStandsWithin(whole, exits, node, k, name, n, incoming, t, out);
    case If(consequence, alternative) =>
      m := FindStandsIf(whole, exits, node, k, name, n, incoming, t, out);
    case While(_, _) =>
      m := FindStandsLoop(whole, exits, node, k, name, n, incoming, t, out);
    case DoWhile(_, _) =>
      m := FindStandsLoop(whole, exits, node, k, name, n, incoming, t, out);
    case Switch(_) =>
      m := FindStandsWithin(whole, exits, node, k, name, n, incoming, t, out);
    case Clause(_, _) =>
      m := FindStandsWithin(whole, exits, node, k, name, n, incoming, t, out);
    case Label(_) =>
      m := n;
      assert Stands(whole, exits, At(node, k), n) by { StatementStands(whole, exits, node, k, n, incoming, t, out); }
    case _ =>
  }

  lemma {:induction false} FindStandsWithin(whole: Facts, exits: set<nat>, node: Node, k: Cont, name: string,
                                            n: nat, incoming: set<nat>, t: Targets, out: set<nat>) returns (m: nat)
    requires Placed(whole, Some(node), n, incoming, t, out) && Continues(whole, exits, k, out, t)
    requires (node.kind.Block? || node.kind.Switch? || node.kind.Clause?) && Find(node, k, name).Some?
    ensures Stands(whole, exits, Find(node, k, name).value, m)
    ensures IsFirst(Layout(Mended, node, n, incoming, t).facts.labels, name, m)
    ensures n <= m < n + Size(node) && Spot(node, n, k, m) == Find(node, k, name)
    decreases node, 0
  {
    hide Continues, Stands;
    assert LayoutOpt(Mended, Some(node), n, incoming, t) == Layout(Mended, node, n, incoming, t);
    match node.kind
    case Block(children) => m := FindStandsSeq(whole, exits, children, k, name, n + 1, {n}, t, out);
    case Switch(children) => m := FindStandsClauses(whole, exits, children, k, name, n, n + 2, t, out);
    case Clause(_, body) => m := FindStandsOpt(whole, exits, body, k, name, n + 1, {n}, t, out);
  }

  lemma {:induction false} FindStandsLoop(whole: Facts, exits: set<nat>, node: Node, k: Cont, name: string,
                                          n: nat, incoming: set<nat>, t: Targets, out: set<nat>) returns (m: nat)
    requires Placed(whole, Some(node), n, incoming, t, out) && Continues(whole, exits, k, out, t)
    requires (node.kind.While? || node.kind.DoWhile?) && Find(node, k, name).Some?
    ensures Stands(whole, exits, Find(node, k, name).value, m)
    ensures IsFirst(Layout(Mended, node, n, incoming, t).facts.labels, name, m)
    ensures n <= m < n + Size(node) && Spot(node, n, k, m) == Find(node, k, name)
    decreases node, 0
  {
    hide Continues, Stands;
    assert LayoutOpt(Mended, Some(node), n, incoming, t) == Layout(Mended, node, n, incoming, t);
    var known, body := node.kind.known, node.kind.body;
    if node.kind.While? {
      var inside, last := InsideWhile(whole, exits, node, k, n, incoming, t, out);
      var into := if known == Some(false) then {} else {n};
      m := FindStandsOpt(whole, exits, body, InLoop(node, k), name, n + 2, into, inside, last);
    } else {
      var inside, last := InsideDo(whole, exits, node, k, n, incoming, t, out);
      m := FindStandsOpt(whole, exits, body, InDo(node, k), name, n + 3, DoEntries(Mended, known, n), inside, last);
    }
  }

  lemma {:induction false} FindStandsIf(whole: Facts, exits: set<nat>, node: Node, k: Cont, name: string,
                                        n: nat, incoming: set<nat>, t: Targets, out: set<nat>) returns (m: nat)
    requires node.kind.If? && Placed(whole, Some(node), n, incoming, t, out) && Continues(whole, exits, k, out, t)
    requires Find(node, k, name).Some?
    ensures Stands(whole, exits, Find(node, k, name).value, m)
    ensures IsFirst(Layout(Mended, node, n, incoming, t).facts.labels, name, m)
    ensures n <= m < n + Size(node) && Spot(node, n, k, m) == Find(node, k, name)
    decreases node, 0
  {
    hide Continues, Stands, Layout, Placed, LayoutOpt;
    var consequence, alternative := node.kind.consequence, node.kind.alternative;
    var yes := LayoutOpt(Mended, consequence, n + 1, {n}, t);
    var no := LayoutOpt(Mended, alternative, yes.next, {n}, t);
    LabelsLieOpt(consequence, k, name, n + 1, {n}, t);
    LabelsLieOpt(alternative, k, name, yes.next, {n}, t);
    PlacedIf(whole, node, n, incoming, t, out);
    if FindOpt(consequence, k, name).Some? {
      m := FindStandsOpt(whole, exits, consequence, k, name, n + 1, {n}, t, out);
    } else {
      m := FindStandsOpt(whole, exits, alternative, k, name, yes.next, {n}, t, out);
    }
    FirstOfBoth(yes.facts.labels, no.facts.labels, yes.next, name, m);
  }

  lemma PlacedIf(whole: Facts, node: Node, n: nat, incoming: set<nat>, t: Targets, out: set<nat>)
    requires node.kind.If? && OwnsBlock(node) && Placed(whole, Some(node), n, incoming, t, out)
    ensures var yes := LayoutOpt(Mended, node.kind.consequence, n + 1, {n}, t);
      var no := LayoutOpt(Mended, node.kind.alternative, yes.next, {n}, t);
      && Placed(whole, node.kind.consequence, n + 1, {n}, t, out)
        && Placed(whole, node.kind.alternative, yes.next, {n}, t, out)
      && Layout(Mended, node, n, incoming, t).facts.labels == yes.facts.labels + no.facts.labels
  {
    assert LayoutOpt(Mended, Some(node), n, incoming, t) == Layout(Mended, node, n, incoming, t);
  }

  lemma StatementStands(whole: Facts, exits: set<nat>, node: Node, k: Cont, b: nat, incoming: set<nat>, t: Targets,
      out: set<nat>)
    requires OwnsBlock(node) && Placed(whole, Some(node), b, incoming, t, out) && Continues(whole, exits, k, out, t)
    ensures Stands(whole, exits, At(node, k), b)
  {
    hide Continues, Placed;
  }

  lemma {:induction false} FindStandsSeq(whole: Facts, exits: set<nat>, nodes: seq<Node>, k: Cont, name: string,
                                         n: nat, incoming: set<nat>, t: Targets, out: set<nat>) returns (m: nat)
    requires PlacedSeq(whole, nodes, n, incoming, t, out) && Continues(whole, exits, k, out, t)
    requires FindSeq(nodes, k, name).Some?
    ensures Stands(whole, exits, FindSeq(nodes, k, name).value, m)
    ensures IsFirst(LayoutSeq(Mended, nodes, n, incoming, t).facts.labels, name, m)
    ensures n <= m < n + SizeSeq(nodes) && SpotSeq(nodes, n, k, m) == FindSeq(nodes, k, name)
    decreases nodes, 0
  {
    hide Continues, Stands;
    var first := Layout(Mended, nodes[0], n, incoming, t);
    assert LayoutOpt(Mended, Some(nodes[0]), n, incoming, t) == first;
    var others := LayoutSeq(Mended, nodes[1..], first.next, first.exits, t);
    assert LayoutSeq(Mended, nodes, n, incoming, t) == Part(others.next, others.exits, first.facts.Plus(others.facts));
    assert PlacedSeq(whole, nodes[1..], first.next, first.exits, t, out);
    LabelsLie(nodes[0], Then(nodes[1..], k), name, n, incoming, t);
    LabelsLieSeq(nodes[1..], k, name, first.next, first.exits, t);
    if Find(nodes[0], Then(nodes[1..], k), name).Some? {
      ContinuesWithSequence(whole, exits, nodes[1..], k, first.exits, t, first.next, first.exits, out);
      m := FindStands(whole, exits, nodes[0], Then(nodes[1..], k), name, n, incoming, t, first.exits);
    } else {
      m := FindStandsSeq(whole, exits, nodes[1..], k, name, first.next, first.exits, t, out);
    }
    FirstOfBoth(first.facts.labels, others.facts.labels, first.next, name, m);
  }

  lemma {:induction false} FindStandsClauses(whole: Facts, exits: set<nat>, children: seq<Node>, k: Cont, name: string,
                                             s: nat, n: nat, outer: Targets, out: set<nat>) returns (m: nat)
    requires LayoutClauses(Mended, children, s, n, outer.continueTo).facts.Within(whole)
    requires s + 1 in out && Continues(whole, exits, k, out, outer)
    requires FindClauses(children, InSwitch(k), name).Some?
    ensures Stands(whole, exits, FindClauses(children, InSwitch(k), name).value, m)
    ensures IsFirst(LayoutClauses(Mended, children, s, n, outer.continueTo).facts.labels, name, m)
    ensures n <= m < n + SizeClauses(children)
    ensures SpotClauses(children, n, InSwitch(k), m) == FindClauses(children, InSwitch(k), name)
    decreases children, 0
  {
    hide Continues, Stands;
    var first := LayoutClause(Mended, children[0], s, n, outer.continueTo);
    var rest := LayoutClauses(Mended, children[1..], s, first.next, outer.continueTo);
    LabelsLieClause(children[0], InSwitch(k), name, s, n, outer.continueTo);
    LabelsLieClauses(children[1..], InSwitch(k), name, s, first.next, outer.continueTo);
    if FindClause(children[0], InSwitch(k), name).Some? {
      m := FindStandsClause(whole, exits, children[0], k, name, s, n, outer, out);
    } else {
      m := FindStandsClauses(whole, exits, children[1..], k, name, s, first.next, outer, out);
    }
    FirstOfBoth(first.facts.labels, rest.facts.labels, first.next, name, m);
  }

  lemma {:induction false} FindStandsClause(whole: Facts, exits: set<nat>, child: Node, k: Cont, name: string,
                                            s: nat, n: nat, outer: Targets, out: set<nat>) returns (m: nat)
    requires LayoutClause(Mended, child, s, n, outer.continueTo).facts.Within(whole)
    requires s + 1 in out && Continues(whole, exits, k, out, outer)
    requires FindClause(child, InSwitch(k), name).Some?
    ensures Stands(whole, exits, FindClause(child, InSwitch(k), name).value, m)
    ensures IsFirst(LayoutClause(Mended, child, s, n, outer.continueTo).facts.labels, name, m)
    ensures n <= m < n + SizeClause(child) && SpotClause(child, n, InSwitch(k), m) == FindClause(child, InSwitch(k),
      name)
    decreases child, 2
  {
    hide Continues, Stands;
    if child.kind.Clause? {
      var inside := Targets(Some(s + 1), outer.continueTo);
      var part := Layout(Mended, child, n, {s}, inside);
      assert LayoutOpt(Mended, Some(child), n, {s}, inside) == part;
      EdgesLead(whole, part.exits, s + 1, EdgeKind.Branch);
      ContinuesWithSwitch(whole, exits, k, part.exits, inside, s, outer, out);
      m := FindStands(whole, exits, child, InSwitch(k), name, n, {s}, inside, part.exits);
    } else {
      m := FindStandsClauses(whole, exits, child.kind.children, k, name, s, n, outer, out);
    }
  }

  lemma StepGoto(body: Node, node: Node, k: Cont, name: string, b: nat) returns (b': nat)
    requires Stands(Whole(Mended, body), Body(Mended, body).exits, At(node, k), b)
    requires node.kind == Goto(Some(name)) && Find(body, Stop, name).Some?
    ensures Follows(Whole(Mended, body), Body(Mended, body).exits, b, Find(body, Stop, name).value, b')
  {
    hide Stands;
    var whole, exits, top := Whole(Mended, body), Body(Mended, body).exits, Targets(None, None);
    assert LayoutOpt(Mended, Some(body), 2, {0}, top) == Body(Mended, body);
    b' := FindStands(whole, exits, body, Stop, name, 2, {0}, top, exits);
    var incoming, t, out := SitsDown(whole, exits, node, k, b);
    assert (b, name) in whole.gotos;
    assert Edge(b, b', Jump) in JumpEdges(Mended, whole.gotos, whole.labels);
    EdgeLeads(whole, b, b', Jump);
  }

  // ----- Whole runs -----

  lemma EntersNothing(whole: Facts, exits: set<nat>, k: Cont, b: nat)
    requires Stands(whole, exits, Enter(None, k), b)
    ensures Stands(whole, exits, Done(k), b)
  {
    hide Continues;
  }

  lemma StepAtFollows(body: Node, node: Node, k: Cont, c': Config, b: nat) returns (b': nat)
    requires Stands(Whole(Mended, body), Body(Mended, body).exits, At(node, k), b) && StepAt(body, node, k, c')
    ensures Follows(Whole(Mended, body), Body(Mended, body).exits, b, c', b')
  {
    hide Stands, Whole, Body, Leads, Find, AfterBreak, AfterContinue, Clauses;
    var whole, exits := Whole(Mended, body), Body(Mended, body).exits;
    b' := b;
    match node.kind
    case Block(_) => StepBlock(whole, exits, node, k, b);
    case If(_, _) => StepIf(whole, exits, node, k, b);
    case While(known, inner) =>
      if known != Some(false) && c' == Enter(inner, InLoop(node, k)) {
        StepWhileIn(whole, exits, node, k, b);
      } else {
        StepWhileOut(whole, exits, node, k, b);
        b' := b + 1;
      }
    case DoWhile(_, _) => StepDoIn(whole, exits, node, k, b);
    case Switch(children) =>
      if clause :| clause in Clauses(children) && c' == Enter(Some(clause), InSwitch(k)) {
        StepSwitchIn(whole, exits, node, k, clause, b);
      } else {
        StepSwitchOut(whole, exits, node, k, b);
        b' := b + 1;
      }
    case Clause(_, _) => StepClause(whole, exits, node, k, b);
    case Return =>
      StepReturn(whole, exits, node, k, b);
      b' := 1;
      ReturnedStands(whole, exits);
    case Goto(target) => b' := StepGoto(body, node, k, target.value, b);
    case Label(_) => StepOver(whole, exits, node, k, b);
    case Break => b' := StepJumpOut(whole, exits, node, k, c', b);
    case Continue => b' := StepJumpOut(whole, exits, node, k, c', b);
    case Simple => StepOver(whole, exits, node, k, b);
    case _ =>
  }

  lemma ReturnedStands(whole: Facts, exits: set<nat>)
    ensures Stands(whole, exits, Returned, 1)
  {
  }

  /** One step of the machine keeps to the graph: control stays on its block or follows one edge. */
  lemma StepFollows(body: Node, c: Config, c': Config, b: nat) returns (b': nat)
    requires Stands(Whole(Mended, body), Body(Mended, body).exits, c, b) && Step(body, c, c')
    ensures Follows(Whole(Mended, body), Body(Mended, body).exits, b, c', b')
  {
    hide Stands, Continues, Whole, Body, Leads, StepAt;
    var whole, exits := Whole(Mended, body), Body(Mended, body).exits;
    b' := b;
    match c
    case Enter(None, k) => EntersNothing(whole, exits, k, b);
    case Enter(Some(node), k) => b' := StepIntoTree(whole, exits, body, node, k, c', b);
    case At(node, k) => b' := StepAtFollows(body, node, k, c', b);
    case AtCondition(node, k) =>
      if node.kind.known != Some(true) && c' == Done(k) {
        b' := StepDoOut(whole, exits, node, k, b);
      } else {
        StepDoAgain(whole, exits, node, k, b);
      }
    case Done(Stop) =>
    case Done(Then(rest, k)) => StepThroughSequence(whole, exits, rest, k, b);
    case Done(InLoop(loop, k)) => b' := StepWhileAgain(whole, exits, loop, k, b);
    case Done(InDo(loop, k)) => b' := StepDoBodyDone(whole, exits, loop, k, b);
    case Done(InSwitch(k)) => b' := StepSwitchDone(whole, exits, k, b);
    case Returned =>
  }

  lemma RunStarts(body: Node)
    ensures Stands(Whole(Mended, body), Body(Mended, body).exits, Enter(Some(body), Stop), 0)
  {
    var whole, exits, top := Whole(Mended, body), Body(Mended, body).exits, Targets(None, None);
    assert LayoutOpt(Mended, Some(body), 2, {0}, top) == Body(Mended, body);
    assert Continues(whole, exits, Stop, exits, top);
    EntersAt(whole, exits, Some(body), Stop, 0, 2, {0}, top, exits);
  }

  /** Every configuration of a run stands on a block that the graph reaches from the entry. */
  lemma {:induction false} RunFollowsGraph(body: Node, run: seq<Config>, i: nat) returns (b: nat)
    requires IsRun(body, run) && i < |run|
    ensures Stands(Whole(Mended, body), Body(Mended, body).exits, run[i], b)
      && Reaches(EdgePairs(Whole(Mended, body).edges), 0, b)
    decreases i
  {
    hide Stands, Whole, Body, Step;
    if i == 0 {
      RunStarts(body);
      ReachesSelf(EdgePairs(Whole(Mended, body).edges), 0);
      b := 0;
    } else {
      var before := RunFollowsGraph(body, run, i - 1);
      b := StepFollows(body, run[i - 1], run[i], before);
      if b != before {
        assert (before, b) in EdgePairs(Whole(Mended, body).edges);
        ReachesSnoc(EdgePairs(Whole(Mended, body).edges), 0, before, b);
      }
    }
  }

  lemma StatementBlock(whole: Facts, exits: set<nat>, node: Node, k: Cont, b: nat)
    requires Stands(whole, exits, At(node, k), b)
    ensures (node.id, b) in whole.blocks
  {
    hide Continues, Stands;
    var incoming, t, out := SitsDown(whole, exits, node, k, b);
    OwnWithin(whole, node, b, incoming, t);
  }

  /** A statement that runs has a block, and the graph reaches it. */
  lemma RunStatementReachable(body: Node, run: seq<Config>, i: nat) returns (b: nat)
    requires IsRun(body, run) && i < |run| && run[i].At?
    ensures (run[i].node.id, b) in Whole(Mended, body).blocks && Reaches(EdgePairs(Whole(Mended, body).edges), 0, b)
  {
    hide Stands, Whole, Body, Step;
    b := RunFollowsGraph(body, run, i);
    StatementBlock(Whole(Mended, body), Body(Mended, body).exits, run[i].node, run[i].k, b);
  }

  /** A run that falls off the end does so from an exit block that the graph reaches. */
  lemma RunFallsOffReachable(body: Node, run: seq<Config>, i: nat) returns (b: nat)
    requires IsRun(body, run) && i < |run| && run[i] == Done(Stop)
    ensures b in Body(Mended, body).exits && Reaches(EdgePairs(Whole(Mended, body).edges), 0, b)
  {
    hide Whole, Body, Step;
    b := RunFollowsGraph(body, run, i);
  }
}
