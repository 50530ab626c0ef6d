/** Three small function bodies for which the block graph misses something that runs. */
module CfgLimits {
  import opened Wrappers
  import opened Graphs
  import opened Cfg
  import opened CfgRuns
  import opened CfgAgreement

  function Plain(id: nat, kind: Kind): Node {
    Node(id, false, false, kind)
  }

  /** A statement runs although the graph does not reach any block it has. */
  ghost predicate RunsUnreached(body: Node, run: seq<Config>, last: Config) {
    && IsRun(body, run) && run[|run| - 1] == last && last.At?
    && forall b {:trigger (last.node.id, b) in Whole(Built, body).blocks} ::
         (last.node.id, b) in Whole(Built, body).blocks ==> !Reaches(EdgePairs(Whole(Built, body).edges), 0, b)
  }

  /** No edge comes into the lost blocks from elsewhere, and all blocks of the statement are lost. */
  ghost predicate Misses(facts: Facts, lost: set<nat>, id: nat) {
    && (forall e :: e in facts.edges && e.to in lost ==> e.from in lost)
    && (forall b {:trigger (id, b) in facts.blocks} :: (id, b) in facts.blocks ==> b in lost)
  }

  lemma MissesPlus(a: Facts, b: Facts, region: set<nat>, id: nat)
    requires Misses(a, region, id) && Misses(b, region, id)
    ensures Misses(a.Plus(b), region, id)
  {
  }

  /** A run falls off the end although the graph reaches no block from which control leaves the tree. */
  ghost predicate FallsOffUnseen(body: Node, run: seq<Config>) {
    && IsRun(body, run) && run[|run| - 1] == Done(Stop)
    && forall b :: b in Body(Built, body).exits ==> !Reaches(EdgePairs(Whole(Built, body).edges), 0, b)
  }

  /** No jump leads into the lost blocks from elsewhere. */
  ghost predicate NoJumpInto(facts: Facts, lost: set<nat>) {
    forall g, l :: g in facts.gotos && l in facts.labels ==> g.1 == l.0 && l.1 in lost ==> g.0 in lost
  }

  lemma LostBlocks(body: Node, lost: set<nat>, id: nat)
    requires Misses(Body(Built, body).facts, lost, id) && 0 !in lost && 1 !in lost
    requires NoJumpInto(Body(Built, body).facts, lost)
    ensures forall b :: b in lost ==> !Reaches(EdgePairs(Whole(Built, body).edges), 0, b)
  {
    var edges := EdgePairs(Whole(Built, body).edges);
    hide Body;
    forall b | b in lost ensures !Reaches(edges, 0, b) {
      if path :| PathFromTo(edges, path, 0, b) {
        NeverEnters(edges, lost, path);
      }
    }
  }

  lemma MissesWhole(body: Node, lost: set<nat>, id: nat)
    requires Misses(Body(Built, body).facts, lost, id) && 0 !in lost && 1 !in lost
    requires NoJumpInto(Body(Built, body).facts, lost)
    ensures forall b {:trigger (id, b) in Whole(Built, body).blocks} ::
      (id, b) in Whole(Built, body).blocks ==> !Reaches(EdgePairs(Whole(Built, body).edges), 0, b)
  {
    LostBlocks(body, lost, id);
  }

  lemma {:induction false} NeverEnters(edges: Edges, lost: set<nat>, path: seq<nat>)
    requires IsPath(edges, path) && path[0] !in lost
    requires forall a, b {:trigger (a, b) in edges} :: (a, b) in edges && b in lost ==> a in lost
    ensures path[|path| - 1] !in lost
    decreases |path|
  {
    if |path| > 1 {
      NeverEnters(edges, lost, path[..|path| - 1]);
    }
  }

  // { goto l; do <region> s; l: </region> while (unknown); }

  const PLAIN := Plain(5, Simple)
  const TARGET := Plain(6, Label("l"))
  const JUMP := Plain(2, Goto(Some("l")))
  const LOOP := Plain(3, DoWhile(None, Some(Plain(4, Region([PLAIN, TARGET])))))
  const LOOP_BODY := Plain(1, Block([JUMP, LOOP]))

  lemma LayoutOfOne(node: Node, n: nat, incoming: set<nat>, t: Targets)
    ensures LayoutSeq(Built, [node], n, incoming, t) == Layout(Built, node, n, incoming, t)
  {
    var first := Layout(Built, node, n, incoming, t);
    assert [node][1..] == [];
    assert LayoutSeq(Built, [node][1..], first.next, first.exits, t) == Part(first.next, first.exits, NO_FACTS);
    assert first.facts.Plus(NO_FACTS) == first.facts;
  }

  lemma LayoutOfTwo(first: Node, second: Node, n: nat, incoming: set<nat>, t: Targets)
    ensures var part := Layout(Built, first, n, incoming, t);
      var rest := Layout(Built, second, part.next, part.exits, t);
      LayoutSeq(Built, [first, second], n, incoming, t) == Part(rest.next, rest.exits, part.facts.Plus(rest.facts))
  {
    var part := Layout(Built, first, n, incoming, t);
    LayoutOfOne(second, part.next, part.exits, t);
    assert [first, second][1..] == [second];
  }

  lemma LoopRegionGraph(t: Targets)
    ensures var part := LayoutOpt(Built, LOOP.kind.body, 7, {4}, t);
      part.next == 9 && part.exits == {8} && part.facts.gotos == {} && part.facts.labels == {("l", 8)}
      && Misses(part.facts, {4, 7}, 5)
  {
    LayoutOfTwo(PLAIN, TARGET, 7, {4}, t);
    var region := LOOP.kind.body.value;
    var plain, target := Layout(Built, PLAIN, 7, {4}, t), Layout(Built, TARGET, 8, {7}, t);
    assert LayoutOpt(Built, Some(region), 7, {4}, t) == Layout(Built, region, 7, {4}, t)
      == Part(9, {8}, plain.facts.Plus(target.facts));
  }

  lemma LoopGraph(t: Targets)
    requires t == Targets(None, None)
    ensures var part := Layout(Built, LOOP, 4, {}, t);
      part.next == 9 && part.exits == {5} && part.facts.gotos == {} && part.facts.labels == {("l", 8)}
      && Misses(part.facts, {4, 7}, 5)
  {
    LoopRegionGraph(Targets(Some(5), Some(6)));
    hide LayoutOpt, LayoutSeq;
    var inner := LayoutOpt(Built, LOOP.kind.body, 7, {4}, Targets(Some(5), Some(6)));
    assert Layout(Built, LOOP, 4, {}, t) == Part(9, {5},
      Own(LOOP, 4, {}).Plus(inner.facts).Plus(OnlyEdges(EdgesTo({8}, 6, Jump))).Plus(NO_FACTS)
        .Plus(OnlyEdges({Edge(6, 5, EdgeKind.Branch)})));
  }

  lemma JumpGraph(t: Targets)
    ensures var part := Layout(Built, JUMP, 3, {2}, t);
      part.next == 4 && part.exits == {} && part.facts.gotos == {(3, "l")} && part.facts.labels == {}
      && Misses(part.facts, {4, 7}, 5)
  {
    var part := Layout(Built, JUMP, 3, {2}, t);
    assert part.facts == Own(JUMP, 3, {2}).Plus(Facts({}, {}, {(3, JUMP.kind.target.value)}, {}));
  }

  lemma LoopBodyGraph()
    ensures Misses(Body(Built, LOOP_BODY).facts, {4, 7}, 5)
    ensures Body(Built, LOOP_BODY).facts.gotos == {(3, "l")} && Body(Built, LOOP_BODY).facts.labels == {("l", 8)}
  {
    var top, lost := Targets(None, None), {4, 7};
    LayoutOfTwo(JUMP, LOOP, 3, {2}, top);
    var own, jump, loop := Own(LOOP_BODY, 2, {0}), Layout(Built, JUMP, 3, {2}, top), Layout(Built, LOOP, 4, {}, top);
    JumpGraph(top);
    assert Misses(own, lost, 5);
    LoopGraph(top);
    hide LayoutOpt, LayoutSeq, Misses;
    assert Body(Built, LOOP_BODY) == Part(9, {5}, own.Plus(jump.facts.Plus(loop.facts)));
    MissesPlus(jump.facts, loop.facts, lost, 5);
    MissesPlus(own, jump.facts.Plus(loop.facts), lost, 5);
  }

  /** A do loop whose body is a region: entering it by a jump and repeating it runs its first statement unseen. */
  lemma RegionBodyMisleads() returns (run: seq<Config>)
    ensures Direct(LOOP_BODY) && RunsUnreached(LOOP_BODY, run, At(PLAIN, Then([TARGET], InDo(LOOP, Then([], Stop)))))
  {
    LoopBodyIsDirect();
    run := LoopBodyRun();
    LoopBodyGraph();
    hide Body, Whole, Misses;
    MissesWhole(LOOP_BODY, {4, 7}, 5);
  }

  lemma LoopBodyIsDirect()
    ensures Direct(LOOP_BODY)
  {
    var region := LOOP.kind.body.value;
    assert Direct(region) by { assert Direct(PLAIN) && Direct(TARGET); }
    assert DirectOpt(LOOP.kind.body);
    assert Direct(JUMP) && Direct(LOOP);
  }

  lemma LoopBodyLabel()
    ensures Find(LOOP_BODY, Stop, "l") == Some(At(TARGET, Then([], InDo(LOOP, Then([], Stop)))))
  {
    var region, after := LOOP.kind.body.value, Then([], Stop);
    var inside := InDo(LOOP, after);
    assert [JUMP, LOOP][1..] == [LOOP] && [LOOP][1..] == [] && [PLAIN, TARGET][1..] == [TARGET] && [TARGET][1..] == [];
    assert FindSeq([TARGET], inside, "l") == Find(TARGET, Then([], inside), "l");
    assert FindSeq([PLAIN, TARGET], inside, "l") == Some(At(TARGET, Then([], inside)));
    assert FindOpt(LOOP.kind.body, inside, "l") == Find(region, inside, "l");
    assert Find(LOOP, after, "l") == Some(At(TARGET, Then([], inside)));
    assert FindSeq([LOOP], Stop, "l") == Find(LOOP, after, "l");
    assert Find(JUMP, Then([LOOP], Stop), "l") == None;
    assert FindSeq([JUMP, LOOP], Stop, "l") == FindSeq([LOOP], Stop, "l");
  }

  lemma LoopBodyRun() returns (run: seq<Config>)
    ensures IsRun(LOOP_BODY, run) && run[|run| - 1] == At(PLAIN, Then([TARGET], InDo(LOOP, Then([], Stop))))
  {
    LoopBodyLabel();
    hide Find;
    var region, after := LOOP.kind.body.value, Then([], Stop);
    var inside := InDo(LOOP, after);
    assert [JUMP, LOOP][1..] == [LOOP] && [LOOP][1..] == [] && [PLAIN, TARGET][1..] == [TARGET];
    run := [
      Enter(Some(LOOP_BODY), Stop), At(LOOP_BODY, Stop), Done(Then([JUMP, LOOP], Stop)),
      Enter(Some(JUMP), Then([LOOP], Stop)), At(JUMP, Then([LOOP], Stop)),
      At(TARGET, Then([], inside)), Done(Then([], inside)), Done(inside), AtCondition(LOOP, after),
      Enter(Some(region), inside), Done(Then([PLAIN, TARGET], inside)),
      Enter(Some(PLAIN), Then([TARGET], inside)), At(PLAIN, Then([TARGET], inside))];
  }

  // { switch (x) { <region> case: goto l; </region> } return; l: }

  const LEAP := Plain(5, Goto(Some("l")))
  const CASE := Plain(4, Clause(false, Some(LEAP)))
  const CHOICE := Plain(2, Switch([Plain(3, Region([CASE]))]))
  const LEAVE := Plain(6, Return)
  const AIM := Plain(7, Label("l"))
  const SWITCH_BODY := Plain(1, Block([CHOICE, LEAVE, AIM]))

  lemma SwitchBodyGraph()
    ensures Misses(Body(Built, SWITCH_BODY).facts, {6}, 7)
    ensures Body(Built, SWITCH_BODY).exits == {6} && Body(Built, SWITCH_BODY).facts.gotos == {}
  {
    var top, lost := Targets(None, None), {6};
    LayoutOfTwo(LEAVE, AIM, 5, {4}, top);
    assert [CHOICE, LEAVE, AIM][1..] == [LEAVE, AIM];
    SwitchPieces();
    SwitchLeaves();
    hide LayoutOpt, LayoutClauses, Misses;
    var own, choice := Own(SWITCH_BODY, 2, {0}), Layout(Built, CHOICE, 3, {2}, top);
    var leave, aim := Layout(Built, LEAVE, 5, {4}, top), Layout(Built, AIM, 6, {}, top);
    assert LayoutSeq(Built, [CHOICE, LEAVE, AIM], 3, {2}, top) == Part(7, {6},
      choice.facts.Plus(leave.facts.Plus(aim.facts)));
    hide LayoutSeq;
    assert Body(Built, SWITCH_BODY) == Part(7, {6}, own.Plus(choice.facts.Plus(leave.facts.Plus(aim.facts))));
    MissesPlus(leave.facts, aim.facts, lost, 7);
    MissesPlus(choice.facts, leave.facts.Plus(aim.facts), lost, 7);
    MissesPlus(own, choice.facts.Plus(leave.facts.Plus(aim.facts)), lost, 7);
  }

  lemma SwitchPieces()
    ensures Misses(Own(SWITCH_BODY, 2, {0}), {6}, 7)
    ensures var choice := Layout(Built, CHOICE, 3, {2}, Targets(None, None));
      choice.next == 5 && choice.exits == {4} && choice.facts.gotos == {} && Misses(choice.facts, {6}, 7)
  {
    assert CHOICE.kind.children[1..] == [];
    assert LayoutClause(Built, CHOICE.kind.children[0], 3, 5, None) == Part(5, {}, NO_FACTS);
    assert LayoutClauses(Built, CHOICE.kind.children, 3, 5, None) == Part(5, {}, NO_FACTS);
  }

  lemma SwitchLeaves()
    ensures var leave := Layout(Built, LEAVE, 5, {4}, Targets(None, None));
      leave.next == 6 && leave.exits == {} && leave.facts.gotos == {} && Misses(leave.facts, {6}, 7)
    ensures var aim := Layout(Built, AIM, 6, {}, Targets(None, None));
      aim.next == 7 && aim.exits == {6} && aim.facts.gotos == {} && Misses(aim.facts, {6}, 7)
  {
  }

  /** A clause inside a conditional region gets no block, so the graph misses where it jumps. */
  lemma RegionClauseMisleads() returns (run: seq<Config>)
    ensures !Direct(SWITCH_BODY) && RunsUnreached(SWITCH_BODY, run, At(AIM, Then([], Stop)))
  {
    SwitchClauses();
    assert !Direct(SWITCH_BODY.kind.children[0]) by {
      assert ClausesOf(CHOICE.kind.children[0]) == [CASE];
    }
    run := SwitchBodyRun();
    SwitchBodyGraph();
    hide Body, Whole, Misses;
    MissesWhole(SWITCH_BODY, {6}, 7);
  }

  lemma SwitchClauses()
    ensures Clauses(CHOICE.kind.children) == [CASE]
  {
    var region := CHOICE.kind.children[0];
    assert [region][1..] == [] && [CASE][1..] == [];
    assert Clauses([CASE]) == [CASE];
    assert Clauses([region]) == ClausesOf(region) + Clauses([]);
  }

  lemma SwitchBodyLabel()
    ensures Find(SWITCH_BODY, Stop, "l") == Some(At(AIM, Then([], Stop)))
  {
    var rest := Then([LEAVE, AIM], Stop);
    var region := CHOICE.kind.children[0];
    assert [CHOICE, LEAVE, AIM][1..] == [LEAVE, AIM] && [LEAVE, AIM][1..] == [AIM] && [AIM][1..] == [];
    assert [region][1..] == [] && [CASE][1..] == [];
    assert FindOpt(CASE.kind.body, InSwitch(rest), "l") == Find(LEAP, InSwitch(rest), "l") == None;
    assert FindClauses([CASE], InSwitch(rest), "l") == FindClauses([], InSwitch(rest), "l");
    assert FindClause(region, InSwitch(rest), "l") == None;
    assert FindClauses([region], InSwitch(rest), "l") == FindClauses([], InSwitch(rest), "l");
    assert Find(CHOICE, rest, "l") == None;
    assert FindSeq([AIM], Stop, "l") == Some(At(AIM, Then([], Stop)));
    assert FindSeq([LEAVE, AIM], Stop, "l") == FindSeq([AIM], Stop, "l");
    assert FindSeq([CHOICE, LEAVE, AIM], Stop, "l") == FindSeq([LEAVE, AIM], Stop, "l");
  }

  lemma SwitchBodyRun() returns (run: seq<Config>)
    ensures IsRun(SWITCH_BODY, run) && run[|run| - 1] == At(AIM, Then([], Stop))
  {
    SwitchBodyLabel();
    SwitchClauses();
    hide Find, Clauses;
    var rest := Then([LEAVE, AIM], Stop);
    assert [CHOICE, LEAVE, AIM][1..] == [LEAVE, AIM];
    run := [
      Enter(Some(SWITCH_BODY), Stop), At(SWITCH_BODY, Stop), Done(Then([CHOICE, LEAVE, AIM], Stop)),
      Enter(Some(CHOICE), rest), At(CHOICE, rest), Enter(Some(CASE), InSwitch(rest)), At(CASE, InSwitch(rest)),
      Enter(Some(LEAP), InSwitch(rest)), At(LEAP, InSwitch(rest)), At(AIM, Then([], Stop))];
  }

  /** In the same body a run goes on from the label and falls off the end, whose only exit is not reached. */
  lemma RegionClauseFallsOff() returns (run: seq<Config>)
    ensures !Direct(SWITCH_BODY) && FallsOffUnseen(SWITCH_BODY, run)
  {
    var before := RegionClauseMisleads();
    run := before + [Done(Then([], Stop)), Done(Stop)];
    SwitchBodyGraph();
    hide Body, Whole, Misses;
    LostBlocks(SWITCH_BODY, {6}, 7);
  }

  // { goto l; do <region> break; l: </region> while (true); }

  const OUT := Plain(5, Break)
  const ENDLESS := Plain(3, DoWhile(Some(true), Some(Plain(4, Region([OUT, TARGET])))))
  const ENDLESS_BODY := Plain(1, Block([JUMP, ENDLESS]))

  lemma OutGraph()
    ensures var out := Layout(Built, OUT, 7, {4}, Targets(Some(5), Some(6)));
      out.next == 8 && out.exits == {} && out.facts.gotos == {} && out.facts.labels == {}
      && Misses(out.facts, {4, 5, 7}, 5)
    ensures var target := Layout(Built, TARGET, 8, {}, Targets(Some(5), Some(6)));
      target.next == 9 && target.exits == {8} && target.facts.gotos == {} && target.facts.labels == {("l", 8)}
      && Misses(target.facts, {4, 5, 7}, 5)
  {
  }

  lemma EndlessRegionGraph()
    ensures var part := LayoutOpt(Built, ENDLESS.kind.body, 7, {4}, Targets(Some(5), Some(6)));
      part.next == 9 && part.exits == {8} && part.facts.gotos == {} && part.facts.labels == {("l", 8)}
      && Misses(part.facts, {4, 5, 7}, 5)
  {
    hide Misses, LayoutSeq;
    var t, region := Targets(Some(5), Some(6)), ENDLESS.kind.body.value;
    LayoutOfTwo(OUT, TARGET, 7, {4}, t);
    OutGraph();
    var out, target := Layout(Built, OUT, 7, {4}, t), Layout(Built, TARGET, 8, {}, t);
    MissesPlus(out.facts, target.facts, {4, 5, 7}, 5);
    assert LayoutOpt(Built, Some(region), 7, {4}, t) == Layout(Built, region, 7, {4}, t)
      == Part(9, {8}, out.facts.Plus(target.facts));
  }

  lemma EndlessGraph(t: Targets)
    requires t == Targets(None, None)
    ensures var part := Layout(Built, ENDLESS, 4, {}, t);
      part.next == 9 && part.exits == {5} && part.facts.gotos == {} && part.facts.labels == {("l", 8)}
      && Misses(part.facts, {4, 5, 7}, 5)
  {
    EndlessRegionGraph();
    hide LayoutOpt, LayoutSeq;
    var inner := LayoutOpt(Built, ENDLESS.kind.body, 7, {4}, Targets(Some(5), Some(6)));
    assert Layout(Built, ENDLESS, 4, {}, t) == Part(9, {5},
      Own(ENDLESS, 4, {}).Plus(inner.facts).Plus(OnlyEdges(EdgesTo({8}, 6, Jump))).Plus(NO_FACTS).Plus(NO_FACTS));
  }

  lemma EndlessBodyGraph()
    ensures Misses(Body(Built, ENDLESS_BODY).facts, {4, 5, 7}, 5) && Body(Built, ENDLESS_BODY).exits == {5}
    ensures NoJumpInto(Body(Built, ENDLESS_BODY).facts, {4, 5, 7})
  {
    var top, lost := Targets(None, None), {4, 5, 7};
    LayoutOfTwo(JUMP, ENDLESS, 3, {2}, top);
    var own, jump := Own(ENDLESS_BODY, 2, {0}), Layout(Built, JUMP, 3, {2}, top);
    var loop := Layout(Built, ENDLESS, 4, {}, top);
    JumpMisses(lost);
    assert Misses(own, lost, 5);
    EndlessGraph(top);
    hide LayoutOpt, LayoutSeq, Misses;
    assert Body(Built, ENDLESS_BODY) == Part(9, {5}, own.Plus(jump.facts.Plus(loop.facts)));
    MissesPlus(jump.facts, loop.facts, lost, 5);
    MissesPlus(own, jump.facts.Plus(loop.facts), lost, 5);
  }

  lemma JumpMisses(lost: set<nat>)
    requires lost == {4, 5, 7}
    ensures var part := Layout(Built, JUMP, 3, {2}, Targets(None, None));
      part.next == 4 && part.exits == {} && part.facts.gotos == {(3, "l")} && part.facts.labels == {}
      && Misses(part.facts, lost, 5)
  {
    var part := Layout(Built, JUMP, 3, {2}, Targets(None, None));
    assert part.facts == Own(JUMP, 3, {2}).Plus(Facts({}, {}, {(3, JUMP.kind.target.value)}, {}));
  }

  lemma EndlessIsDirect()
    ensures Direct(ENDLESS_BODY)
  {
    var region := ENDLESS.kind.body.value;
    assert Direct(region) by { assert Direct(OUT) && Direct(TARGET); }
    assert DirectOpt(ENDLESS.kind.body);
    assert Direct(JUMP) && Direct(ENDLESS);
  }

  lemma EndlessLabel()
    ensures Find(ENDLESS_BODY, Stop, "l") == Some(At(TARGET, Then([], InDo(ENDLESS, Then([], Stop)))))
  {
    var region, after := ENDLESS.kind.body.value, Then([], Stop);
    var inside := InDo(ENDLESS, after);
    assert [JUMP, ENDLESS][1..] == [ENDLESS] && [ENDLESS][1..] == [] && [OUT, TARGET][1..] == [TARGET];
    assert [TARGET][1..] == [];
    assert FindSeq([TARGET], inside, "l") == Find(TARGET, Then([], inside), "l");
    assert FindSeq([OUT, TARGET], inside, "l") == Some(At(TARGET, Then([], inside)));
    assert FindOpt(ENDLESS.kind.body, inside, "l") == Find(region, inside, "l");
    assert Find(ENDLESS, after, "l") == Some(At(TARGET, Then([], inside)));
    assert FindSeq([ENDLESS], Stop, "l") == Find(ENDLESS, after, "l");
    assert Find(JUMP, Then([ENDLESS], Stop), "l") == None;
    assert FindSeq([JUMP, ENDLESS], Stop, "l") == FindSeq([ENDLESS], Stop, "l");
  }

  /** A do loop without end whose body is a region: entered by a jump and repeated, it is left by a break unseen. */
  lemma RegionBodyFallsOff() returns (run: seq<Config>)
    ensures Direct(ENDLESS_BODY) && FallsOffUnseen(ENDLESS_BODY, run)
  {
    EndlessIsDirect();
    run := EndlessRun();
    EndlessBodyGraph();
    hide Body, Whole, Misses, NoJumpInto;
    LostBlocks(ENDLESS_BODY, {4, 5, 7}, 5);
  }

  lemma EndlessRun() returns (run: seq<Config>)
    ensures IsRun(ENDLESS_BODY, run) && run[|run| - 1] == Done(Stop)
  {
    EndlessLabel();
    hide Find;
    var region, after := ENDLESS.kind.body.value, Then([], Stop);
    var inside := InDo(ENDLESS, after);
    assert [JUMP, ENDLESS][1..] == [ENDLESS] && [ENDLESS][1..] == [] && [OUT, TARGET][1..] == [TARGET];
    assert AfterBreak(Then([TARGET], inside)) == Some(Done(after));
    run := [
      Enter(Some(ENDLESS_BODY), Stop), At(ENDLESS_BODY, Stop), Done(Then([JUMP, ENDLESS], Stop)),
      Enter(Some(JUMP), Then([ENDLESS], Stop)), At(JUMP, Then([ENDLESS], Stop)),
      At(TARGET, Then([], inside)), Done(Then([], inside)), Done(inside), AtCondition(ENDLESS, after),
      Enter(Some(region), inside), Done(Then([OUT, TARGET], inside)),
      Enter(Some(OUT), Then([TARGET], inside)), At(OUT, Then([TARGET], inside)), Done(after), Done(Stop)];
  }
}
