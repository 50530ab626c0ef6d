/**
 Forward worklist propagation over a block graph, shared by the alias and the constant analysis.
 Both keep, for every block, a finite set of facts claimed on entry and on exit; a join keeps the
 facts common to all predecessors, so a larger set is a stronger claim. Facts are abstract here:
 pairs of equal symbols for aliases, symbol-and-value pairs for constants. Block 0 is the entry.
 */
module Dataflow {
  import opened Graphs

  /**
   What the worklist loop holds: facts on entry, the facts that would leave each block given its
   entry facts, the facts last published on exit, and the queue.
   */
  datatype Progress<F> = Progress(
    ins: map<nat, set<F>>, effects: map<nat, set<F>>, outs: map<nat, set<F>>, queue: seq<nat>)

  ghost predicate NoEdgeInto(edges: Edges, entry: nat) {
    forall b {:trigger (b, entry) in edges} :: (b, entry) !in edges
  }

  ghost predicate Shaped<F>(edges: Edges, w: Progress<F>) {
    && Distinct(w.queue)
    && (forall b :: b in w.queue ==> b in w.ins)
    && w.outs.Keys <= w.ins.Keys == w.effects.Keys
    && (forall b {:trigger Reaches(edges, 0, b)} :: b in w.ins ==> Reaches(edges, 0, b))
    && 0 in w.ins
  }

  /** Published facts are never fewer than the current effect, and equal to it when not queued. */
  ghost predicate Transferred<F>(w: Progress<F>)
    requires w.ins.Keys == w.effects.Keys
  {
    && (forall b :: b in w.outs && b in w.effects ==> w.effects[b] <= w.outs[b])
    && (forall b :: b in w.ins && b !in w.queue ==> b in w.outs && w.outs[b] == w.effects[b])
  }

  ghost predicate Passed<F>(w: Progress<F>, from: nat, to: nat)
    requires from in w.outs
  {
    to in w.ins && w.ins[to] <= w.outs[from]
  }

  ghost predicate CommonFact<F>(edges: Edges, outs: map<nat, set<F>>, b: nat, f: F) {
    forall p {:trigger (p, b) in edges} :: (p, b) in edges && p in outs ==> f in outs[p]
  }

  ghost predicate HasPublishedPredecessor<F>(edges: Edges, outs: map<nat, set<F>>, b: nat) {
    exists p {:trigger (p, b) in edges} :: (p, b) in edges && p in outs
  }

  ghost predicate AboveJoin<F(!new)>(edges: Edges, w: Progress<F>, b: nat)
    requires b in w.ins
  {
    && HasPublishedPredecessor(edges, w.outs, b)
    && forall f {:trigger CommonFact(edges, w.outs, b, f)} :: CommonFact(edges, w.outs, b, f) ==> f in w.ins[b]
  }

  ghost predicate Core<F(!new)>(edges: Edges, w: Progress<F>) {
    && Shaped(edges, w)
    && Transferred(w)
    && forall b {:trigger AboveJoin(edges, w, b)} :: b in w.ins && b != 0 ==> AboveJoin(edges, w, b)
  }

  /** The loop invariant between two iterations. */
  ghost predicate Stable<F(!new)>(edges: Edges, w: Progress<F>) {
    && Core(edges, w)
    && forall b, s {:trigger (b, s) in edges} :: b in w.outs && (b, s) in edges ==> Passed(w, b, s)
  }

  /** The loop invariant while the successors of `current` in `done` have been updated. */
  ghost predicate Visiting<F(!new)>(edges: Edges, w: Progress<F>, current: nat, done: set<nat>) {
    && Core(edges, w)
    && current in w.outs
    && (forall b, s {:trigger (b, s) in edges} :: b in w.outs && (b, s) in edges && (b != current || s in done) ==>
      Passed(w, b, s))
  }

  lemma StartIsStable<F(!new)>(edges: Edges, start: set<F>, effect: set<F>)
    ensures Stable(edges, Progress(map[0 := start], map[0 := effect], map[], [0]))
  {
    ReachesSelf(edges, 0);
  }

  lemma StableReaches<F(!new)>(edges: Edges, w: Progress<F>)
    requires Stable(edges, w)
    ensures forall b :: b in w.queue ==> b in w.ins && Reaches(edges, 0, b)
  {
  }

  lemma DequeuedOnlyHead(queue: seq<nat>)
    requires queue != [] && Distinct(queue)
    ensures Distinct(queue[1..]) && queue[0] !in queue[1..]
    ensures forall b :: b in queue <==> b == queue[0] || b in queue[1..]
  {
    assert queue == [queue[0]] + queue[1..];
  }

  /** Taking a block off the queue whose published facts do not change. */
  lemma SkipKeepsStable<F(!new)>(edges: Edges, w: Progress<F>)
    requires Stable(edges, w) && w.queue != []
    requires w.queue[0] in w.outs && w.outs[w.queue[0]] == w.effects[w.queue[0]]
    ensures Stable(edges, w.(queue := w.queue[1..]))
  {
    DequeuedOnlyHead(w.queue);
    var w' := w.(queue := w.queue[1..]);
    forall b | b in w'.ins && b != 0 ensures AboveJoin(edges, w', b) {
      assert AboveJoin(edges, w, b);
    }
    forall b, s | b in w'.outs && (b, s) in edges ensures Passed(w', b, s) {
      assert Passed(w, b, s);
    }
  }

  /** Publishing fewer facts at one block leaves every entry state above its join. */
  lemma PublishKeepsAboveJoin<F(!new)>(
    edges: Edges, w: Progress<F>, current: nat, w': Progress<F>, b: nat)
    requires b in w.ins && AboveJoin(edges, w, b) && current in w.effects
    requires current in w.outs ==> w.effects[current] <= w.outs[current]
    requires w'.ins == w.ins && w'.outs == w.outs[current := w.effects[current]]
    ensures AboveJoin(edges, w', b)
  {
    var p :| (p, b) in edges && p in w.outs;
    assert p in w'.outs;
    forall f | CommonFact(edges, w'.outs, b, f) ensures f in w'.ins[b] {
      forall p | (p, b) in edges && p in w.outs ensures f in w.outs[p] {
        assert p in w'.outs && f in w'.outs[p];
      }
      assert CommonFact(edges, w.outs, b, f);
    }
  }

  /** Taking a block off the queue and publishing its current effect. */
  lemma PublishStartsVisit<F(!new)>(edges: Edges, w: Progress<F>)
    requires Stable(edges, w) && w.queue != []
    ensures var b := w.queue[0];
      Visiting(edges, Progress(w.ins, w.effects, w.outs[b := w.effects[b]], w.queue[1..]), b, {})
  {
    DequeuedOnlyHead(w.queue);
    var current := w.queue[0];
    var w' := Progress(w.ins, w.effects, w.outs[current := w.effects[current]], w.queue[1..]);
    assert Shaped(edges, w');
    assert Transferred(w');
    forall b | b in w'.ins && b != 0 ensures AboveJoin(edges, w', b) {
      assert AboveJoin(edges, w, b);
      PublishKeepsAboveJoin(edges, w, current, w', b);
    }
    forall b, s | b in w'.outs && (b, s) in edges && b != current ensures Passed(w', b, s) {
      assert Passed(w, b, s);
    }
  }

  ghost predicate IsJoin<F(!new)>(edges: Edges, outs: map<nat, set<F>>, b: nat, incoming: set<F>) {
    forall f :: f in incoming <==> CommonFact(edges, outs, b, f)
  }

  function Requeued(queue: seq<nat>, b: nat, changed: bool): (r: seq<nat>)
    ensures Distinct(queue) ==> Distinct(r)
    ensures forall c :: c in r <==> c in queue || (changed && c == b)
  {
    if changed && b !in queue then queue + [b] else queue
  }

  /** A fresh join never claims more than the facts it replaces: this is what bounds the loop. */
  lemma JoinOnlyWeakens<F(!new)>(
    edges: Edges, w: Progress<F>, current: nat, next: nat, done: set<nat>, incoming: set<F>)
    requires NoEdgeInto(edges, 0) && Visiting(edges, w, current, done) && (current, next) in edges
    requires IsJoin(edges, w.outs, next, incoming)
    ensures next != 0 && incoming <= w.outs[current]
    ensures next in w.ins ==> incoming <= w.ins[next]
  {
    forall f | f in incoming ensures f in w.outs[current] {
      assert CommonFact(edges, w.outs, next, f);
    }
    if next in w.ins {
      assert AboveJoin(edges, w, next);
      forall f | f in incoming ensures f in w.ins[next] {
        assert CommonFact(edges, w.outs, next, f);
      }
    }
  }

  lemma RelaxKeepsVisit<F(!new)>(
    edges: Edges, w: Progress<F>, current: nat, next: nat, done: set<nat>,
    incoming: set<F>, effect: set<F>, changed: bool)
    requires NoEdgeInto(edges, 0) && Visiting(edges, w, current, done) && (current, next) in edges
    requires IsJoin(edges, w.outs, next, incoming)
    requires next in w.ins ==> effect <= w.effects[next]
    requires !changed ==> next in w.ins && w.ins[next] == incoming && w.effects[next] == effect
    ensures var w' := Progress(w.ins[next := incoming], w.effects[next := effect], w.outs,
                               Requeued(w.queue, next, changed));
      Visiting(edges, w', current, done + {next})
  {
    var w' := Progress(w.ins[next := incoming], w.effects[next := effect], w.outs, Requeued(w.queue, next, changed));
    JoinOnlyWeakens(edges, w, current, next, done, incoming);
    ReachesSnoc(edges, 0, current, next);
    forall b | b in w'.ins && b != 0 ensures AboveJoin(edges, w', b) {
      if b == next {
        assert current in w'.outs;
      } else {
        assert AboveJoin(edges, w, b);
      }
    }
    forall b, s | b in w'.outs && (b, s) in edges && (b != current || s in done + {next})
      ensures Passed(w', b, s)
    {
      if s == next {
        forall f | f in incoming ensures f in w.outs[b] {
          assert CommonFact(edges, w.outs, next, f);
        }
      } else {
        assert Passed(w, b, s);
      }
    }
  }

  lemma VisitEndsStable<F(!new)>(edges: Edges, w: Progress<F>, current: nat, done: set<nat>)
    requires Visiting(edges, w, current, done)
    requires forall s {:trigger (current, s) in edges} :: (current, s) in edges ==> s in done
    ensures Stable(edges, w)
  {
  }

  /** Blocks without entry facts yet, and the facts claimed so far: both only shrink. */
  ghost function Unseen<F>(blocks: set<nat>, ins: map<nat, set<F>>): set<nat> {
    blocks - ins.Keys
  }

  ghost function Claims<F>(ins: map<nat, set<F>>): set<(nat, F)> {
    set b, f | b in ins.Keys && f in ins[b] :: (b, f)
  }

  ghost predicate Shrinks<F>(blocks: set<nat>, before: map<nat, set<F>>, after: map<nat, set<F>>) {
    || Unseen(blocks, after) < Unseen(blocks, before)
    || (Unseen(blocks, after) == Unseen(blocks, before) && Claims(after) < Claims(before))
  }

  lemma ShrinksTransitive<F(!new)>(
    blocks: set<nat>, a: map<nat, set<F>>, b: map<nat, set<F>>, c: map<nat, set<F>>)
    requires (a == b || Shrinks(blocks, a, b)) && Shrinks(blocks, b, c)
    ensures Shrinks(blocks, a, c)
  {
  }

  lemma ChangeShrinksClaims<F(!new)>(blocks: set<nat>, ins: map<nat, set<F>>, next: nat, incoming: set<F>)
    requires next in blocks
    requires next in ins ==> incoming < ins[next]
    ensures Shrinks(blocks, ins, ins[next := incoming])
  {
    var ins' := ins[next := incoming];
    if next in ins {
      var f :| f in ins[next] && f !in incoming;
      assert (next, f) in Claims(ins) && (next, f) !in Claims(ins');
    } else {
      assert next in Unseen(blocks, ins) && next !in Unseen(blocks, ins');
    }
  }

  /** With an empty queue, exactly the reachable blocks have facts: those common to all their predecessors. */
  lemma EmptyQueueIsClosed<F(!new)>(edges: Edges, w: Progress<F>)
    requires Stable(edges, w) && w.queue == []
    ensures forall b :: b in w.ins <==> Reaches(edges, 0, b)
    ensures forall b, s {:trigger (b, s) in edges} :: (b, s) in edges && b in w.ins ==>
      s in w.ins && w.ins[s] <= w.effects[b]
    ensures w.outs == w.effects
    ensures forall b :: b in w.ins && b != 0 ==> IsJoin(edges, w.effects, b, w.ins[b])
  {
    assert w.outs.Keys == w.effects.Keys;
    assert forall b :: b in w.outs ==> w.outs[b] == w.effects[b];
    forall b, s | (b, s) in edges && b in w.ins ensures s in w.ins && w.ins[s] <= w.effects[b] {
      assert Passed(w, b, s);
    }
    forall b | Reaches(edges, 0, b) ensures b in w.ins {
      ClosedContains(edges, w.ins.Keys, 0, b);
    }
    forall b | b in w.ins && b != 0 ensures IsJoin(edges, w.effects, b, w.ins[b]) {
      assert AboveJoin(edges, w, b);
      forall f | CommonFact(edges, w.effects, b, f) ensures f in w.ins[b] {
        assert CommonFact(edges, w.outs, b, f);
      }
      forall f, p | f in w.ins[b] && (p, b) in edges && p in w.effects ensures f in w.effects[p] {
        assert Passed(w, p, b);
      }
    }
  }
}
