/** The block graph of one function: successor and predecessor lists, indexed by block. */
module FlowGraphs {
  import opened Graphs

  /** Block 0 is the entry. A successor list may name a block twice, once per edge kind. */
  datatype FlowGraph = FlowGraph(succs: seq<seq<nat>>, preds: seq<seq<nat>>) {

    /** Both directions agree, every block exists, and nothing leads back to the entry. */
    ghost predicate WellFormed() {
      && |succs| == |preds| > 0
      && preds[0] == []
      && (forall b, s {:trigger s in succs[b]} :: 0 <= b < |succs| && s in succs[b] ==> s < |succs| && b in preds[s])
      && (forall s, b {:trigger b in preds[s]} :: 0 <= s < |preds| && b in preds[s] ==> b < |succs| && s in succs[b])
    }

    ghost function EdgeSet(): Edges {
      set b, s | 0 <= b < |succs| && s in succs[b] :: (b, s)
    }

    predicate IsBlock(b: nat) {
      b < |succs|
    }

    ghost function BlockSet(): set<nat> {
      set b: nat | b < |succs| && IsBlock(b)
    }
  }

  lemma EdgeFacts(g: FlowGraph)
    requires g.WellFormed()
    ensures forall b, s {:trigger (b, s) in g.EdgeSet()} :: (b, s) in g.EdgeSet() ==>
      g.IsBlock(b) && g.IsBlock(s) && b in g.preds[s]
    ensures forall s, b {:trigger b in g.preds[s]} :: 0 <= s < |g.preds| && b in g.preds[s] ==> (b, s) in g.EdgeSet()
    ensures forall b {:trigger (b, 0) in g.EdgeSet()} :: (b, 0) !in g.EdgeSet()
  {
    forall b, s | (b, s) in g.EdgeSet() ensures g.IsBlock(b) && g.IsBlock(s) && b in g.preds[s] {
      assert s in g.succs[b];
    }
  }

  lemma SuccessorFacts(g: FlowGraph, block: nat, i: nat)
    requires g.WellFormed() && g.IsBlock(block) && i < |g.succs[block]|
    ensures var next := g.succs[block][i];
      g.IsBlock(next) && (block, next) in g.EdgeSet() && block in g.preds[next]
  {
    assert g.succs[block][i] in g.succs[block];
  }
}
