/** Recording which declaration a reference resolves to, and when it is ambiguous. */
module References {

  /** A declaration and a syntax node that refers to it, each by number; a node number includes its file. */
  datatype Link = Link(declaration: nat, node: nat)

  ghost predicate Added(history: seq<Link>, declaration: nat, node: nat) {
    Link(declaration, node) in history
  }

  /** All that was ever added for the node is this one declaration. */
  ghost predicate OnlyAdded(history: seq<Link>, declaration: nat, node: nat) {
    Added(history, declaration, node) && forall d :: Added(history, d, node) ==> d == declaration
  }

  ghost predicate SeveralAdded(history: seq<Link>, node: nat) {
    exists d, e :: d != e && Added(history, d, node) && Added(history, e, node)
  }

  /** The nodes added for a declaration, in the order they were first added. */
  ghost function FirstAdded(history: seq<Link>, declaration: nat): seq<nat> {
    if history == [] then []
    else
      var last := history[|history| - 1];
      var before := FirstAdded(history[..|history| - 1], declaration);
      if last.declaration == declaration && last.node !in before then before + [last.node] else before
  }

  lemma {:induction false} FirstAddedMembers(history: seq<Link>, declaration: nat, node: nat)
    ensures node in FirstAdded(history, declaration) <==> Added(history, declaration, node)
  {
    if history != [] {
      FirstAddedMembers(history[..|history| - 1], declaration, node);
      assert history == history[..|history| - 1] + [history[|history| - 1]];
    }
  }

  lemma {:induction false} FirstAddedOnce(history: seq<Link>, declaration: nat)
    ensures forall i, j :: 0 <= i < j < |FirstAdded(history, declaration)| ==>
      FirstAdded(history, declaration)[i] != FirstAdded(history, declaration)[j]
  {
    if history != [] {
      FirstAddedOnce(history[..|history| - 1], declaration);
    }
  }

  ghost function FirstAddedWith(history: seq<Link>, link: Link, d: nat): seq<nat> {
    if link.declaration == d && !Added(history, d, link.node) then FirstAdded(history, d) + [link.node]
      else FirstAdded(history, d)
  }

  lemma FirstAddedNext(history: seq<Link>, link: Link, d: nat)
    ensures FirstAdded(history + [link], d) == FirstAddedWith(history, link, d)
  {
    assert (history + [link])[..|history|] == history;
    FirstAddedMembers(history, d, link.node);
  }

  /** What is known of a node: nothing, one declaration, or that there are several. */
  datatype Status = Nothing | One(declaration: nat) | Several

  function Next(status: Status, declaration: nat): Status {
    match status
    case Nothing => One(declaration)
    case One(d) => if d == declaration then status else Several
    case Several => Several
  }

  ghost function StatusOf(history: seq<Link>, node: nat): Status {
    if history == [] then Nothing
    else
      var last, before := history[|history| - 1], StatusOf(history[..|history| - 1], node);
      if last.node == node then Next(before, last.declaration) else before
  }

  lemma StatusNext(history: seq<Link>, link: Link, node: nat)
    ensures StatusOf(history + [link], node)
      == if link.node == node then Next(StatusOf(history, node), link.declaration) else StatusOf(history, node)
  {
    assert (history + [link])[..|history|] == history;
  }

  /** The status says exactly what was ever added, whatever the order and however often. */
  lemma {:induction false} StatusMeans(history: seq<Link>, node: nat)
    ensures match StatusOf(history, node)
      case Nothing => forall d :: !Added(history, d, node)
      case One(d) => OnlyAdded(history, d, node)
      case Several => SeveralAdded(history, node)
  {
    if history != [] {
      var last, before := history[|history| - 1], history[..|history| - 1];
      StatusMeans(before, node);
      forall d: nat ensures Added(history, d, node) <==> Added(before, d, node) || Link(d, node) == last {
        assert history == before + [last];
      }
      match StatusOf(history, node)
      case Several =>
        if StatusOf(before, node).One? {
          assert Added(history, StatusOf(before, node).declaration, node) && Added(history, last.declaration, node);
        } else {
          var d, e :| d != e && Added(before, d, node) && Added(before, e, node);
          assert Added(history, d, node) && Added(history, e, node);
        }
      case _ =>
    }
  }

  class ReferenceIndex {
    var resolved: map<nat, nat>
    var ambiguous: set<nat>
    var references: map<nat, seq<nat>>
    var ambiguousReferences: set<Link>
    ghost var history: seq<Link>

    ghost function Shown(node: nat): Status
      reads this
    {
      if node in ambiguous then Several else if node in resolved then One(resolved[node]) else Nothing
    }

    function ListOf(declaration: nat): seq<nat>
      reads this
    {
      if declaration in references then references[declaration] else []
    }

    /** The maps say exactly what the history of additions says. */
    ghost predicate Valid()
      reads this
    {
      && resolved.Keys !! ambiguous
      && (forall node: nat {:trigger StatusOf(history, node)} :: StatusOf(history, node) == Shown(node))
      && (forall link :: link in ambiguousReferences <==> link in history && link.node in ambiguous)
      && (forall d: nat {:trigger FirstAdded(history, d)} :: ListOf(d) == FirstAdded(history, d))
    }

    constructor ()
      ensures Valid() && history == []
    {
      resolved, ambiguous, references, ambiguousReferences, history := map[], {}, map[], {}, [];
    }

    /** Adding a reference again changes nothing; a second declaration makes the node ambiguous for good. */
    method AddReference(declaration: nat, node: nat)
      requires Valid()
      modifies this
      ensures Valid() && history == old(history) + [Link(declaration, node)]
    {
      hide StatusOf, FirstAdded, OnlyAdded, SeveralAdded, Added;
      var link := Link(declaration, node);
      Prepare(link);
      history := history + [link];
      if node in resolved && resolved[node] == declaration {
        return;
      }
      var isAmbiguous := node in ambiguous;
      if isAmbiguous {
        if link in ambiguousReferences {
          return;
        }
        ambiguousReferences := ambiguousReferences + {link};
      } else if node in resolved {
        var existing := resolved[node];
        resolved := resolved - {node};
        ambiguous := ambiguous + {node};
        ambiguousReferences := ambiguousReferences + {Link(existing, node), link};
        isAmbiguous := true;
      }
      references := references[declaration := ListOf(declaration) + [node]];
      if isAmbiguous {
        return;
      }
      resolved := resolved[node := declaration];
    }

    /** Everything one more addition is about to change. */
    lemma Prepare(link: Link)
      requires Valid()
      ensures var more := history + [link];
        && (forall n: nat {:trigger StatusOf(more, n)} ::
              StatusOf(more, n) == if n == link.node then Next(Shown(n), link.declaration) else Shown(n))
        && (forall d: nat {:trigger FirstAdded(more, d)} ::
              FirstAdded(more, d) == if d == link.declaration && link !in history then ListOf(d) + [link.node]
                  else ListOf(d))
      ensures link.node in resolved ==> (link in history <==> resolved[link.node] == link.declaration)
      ensures link.node in resolved ==>
        forall l :: l in history && l.node == link.node <==> l == Link(resolved[link.node], link.node)
      ensures link.node !in resolved && link.node !in ambiguous ==> forall l :: l in history ==> l.node != link.node
    {
      var more := history + [link];
      forall n: nat ensures StatusOf(more, n) == if n == link.node then Next(Shown(n), link.declaration) else Shown(n) {
        StatusNext(history, link, n);
      }
      forall d: nat
        ensures FirstAdded(more, d) == if d == link.declaration && link !in history then ListOf(d) + [link.node]
          else ListOf(d)
      {
        FirstAddedNext(history, link, d);
        assert d == link.declaration ==> Link(d, link.node) == link;
      }
      StatusMeans(history, link.node);
      assert StatusOf(history, link.node) == Shown(link.node);
      forall l | l in history && l.node == link.node ensures Added(history, l.declaration, link.node) {
        assert l == Link(l.declaration, link.node);
      }
    }

    /**
     The index resolves a node exactly if one declaration was ever added for it, and marks it exactly if
     several were.
     */
    lemma IndexMeans(node: nat)
      requires Valid()
      ensures forall d :: OnlyAdded(history, d, node) <==> node in resolved && resolved[node] == d
      ensures SeveralAdded(history, node) <==> node in ambiguous
    {
      StatusMeans(history, node);
      assert StatusOf(history, node) == Shown(node);
    }

    /** Each pair is recorded once, in the order of its first addition. */
    lemma RecordedOnce(declaration: nat)
      requires Valid()
      ensures forall node :: node in ListOf(declaration) <==> Added(history, declaration, node)
      ensures forall i, j :: 0 <= i < j < |ListOf(declaration)| ==> ListOf(declaration)[i] != ListOf(declaration)[j]
    {
      FirstAddedOnce(history, declaration);
      assert ListOf(declaration) == FirstAdded(history, declaration);
      forall node: nat ensures node in ListOf(declaration) <==> Added(history, declaration, node) {
        FirstAddedMembers(history, declaration, node);
      }
    }
  }
}
