/**
 Recursive components of the call graph: Tarjan's search. A function is its position in the sorted
 function list, so declaration order is the order of the numbers.
 */
module CallGraphs {
  import opened Graphs

  /**
   The state of the search: discovery numbers, the functions on the stack, the components found.
   The stack itself lists the functions on it by increasing discovery number.
   */
  datatype Search = Search(indices: map<nat, nat>, onStack: set<nat>, components: seq<seq<nat>>)

  ghost predicate Mutual(edges: Edges, u: nat, v: nat) {
    ReachesByEdge(edges, u, v) && ReachesByEdge(edges, v, u)
  }

  ghost predicate Together(components: seq<seq<nat>>, u: nat, v: nat) {
    exists c :: c in components && u in c && v in c
  }

  ghost predicate Finished(s: Search, v: nat) {
    v in s.indices && v !in s.onStack
  }

  ghost predicate NotLater(s: Search, u: nat, v: nat) {
    u in s.indices && v in s.indices && s.indices[u] <= s.indices[v]
  }

  /** Every stack entry reaches an open call numbered no later. */
  ghost predicate ReachesOpen(edges: Edges, s: Search, open: set<nat>, y: nat) {
    exists g :: g in open && NotLater(s, g, y) && Reaches(edges, y, g)
  }

  ghost predicate ComponentsExact(edges: Edges, s: Search) {
    && (forall c, v :: c in s.components && v in c ==> Finished(s, v))
    && (forall c, u, v {:trigger c in s.components, Mutual(edges, u, v)} ::
          c in s.components && u in c && v in c ==> Mutual(edges, u, v))
    && (forall u, v {:trigger Mutual(edges, u, v)} :: Finished(s, u) && Mutual(edges, u, v) ==>
      Together(s.components, u, v))
    && Separate(s.components)
  }

  /** Components are non-empty, and no function is listed twice, within one or across several. */
  ghost predicate Separate(components: seq<seq<nat>>) {
    && (forall c :: c in components ==> c != [] && multiset(components)[c] == 1)
    && (forall c, v :: c in components && v in c ==> multiset(c)[v] == 1)
    && (forall c, d, v :: c in components && d in components && v in c && v in d ==> c == d)
  }

  ghost predicate Numbered(s: Search) {
    && s.onStack <= s.indices.Keys
    && forall u, v {:trigger NotLater(s, u, v)} :: NotLater(s, u, v) && NotLater(s, v, u) ==> u == v
  }

  /** Older stack entries reach newer ones. */
  ghost predicate StackReaches(edges: Edges, s: Search) {
    forall u, v {:trigger NotLater(s, u, v)} :: u in s.onStack && v in s.onStack && NotLater(s, u, v) ==>
        Reaches(edges, u, v)
  }

  /** Calls out of functions that are no longer open lead to functions met; finished ones stay finished. */
  ghost predicate CallsFollowed(edges: Edges, s: Search, open: set<nat>) {
    && (forall a, b {:trigger (a, b) in edges} :: (a, b) in edges && a in s.indices && a !in open ==> b in s.indices)
    && (forall a, b {:trigger (a, b) in edges} :: (a, b) in edges && Finished(s, a) ==> Finished(s, b))
  }

  /** `open` are the functions whose calls are still being followed. */
  ghost predicate Invariant(edges: Edges, s: Search, open: set<nat>) {
    && Numbered(s)
    && StackReaches(edges, s)
    && open <= s.onStack
    && CallsFollowed(edges, s, open)
    && (forall y {:trigger ReachesOpen(edges, s, open, y)} :: y in s.onStack ==> ReachesOpen(edges, s, open, y))
    && ComponentsExact(edges, s)
  }

  /** The later state extends the earlier: numbers are kept, new ones are larger, no old entry moves. */
  ghost predicate Extends(before: Search, s: Search) {
    && before.indices.Keys <= s.indices.Keys
    && (forall u :: u in before.indices ==> s.indices[u] == before.indices[u])
    && (forall u :: u in before.indices ==> (u in s.onStack <==> u in before.onStack))
    && (forall u, w {:trigger NotLater(s, u, w)} ::
          w in before.indices && u in s.indices && u !in before.indices ==> !NotLater(s, u, w))
  }

  ghost predicate LowReached(edges: Edges, s: Search, base: set<nat>, v: nat, low: nat) {
    exists y :: y in base && y in s.indices && s.indices[y] == low && Reaches(edges, v, y)
  }

  /** No call from a function added since `before` leads to an older stack entry numbered below `low`. */
  ghost predicate LowBounds(edges: Edges, before: Search, s: Search, except: set<nat>, low: nat) {
    forall x, y {:trigger (x, y) in edges} ::
      (x, y) in edges && x in s.onStack && x !in before.onStack && x !in except && y in before.onStack
          && y in s.indices ==>
        low <= s.indices[y]
  }

  /** What a call to connect(v) achieves. */
  ghost predicate Connected(edges: Edges, before: Search, s: Search, v: nat, low: nat) {
    && Extends(before, s)
    && v in s.indices && v !in before.indices
    && low <= s.indices[v]
    && (low == s.indices[v] ==> s.onStack == before.onStack)
    && (low < s.indices[v] ==> LowReached(edges, s, before.onStack, v, low))
    && LowBounds(edges, before, s, {}, low)
  }

  /** The state inside connect(v), after the callees in `seen` have been handled. */
  ghost predicate Following(edges: Edges, before: Search, s: Search, open: set<nat>, v: nat, low: nat, seen: set<nat>) {
    && Invariant(edges, s, open + {v})
    && Extends(before, s)
    && before.onStack <= before.indices.Keys
    && v !in before.indices && v in s.indices && v in s.onStack
    && (forall g :: g in open ==> g in before.onStack && Reaches(edges, g, v))
    && (forall u {:trigger NotLater(s, v, u)} :: u in s.indices && u !in before.indices ==> NotLater(s, v, u))
    && low <= s.indices[v]
    && (low < s.indices[v] ==> LowReached(edges, s, before.onStack, v, low))
    && LowBounds(edges, before, s, {v}, low)
    && (forall w :: w in seen ==> w in s.indices && (w in before.onStack ==> low <= s.indices[w]))
  }

  ghost predicate Newest(s: Search, index: nat) {
    forall u :: u in s.indices ==> s.indices[u] < index
  }

  lemma SameFinished(edges: Edges, s: Search, s': Search)
    requires ComponentsExact(edges, s) && s'.components == s.components
    requires forall v :: Finished(s', v) <==> Finished(s, v)
    ensures ComponentsExact(edges, s')
  {
    hide Mutual;
  }

  ghost function Entered(s: Search, v: nat, index: nat): Search {
    Search(s.indices[v := index], s.onStack + {v}, s.components)
  }

  lemma EnterStack(edges: Edges, s: Search, open: set<nat>, v: nat, index: nat)
    requires Invariant(edges, s, open) && v !in s.indices && Newest(s, index)
    requires forall g :: g in open ==> Reaches(edges, g, v)
    ensures StackReaches(edges, Entered(s, v, index)) && Numbered(Entered(s, v, index))
  {
    hide Mutual, Reaches, ComponentsExact, CallsFollowed;
    var s' := Entered(s, v, index);
    ReachesSelf(edges, v);
    forall a, b | a in s'.onStack && b in s'.onStack && NotLater(s', a, b) ensures Reaches(edges, a, b) {
      if b == v && a != v {
        assert ReachesOpen(edges, s, open, a);
        var g :| g in open && NotLater(s, g, a) && Reaches(edges, a, g);
        ReachesTransitive(edges, a, g, v);
      } else if b != v {
        assert a != v && NotLater(s, a, b);
      }
    }
    forall a, b | NotLater(s', a, b) && NotLater(s', b, a) ensures a == b {
      if a != v && b != v { assert NotLater(s, a, b) && NotLater(s, b, a); }
    }
  }

  lemma EnterOpen(edges: Edges, s: Search, open: set<nat>, v: nat, index: nat)
    requires Invariant(edges, s, open) && v !in s.indices && Newest(s, index)
    ensures forall y :: y in s.onStack + {v} ==> ReachesOpen(edges, Entered(s, v, index), open + {v}, y)
  {
    hide Mutual, Reaches, ComponentsExact, CallsFollowed, StackReaches;
    var s' := Entered(s, v, index);
    ReachesSelf(edges, v);
    forall y | y in s.onStack + {v} ensures ReachesOpen(edges, s', open + {v}, y) {
      if y == v {
        assert v in open + {v} && NotLater(s', v, v);
      } else {
        assert ReachesOpen(edges, s, open, y);
        var g :| g in open && NotLater(s, g, y) && Reaches(edges, y, g);
        assert g in open + {v} && NotLater(s', g, y);
      }
    }
  }

  /** Opening a call: the function gets the next number and goes on the stack. */
  lemma EnterFollows(edges: Edges, s: Search, open: set<nat>, v: nat, index: nat)
    requires Invariant(edges, s, open) && v !in s.indices && Newest(s, index)
    requires forall g :: g in open ==> Reaches(edges, g, v)
    ensures Following(edges, s, Entered(s, v, index), open, v, index, {})
  {
    hide Mutual, Reaches, ComponentsExact, StackReaches, ReachesOpen;
    var s' := Entered(s, v, index);
    EnterStack(edges, s, open, v, index);
    EnterOpen(edges, s, open, v, index);
    forall u ensures Finished(s', u) <==> Finished(s, u) {
    }
    SameFinished(edges, s, s');
  }

  /** A callee met before: its number lowers ours when it is still on the stack. */
  lemma VisitSeenFollows(
    edges: Edges, before: Search, s: Search, open: set<nat>, v: nat, low: nat, seen: set<nat>, w: nat)
    requires Following(edges, before, s, open, v, low, seen) && (v, w) in edges && w in s.indices
    ensures var low' := if w in s.onStack && s.indices[w] < low then s.indices[w] else low;
      Following(edges, before, s, open, v, low', seen + {w})
  {
    hide Mutual, ComponentsExact, StackReaches, Reaches, CallsFollowed;
    assert w !in before.indices ==> NotLater(s, v, w);
    if w in s.onStack && s.indices[w] < low {
      ReachesSelf(edges, w);
      ReachesCons(edges, v, w, w);
      assert LowReached(edges, s, before.onStack, v, s.indices[w]);
    }
  }

  lemma ExtendsTransitive(a: Search, b: Search, c: Search)
    requires Extends(a, b) && Extends(b, c)
    ensures Extends(a, c)
  {
    forall u, w | w in a.indices && u in c.indices && u !in a.indices ensures !NotLater(c, u, w) {
      if u in b.indices {
        assert !NotLater(b, u, w);
      } else {
        assert !NotLater(c, u, w);
      }
    }
  }

  lemma CalleeLow(edges: Edges, before: Search, s: Search, s': Search, open: set<nat>, v: nat, low: nat, seen: set<nat>,
                  w: nat, lowW: nat)
    requires Following(edges, before, s, open, v, low, seen) && (v, w) in edges && w !in s.indices
    requires Connected(edges, s, s', w, lowW) && lowW < low
    ensures LowReached(edges, s', before.onStack, v, lowW)
  {
    hide Mutual, ComponentsExact, StackReaches, Reaches, CallsFollowed, ReachesOpen, LowBounds;
    assert !NotLater(s', w, v);
    var y :| y in s.onStack && y in s'.indices && s'.indices[y] == lowW && Reaches(edges, w, y);
    assert y !in before.indices ==> NotLater(s, v, y);
    ReachesCons(edges, v, w, y);
  }

  /** A callee met for the first time, after its own search has returned. */
  lemma CalleeFollows(edges: Edges, before: Search, s: Search, s': Search, open: set<nat>, v: nat, low: nat,
      seen: set<nat>,
                      w: nat, lowW: nat)
    requires Following(edges, before, s, open, v, low, seen) && (v, w) in edges && w !in s.indices
    requires Invariant(edges, s', open + {v}) && Connected(edges, s, s', w, lowW)
    ensures Following(edges, before, s', open, v, if lowW < low then lowW else low, seen + {w})
  {
    hide Mutual, ComponentsExact, StackReaches, Reaches, CallsFollowed, ReachesOpen, Numbered;
    ExtendsTransitive(before, s, s');
    forall u | u in s'.indices && u !in before.indices ensures NotLater(s', v, u) {
      if u in s.indices {
        assert NotLater(s, v, u);
      } else {
        assert !NotLater(s', u, v);
      }
    }
    if lowW < low {
      CalleeLow(edges, before, s, s', open, v, low, seen, w, lowW);
    } else if low < s'.indices[v] {
      var y :| y in before.onStack && y in s.indices && s.indices[y] == low && Reaches(edges, v, y);
      assert LowReached(edges, s', before.onStack, v, low);
    }
  }

  ghost predicate AllSeen(edges: Edges, v: nat, seen: set<nat>) {
    forall b {:trigger (v, b) in edges} :: (v, b) in edges ==> b in seen
  }

  /** Returning while the function still reaches an older stack entry: it stays on the stack. */
  lemma ReturnConnected(edges: Edges, before: Search, s: Search, open: set<nat>, v: nat, low: nat, seen: set<nat>)
    requires Following(edges, before, s, open, v, low, seen) && AllSeen(edges, v, seen) && low < s.indices[v]
    ensures Invariant(edges, s, open) && Connected(edges, before, s, v, low)
  {
    hide Mutual, ComponentsExact, StackReaches, Reaches, Numbered, Extends;
    OpenAfterReturn(edges, before, s, open, v, low, seen);
    AllCallsSeen(edges, before, s, open, v, low, seen);
    hide ReachesOpen, CallsFollowed, LowBounds, LowReached;
  }

  /** With every callee handled, the bounds on calls cover the function itself. */
  lemma AllCallsSeen(edges: Edges, before: Search, s: Search, open: set<nat>, v: nat, low: nat, seen: set<nat>)
    requires Following(edges, before, s, open, v, low, seen) && AllSeen(edges, v, seen)
    ensures CallsFollowed(edges, s, open) && LowBounds(edges, before, s, {}, low)
  {
    hide Mutual, ComponentsExact, StackReaches, Reaches, Numbered, Extends, ReachesOpen, LowReached;
  }

  lemma OpenAfterReturn(edges: Edges, before: Search, s: Search, open: set<nat>, v: nat, low: nat, seen: set<nat>)
    requires Following(edges, before, s, open, v, low, seen) && low < s.indices[v]
    ensures open <= s.onStack && forall y :: y in s.onStack ==> ReachesOpen(edges, s, open, y)
  {
    hide Mutual, ComponentsExact, StackReaches, Reaches, Numbered, CallsFollowed, LowBounds;
    var y0 :| y0 in before.onStack && y0 in s.indices && s.indices[y0] == low && Reaches(edges, v, y0);
    assert ReachesOpen(edges, s, open + {v}, y0);
    var g0 :| g0 in open + {v} && NotLater(s, g0, y0) && Reaches(edges, y0, g0);
    ReachesTransitive(edges, v, y0, g0);
    forall y | y in s.onStack ensures ReachesOpen(edges, s, open, y) {
      assert ReachesOpen(edges, s, open + {v}, y);
      var g :| g in open + {v} && NotLater(s, g, y) && Reaches(edges, y, g);
      if g == v {
        ReachesTransitive(edges, y, v, g0);
        assert g0 in open && NotLater(s, g0, y);
      } else {
        assert g in open;
      }
    }
  }

  // ----- Closing a component -----

  ghost function Members(before: Search, s: Search): set<nat> {
    s.onStack - before.onStack
  }

  ghost predicate Closing(edges: Edges, before: Search, s: Search, open: set<nat>, v: nat, seen: set<nat>) {
    v in s.indices && Following(edges, before, s, open, v, s.indices[v], seen) && AllSeen(edges, v, seen)
  }

  /** Calls from the new component lead into it or to finished functions. */
  lemma NoEscape(edges: Edges, before: Search, s: Search, open: set<nat>, v: nat, seen: set<nat>)
    requires Closing(edges, before, s, open, v, seen)
    ensures forall a, b {:trigger (a, b) in edges} ::
      (a, b) in edges && a in s.indices && a !in before.onStack ==> b in s.indices && b !in before.onStack
  {
    hide Mutual, ComponentsExact, StackReaches, Reaches, ReachesOpen, LowReached;
    AllCallsSeen(edges, before, s, open, v, s.indices[v], seen);
    forall a, b | (a, b) in edges && a in s.indices && a !in before.onStack
      ensures b in s.indices && b !in before.onStack
    {
      if a in s.onStack {
        assert a !in open;
        assert b in before.indices ==> !NotLater(s, v, b);
      }
    }
  }

  lemma RegionIsClosed(edges: Edges, before: Search, s: Search, open: set<nat>, v: nat, seen: set<nat>, x: nat, y: nat)
    requires Closing(edges, before, s, open, v, seen) && Reaches(edges, x, y)
    requires x in s.indices && x !in before.onStack
    ensures y in s.indices && y !in before.onStack
    ensures Finished(s, x) ==> Finished(s, y)
  {
    hide Mutual, ComponentsExact, StackReaches, Reaches, ReachesOpen, LowReached, LowBounds, Extends;
    NoEscape(edges, before, s, open, v, seen);
    ClosedContains(edges, s.indices.Keys - before.onStack, x, y);
    if Finished(s, x) {
      ClosedContains(edges, s.indices.Keys - s.onStack, x, y);
    }
  }

  lemma MembersReachRoot(edges: Edges, before: Search, s: Search, open: set<nat>, v: nat, seen: set<nat>, x: nat)
    requires Closing(edges, before, s, open, v, seen) && x in Members(before, s)
    ensures Reaches(edges, x, v) && Reaches(edges, v, x)
  {
    hide Mutual, ComponentsExact, Reaches, LowReached, LowBounds, CallsFollowed;
    assert ReachesOpen(edges, s, open + {v}, x);
    var g :| g in open + {v} && NotLater(s, g, x) && Reaches(edges, x, g);
    RegionIsClosed(edges, before, s, open, v, seen, x, g);
    assert g == v;
    assert x !in before.indices;
    assert NotLater(s, v, x);
  }

  lemma MutualReaches(edges: Edges, u: nat, w: nat)
    requires Mutual(edges, u, w)
    ensures Reaches(edges, u, w) && Reaches(edges, w, u)
  {
    var a :| (u, a) in edges && Reaches(edges, a, w);
    ReachesCons(edges, u, a, w);
    var b :| (w, b) in edges && Reaches(edges, b, u);
    ReachesCons(edges, w, b, u);
  }

  lemma MutualStaysInside(edges: Edges, before: Search, s: Search, open: set<nat>, v: nat, seen: set<nat>, u: nat,
      w: nat)
    requires Closing(edges, before, s, open, v, seen) && u in Members(before, s) && Mutual(edges, u, w)
    ensures w in Members(before, s)
  {
    hide Mutual, Closing, Reaches;
    assert u in s.indices by { OnStackIsNumbered(edges, before, s, open, v, seen); }
    MutualReaches(edges, u, w);
    RegionIsClosed(edges, before, s, open, v, seen, u, w);
    if Finished(s, w) {
      RegionIsClosed(edges, before, s, open, v, seen, w, u);
    }
  }

  lemma OnStackIsNumbered(edges: Edges, before: Search, s: Search, open: set<nat>, v: nat, seen: set<nat>)
    requires Closing(edges, before, s, open, v, seen)
    ensures s.onStack <= s.indices.Keys && v in Members(before, s)
  {
  }

  ghost predicate Recursive(edges: Edges, members: set<nat>, v: nat) {
    members != {v} || (v, v) in edges
  }

  lemma MembersAreMutual(edges: Edges, before: Search, s: Search, open: set<nat>, v: nat, seen: set<nat>, u: nat,
      w: nat)
    requires Closing(edges, before, s, open, v, seen) && u in Members(before, s) && w in Members(before, s)
    requires Recursive(edges, Members(before, s), v)
    ensures Mutual(edges, u, w)
  {
    hide Closing, Reaches, ReachesByEdge;
    OnStackIsNumbered(edges, before, s, open, v, seen);
    MemberReachesByEdge(edges, before, s, open, v, seen, u, w);
    MemberReachesByEdge(edges, before, s, open, v, seen, w, u);
  }

  lemma MemberReachesByEdge(edges: Edges, before: Search, s: Search, open: set<nat>, v: nat, seen: set<nat>, u: nat,
      w: nat)
    requires Closing(edges, before, s, open, v, seen) && u in Members(before, s) && w in Members(before, s)
    requires Recursive(edges, Members(before, s), v)
    ensures ReachesByEdge(edges, u, w)
  {
    hide Closing, Reaches;
    OnStackIsNumbered(edges, before, s, open, v, seen);
    MembersReachRoot(edges, before, s, open, v, seen, u);
    MembersReachRoot(edges, before, s, open, v, seen, w);
    if u != w {
      ReachesTransitive(edges, u, v, w);
      ReachesByEdgeIff(edges, u, w);
    } else if Members(before, s) == {v} {
      ReachesSelf(edges, v);
    } else {
      var x :| x in Members(before, s) && x != u;
      MembersReachRoot(edges, before, s, open, v, seen, x);
      ReachesTransitive(edges, u, v, x);
      ReachesTransitive(edges, x, v, u);
      ReachesByEdgeIff(edges, u, x);
      var n :| (u, n) in edges && Reaches(edges, n, x);
      ReachesTransitive(edges, n, x, u);
    }
  }

  lemma LonelyIsNotMutual(edges: Edges, before: Search, s: Search, open: set<nat>, v: nat, seen: set<nat>, w: nat)
    requires Closing(edges, before, s, open, v, seen)
    requires !Recursive(edges, Members(before, s), v)
    ensures !Mutual(edges, v, w)
  {
    hide Closing, Reaches;
    if Mutual(edges, v, w) {
      OnStackIsNumbered(edges, before, s, open, v, seen);
      MutualStaysInside(edges, before, s, open, v, seen, v, w);
      assert w == v;
      var n :| (v, n) in edges && Reaches(edges, n, v);
      ReachesSelf(edges, n);
      ReachesCons(edges, v, n, n);
      assert Mutual(edges, n, v) || n == v by { MutualFromReaches(edges, v, n); }
      if n != v { MutualStaysInside(edges, before, s, open, v, seen, v, n); }
    }
  }

  lemma MutualFromReaches(edges: Edges, u: nat, w: nat)
    requires Reaches(edges, u, w) && Reaches(edges, w, u)
    ensures u != w ==> Mutual(edges, u, w) && Mutual(edges, w, u)
  {
    if u != w {
      ReachesByEdgeIff(edges, u, w);
      ReachesByEdgeIff(edges, w, u);
    }
  }

  ghost predicate Lists(component: seq<nat>, members: set<nat>) {
    && (forall v :: v in component <==> v in members)
    && (forall v :: v in component ==> multiset(component)[v] == 1)
  }

  /** After the component has been popped; it is recorded only when it is recursive. */
  ghost function Closed(edges: Edges, before: Search, s: Search, v: nat, component: seq<nat>): Search {
    Search(s.indices, before.onStack,
           if Recursive(edges, Members(before, s), v) then s.components + [component] else s.components)
  }

  lemma RecordKeepsSeparate(components: seq<seq<nat>>, component: seq<nat>, members: set<nat>)
    requires Separate(components) && Lists(component, members) && members != {}
    requires forall c, v :: c in components && v in c ==> v !in members
    ensures Separate(components + [component])
  {
    var v :| v in members;
    assert v in component;
    assert component !in components;
    assert multiset(components + [component]) == multiset(components) + multiset{component};
  }

  lemma ClosedComponents(edges: Edges, before: Search, s: Search, open: set<nat>, v: nat, seen: set<nat>,
      component: seq<nat>)
    requires Closing(edges, before, s, open, v, seen) && Lists(component, Members(before, s))
    ensures ComponentsExact(edges, Closed(edges, before, s, v, component))
  {
    hide Mutual, Closing;
    OnStackIsNumbered(edges, before, s, open, v, seen);
    var s' := Closed(edges, before, s, v, component);
    assert ComponentsExact(edges, s) && before.onStack <= s.onStack by {
      ClosingFacts(edges, before, s, open, v, seen);
    }
    forall u ensures Finished(s', u) <==> Finished(s, u) || u in Members(before, s) {
    }
    if Recursive(edges, Members(before, s), v) {
      RecordKeepsSeparate(s.components, component, Members(before, s));
      forall c, a, b | c in s'.components && a in c && b in c ensures Mutual(edges, a, b) {
        if c == component { MembersAreMutual(edges, before, s, open, v, seen, a, b); }
      }
      forall a, b | Finished(s', a) && Mutual(edges, a, b) ensures Together(s'.components, a, b) {
        if Finished(s, a) {
          var c :| c in s.components && a in c && b in c;
          assert c in s'.components;
        } else {
          MutualStaysInside(edges, before, s, open, v, seen, a, b);
          assert component in s'.components;
        }
      }
    } else {
      forall a, b | Finished(s', a) && Mutual(edges, a, b) ensures Together(s'.components, a, b) {
        if !Finished(s, a) { LonelyIsNotMutual(edges, before, s, open, v, seen, b); }
      }
    }
  }

  lemma ClosingFacts(edges: Edges, before: Search, s: Search, open: set<nat>, v: nat, seen: set<nat>)
    requires Closing(edges, before, s, open, v, seen)
    ensures Invariant(edges, s, open + {v}) && Extends(before, s) && before.onStack <= s.onStack
      && open <= before.onStack
  {
  }

  lemma ClosedOpen(edges: Edges, before: Search, s: Search, open: set<nat>, v: nat, seen: set<nat>, s': Search)
    requires Closing(edges, before, s, open, v, seen) && s'.indices == s.indices && s'.onStack == before.onStack
    ensures forall y :: y in s'.onStack ==> ReachesOpen(edges, s', open, y)
    ensures StackReaches(edges, s') && Numbered(s')
  {
    hide Mutual, ComponentsExact, Reaches, LowReached, LowBounds, CallsFollowed;
    forall y | y in s'.onStack ensures ReachesOpen(edges, s', open, y) {
      assert ReachesOpen(edges, s, open + {v}, y);
      var g :| g in open + {v} && NotLater(s, g, y) && Reaches(edges, y, g);
      assert g == v ==> !NotLater(s, v, y);
      assert g in open && NotLater(s', g, y);
    }
    forall a, b | a in s'.onStack && b in s'.onStack && NotLater(s', a, b) ensures Reaches(edges, a, b) {
      assert NotLater(s, a, b);
    }
    forall a, b | NotLater(s', a, b) && NotLater(s', b, a) ensures a == b {
      assert NotLater(s, a, b) && NotLater(s, b, a);
    }
  }

  lemma ClosedCalls(edges: Edges, before: Search, s: Search, open: set<nat>, v: nat, seen: set<nat>, s': Search)
    requires Closing(edges, before, s, open, v, seen) && s'.indices == s.indices && s'.onStack == before.onStack
    ensures CallsFollowed(edges, s', open) && Extends(before, s') && LowBounds(edges, before, s', {}, s.indices[v])
  {
    hide Mutual, ComponentsExact, StackReaches, Reaches, ReachesOpen;
    NoEscape(edges, before, s, open, v, seen);
    forall u, w | w in before.indices && u in s'.indices && u !in before.indices ensures !NotLater(s', u, w) {
      assert !NotLater(s, u, w);
    }
  }

  /** Returning at the root of a component: its members leave the stack together. */
  lemma CloseConnected(edges: Edges, before: Search, s: Search, open: set<nat>, v: nat, seen: set<nat>,
      component: seq<nat>)
    requires Closing(edges, before, s, open, v, seen) && Lists(component, Members(before, s))
    ensures Invariant(edges, Closed(edges, before, s, v, component), open)
    ensures Connected(edges, before, Closed(edges, before, s, v, component), v, s.indices[v])
  {
    var s' := Closed(edges, before, s, v, component);
    assert v !in before.indices;
    hide Closing, Mutual, ComponentsExact, StackReaches, ReachesOpen, Numbered, CallsFollowed, LowBounds, Extends;
    ClosingFacts(edges, before, s, open, v, seen);
    ClosedComponents(edges, before, s, open, v, seen, component);
    ClosedOpen(edges, before, s, open, v, seen, s');
    ClosedCalls(edges, before, s, open, v, seen, s');
  }

  // ----- The search as it runs -----

  datatype Call = Call(caller: nat, callee: nat)

  predicate IsFunction(v: nat, count: nat) {
    v < count
  }

  ghost function FunctionSet(count: nat): set<nat> {
    set v: nat | v < count && IsFunction(v, count)
  }

  ghost function CallEdges(calls: seq<Call>): Edges {
    set c | c in calls :: (c.caller, c.callee)
  }

  /** The outgoing index: for each caller the positions of its calls, in order. */
  ghost predicate Indexed(calls: seq<Call>, count: nat, outgoing: seq<seq<nat>>) {
    && |outgoing| == count
    && (forall i :: 0 <= i < |calls| ==> calls[i].caller < count && calls[i].callee < count)
    && (forall f, i {:trigger i in outgoing[f]} :: 0 <= f < count && i in outgoing[f] ==>
      i < |calls| && calls[i].caller == f)
    && (forall i :: 0 <= i < |calls| ==> i in outgoing[calls[i].caller])
  }

  method IndexOutgoing(calls: seq<Call>, count: nat) returns (outgoing: seq<seq<nat>>)
    requires forall i :: 0 <= i < |calls| ==> calls[i].caller < count && calls[i].callee < count
    ensures Indexed(calls, count, outgoing) && forall f :: 0 <= f < count ==> Increasing(outgoing[f])
  {
    outgoing := seq(count, _ => []);
    for i := 0 to |calls|
      invariant |outgoing| == count && forall f :: 0 <= f < count ==> Increasing(outgoing[f])
      invariant forall f, j {:trigger j in outgoing[f]} :: 0 <= f < count && j in outgoing[f] ==>
        j < i && calls[j].caller == f
      invariant forall j :: 0 <= j < i ==> j in outgoing[calls[j].caller]
    {
      var f := calls[i].caller;
      assert forall k :: 0 <= k < |outgoing[f]| ==> outgoing[f][k] in outgoing[f];
      outgoing := outgoing[f := outgoing[f] + [i]];
    }
  }

  /** In the order of the calls, and none twice. */
  predicate Increasing(s: seq<nat>) {
    forall i, j :: 0 <= i < j < |s| ==> s[i] < s[j]
  }

  predicate Sorted(s: seq<nat>) {
    forall i, j :: 0 <= i < j < |s| ==> s[i] <= s[j]
  }

  function Insert(v: nat, s: seq<nat>): (r: seq<nat>)
    ensures multiset(r) == multiset(s) + multiset{v}
  {
    if s == [] || v < s[0] then [v] + s
    else
      assert s == [s[0]] + s[1..];
      [s[0]] + Insert(v, s[1..])
  }

  lemma {:induction false} InsertKeepsSorted(v: nat, s: seq<nat>)
    requires Sorted(s)
    ensures Sorted(Insert(v, s))
    decreases |s|
  {
    if s != [] && s[0] <= v {
      var rest := Insert(v, s[1..]);
      InsertKeepsSorted(v, s[1..]);
      forall i | 0 <= i < |rest| ensures s[0] <= rest[i] {
        assert rest[i] in multiset(rest);
        assert rest[i] == v || rest[i] in s[1..];
      }
      assert Insert(v, s) == [s[0]] + rest;
    }
  }

  function SortDeclarations(s: seq<nat>): (r: seq<nat>)
    ensures multiset(r) == multiset(s) && Sorted(r)
  {
    if s == [] then []
    else
      var front := SortDeclarations(s[..|s| - 1]);
      assert s == s[..|s| - 1] + [s[|s| - 1]];
      InsertKeepsSorted(s[|s| - 1], front);
      Insert(s[|s| - 1], front)
  }

  predicate Head(c: seq<nat>, d: seq<nat>) {
    c != [] && d != [] && c[0] <= d[0]
  }

  predicate NonEmpty(cs: seq<seq<nat>>) {
    forall i :: 0 <= i < |cs| ==> cs[i] != []
  }

  predicate SortedByHead(cs: seq<seq<nat>>) {
    forall i, j :: 0 <= i < j < |cs| ==> Head(cs[i], cs[j])
  }

  function InsertComponent(c: seq<nat>, cs: seq<seq<nat>>): (r: seq<seq<nat>>)
    requires c != [] && NonEmpty(cs)
    ensures multiset(r) == multiset(cs) + multiset{c} && NonEmpty(r)
  {
    if cs == [] || c[0] < cs[0][0] then [c] + cs
    else
      assert cs == [cs[0]] + cs[1..];
      [cs[0]] + InsertComponent(c, cs[1..])
  }

  lemma {:induction false} InsertKeepsHeads(c: seq<nat>, cs: seq<seq<nat>>)
    requires c != [] && NonEmpty(cs) && SortedByHead(cs)
    ensures SortedByHead(InsertComponent(c, cs))
    decreases |cs|
  {
    if cs != [] && cs[0][0] <= c[0] {
      var rest := InsertComponent(c, cs[1..]);
      InsertKeepsHeads(c, cs[1..]);
      forall d | d in rest ensures Head(cs[0], d) {
        assert d in multiset(rest);
        if d != c {
          var k :| 0 <= k < |cs[1..]| && cs[1..][k] == d;
          assert Head(cs[0], cs[k + 1]);
        }
      }
    }
  }

  function SortComponents(cs: seq<seq<nat>>): (r: seq<seq<nat>>)
    requires NonEmpty(cs)
    ensures multiset(r) == multiset(cs) && SortedByHead(r) && NonEmpty(r)
  {
    if cs == [] then []
    else
      var front := SortComponents(cs[..|cs| - 1]);
      assert cs == cs[..|cs| - 1] + [cs[|cs| - 1]];
      InsertKeepsHeads(cs[|cs| - 1], front);
      InsertComponent(cs[|cs| - 1], front)
  }

  lemma PermutedComponents(a: seq<seq<nat>>, b: seq<seq<nat>>)
    requires multiset(a) == multiset(b)
    ensures Separate(a) ==> Separate(b)
    ensures forall u, v :: Together(a, u, v) <==> Together(b, u, v)
    ensures forall c :: c in a <==> c in b
  {
    forall c ensures c in a <==> c in b {
      assert c in multiset(a) <==> c in multiset(b);
    }
  }

  ghost function Elements(s: seq<nat>): set<nat> {
    set v | v in s
  }

  class RecursiveSearch {
    const calls: seq<Call>
    const count: nat
    const outgoing: seq<seq<nat>>
    var index: nat
    var indices: map<nat, nat>
    var lowlink: map<nat, nat>
    var onStack: set<nat>
    var stack: seq<nat>
    var components: seq<seq<nat>>

    constructor (calls: seq<Call>, count: nat, outgoing: seq<seq<nat>>)
      requires Indexed(calls, count, outgoing)
      ensures this.calls == calls && this.count == count && this.outgoing == outgoing
      ensures Valid() && indices == map[] && stack == [] && components == []
    {
      this.calls, this.count, this.outgoing := calls, count, outgoing;
      index, indices, lowlink, onStack, stack, components := 0, map[], map[], {}, [], [];
    }

    ghost function State(): Search
      reads this
    {
      Search(indices, onStack, components)
    }

    ghost predicate Valid()
      reads this
    {
      && Indexed(calls, count, outgoing)
      && (forall v :: v in indices ==> v < count && indices[v] <= index)
      && lowlink.Keys == indices.Keys
      && onStack == Elements(stack) && onStack <= indices.Keys
      && (forall i, j :: 0 <= i < j < |stack| ==> indices[stack[i]] < indices[stack[j]])
      && (forall c :: c in components ==> Sorted(c))
    }

    /** Pops the stack down to and including the entry at position `bottom`. */
    method PopComponent(v: nat, ghost bottom: nat) returns (component: seq<nat>)
      requires bottom < |stack| && stack[bottom] == v && onStack == Elements(stack)
      requires forall i, j :: 0 <= i < j < |stack| ==> stack[i] != stack[j]
      modifies this`stack, this`onStack
      ensures stack == old(stack)[..bottom] && onStack == Elements(stack)
      ensures Lists(component, old(onStack) - onStack)
    {
      component := [];
      ghost var k := |stack|;
      while |stack| != 0
        invariant bottom < k == |stack| <= |old(stack)| && stack == old(stack)[..k]
        invariant onStack == Elements(stack)
        invariant forall u :: u in component <==> u in old(stack)[k..]
        invariant forall u :: u in component ==> multiset(component)[u] == 1
        decreases |stack|
      {
        var last := stack[|stack| - 1];
        assert last == old(stack)[k - 1] && old(stack)[k - 1..] == [last] + old(stack)[k..];
        assert last !in old(stack)[k..] && last !in old(stack)[..k - 1];
        assert stack == old(stack)[..k - 1] + [last];
        stack := stack[..|stack| - 1];
        onStack := onStack - {last};
        component := component + [last];
        k := k - 1;
        assert onStack == Elements(stack);
        if last == v {
          break;
        }
      }
      assert k == bottom;
      assert old(stack) == old(stack)[..bottom] + old(stack)[bottom..];
    }

    method SelfCalls(v: nat) returns (self: bool)
      requires Valid() && v < count
      ensures self <==> (v, v) in CallEdges(calls)
    {
      for i := 0 to |outgoing[v]|
        invariant forall j :: 0 <= j < i ==> outgoing[v][j] < |calls| && calls[outgoing[v][j]].callee != v
      {
        IndexedCall(calls, count, outgoing, v, i);
        if calls[outgoing[v][i]].callee == v {
          return true;
        }
      }
      CallsOf(calls, count, outgoing, v, v);
      return false;
    }

    /** The state between two calls of `v`: its search was opened on `before`, with this stack and these low links. */
    ghost predicate Following'(before: Search, base: seq<nat>, lows: map<nat, nat>, open: set<nat>, v: nat,
        seen: set<nat>)
      reads this
    {
      && Valid() && v in lowlink
      && Following(CallEdges(calls), before, State(), open, v, lowlink[v], seen)
      && (forall u :: u in lows ==> u in lowlink && lowlink[u] == lows[u])
      && |base| < |stack| && stack[..|base|] == base && stack[|base|] == v
    }

    /** Follows one call, searching from the callee first when it is new. */
    method FollowCall(
      v: nat, callee: nat, ghost before: Search, ghost base: seq<nat>, ghost lows: map<nat, nat>,
      ghost open: set<nat>, ghost seen: set<nat>)
      requires Following'(before, base, lows, open, v, seen) && v !in lows
      requires (v, callee) in CallEdges(calls) && callee < count
      modifies this
      ensures Following'(before, base, lows, open, v, seen + {callee})
      ensures old(indices.Keys) <= indices.Keys
      decreases FunctionSet(count) - indices.Keys, 2
    {
      if callee !in indices {
        FollowNewCall(v, callee, before, base, lows, open, seen);
      } else {
        FollowSeenCall(v, callee, before, base, lows, open, seen);
      }
    }

    method FollowNewCall(
      v: nat, callee: nat, ghost before: Search, ghost base: seq<nat>, ghost lows: map<nat, nat>,
      ghost open: set<nat>, ghost seen: set<nat>)
      requires Following'(before, base, lows, open, v, seen) && v !in lows
      requires (v, callee) in CallEdges(calls) && callee < count && callee !in indices
      modifies this
      ensures Following'(before, base, lows, open, v, seen + {callee})
      ensures old(indices.Keys) <= indices.Keys
      decreases FunctionSet(count) - indices.Keys, 1
    {
      hide Numbered, StackReaches, CallsFollowed, ReachesOpen, ComponentsExact, Extends, LowReached, LowBounds, Reaches,
        CallEdges, Following, Connected, Invariant;
      ghost var edges, s, low := CallEdges(calls), State(), lowlink[v];
      CallerReaches(edges, before, s, open, v, low, seen, callee);
      Connect(callee, open + {v});
      ConnectedGrows(edges, s, State(), callee, lowlink[callee]);
      CalleeFollows(edges, before, s, State(), open, v, low, seen, callee, lowlink[callee]);
      if lowlink[callee] < lowlink[v] {
        lowlink := lowlink[v := lowlink[callee]];
      }
    }

    method FollowSeenCall(
      v: nat, callee: nat, ghost before: Search, ghost base: seq<nat>, ghost lows: map<nat, nat>,
      ghost open: set<nat>, ghost seen: set<nat>)
      requires Following'(before, base, lows, open, v, seen) && v !in lows
      requires (v, callee) in CallEdges(calls) && callee < count && callee in indices
      modifies this`lowlink
      ensures Following'(before, base, lows, open, v, seen + {callee})
    {
      hide Following, Reaches, CallEdges;
      VisitSeenFollows(CallEdges(calls), before, State(), open, v, lowlink[v], seen, callee);
      if callee in onStack && indices[callee] < lowlink[v] {
        lowlink := lowlink[v := indices[callee]];
      }
    }

    method Connect(v: nat, ghost open: set<nat>)
      requires Valid() && Invariant(CallEdges(calls), State(), open)
      requires v < count && v !in indices
      requires forall g :: g in open ==> Reaches(CallEdges(calls), g, v)
      modifies this
      ensures Valid() && Invariant(CallEdges(calls), State(), open)
      ensures v in indices && Connected(CallEdges(calls), old(State()), State(), v, lowlink[v])
      ensures forall u :: u in old(lowlink) ==> u in lowlink && lowlink[u] == old(lowlink[u])
      ensures old(stack) <= stack
      decreases FunctionSet(count) - indices.Keys, 0
    {
      hide Invariant, Reaches, CallEdges, Following, Connected, AllSeen;
      ghost var before, base, lows := State(), stack, lowlink;
      assert IsFunction(v, count);
      Enter(v, open);
      ghost var seen: set<nat> := {};
      var callees := outgoing[v];
      for i := 0 to |callees|
        invariant Following'(before, base, lows, open, v, seen)
        invariant before.indices.Keys + {v} <= indices.Keys
        invariant forall j :: 0 <= j < i ==> callees[j] < |calls| && calls[callees[j]].callee in seen
      {
        hide Valid;
        assert Indexed(calls, count, outgoing) by { ValidIsIndexed(); }
        IndexedCall(calls, count, outgoing, v, i);
        FollowCall(v, calls[callees[i]].callee, before, base, lows, open, seen);
        seen := seen + {calls[callees[i]].callee};
      }
      CalleesSeen(calls, count, outgoing, v, seen);
      Leave(v, before, base, lows, open, seen);
    }

    lemma ValidIsIndexed()
      requires Valid()
      ensures Indexed(calls, count, outgoing)
    {
    }

    /** Numbers the function and puts it on the stack. */
    method Enter(v: nat, ghost open: set<nat>)
      requires Valid() && Invariant(CallEdges(calls), State(), open)
      requires v < count && v !in indices
      requires forall g :: g in open ==> Reaches(CallEdges(calls), g, v)
      modifies this
      ensures Following'(old(State()), old(stack), old(lowlink), open, v, {})
      ensures indices.Keys == old(indices.Keys) + {v}
    {
      hide Invariant, Reaches, CallEdges, Following;
      EnterFollows(CallEdges(calls), State(), open, v, index + 1);
      index := index + 1;
      indices := indices[v := index];
      lowlink := lowlink[v := index];
      stack := stack + [v];
      onStack := onStack + {v};
    }

    /**
     The recursive components: two functions share a component exactly when each reaches the other
     by at least one call, and no function is listed twice.
     */
    method FindRecursiveComponents() returns (result: seq<seq<nat>>)
      requires Valid() && indices == map[] && stack == [] && components == []
      modifies this
      ensures forall u: nat, v: nat :: u < count && v < count ==>
        (Together(result, u, v) <==> Mutual(CallEdges(calls), u, v))
      ensures forall c, v :: c in result && v in c ==> v < count
      ensures Separate(result) && SortedByHead(result) && forall c :: c in result ==> Sorted(c)
    {
      hide Reaches, ReachesByEdge, CallEdges, Connected, Sorted, SortedByHead, Mutual;
      ghost var edges := CallEdges(calls);
      for f := 0 to count
        invariant Valid() && Invariant(edges, State(), {})
        invariant forall v :: 0 <= v < f ==> v in indices
      {
        if f !in indices {
          ghost var before := State();
          Connect(f, {});
          ConnectedGrows(edges, before, State(), f, lowlink[f]);
        }
      }
      NothingOpen(edges, State());
      result := SortComponents(components);
      PermutedComponents(components, result);
      FinishedIsExact(edges, State(), count);
    }

    /** Pops and records the component when the function is its root, once all its calls are followed. */
    method Leave(v: nat, ghost before: Search, ghost base: seq<nat>, ghost lows: map<nat, nat>, ghost open: set<nat>,
        ghost seen: set<nat>)
      requires Following'(before, base, lows, open, v, seen) && AllSeen(CallEdges(calls), v, seen)
      requires before.onStack == Elements(base) && v < count
      modifies this
      ensures Valid() && Invariant(CallEdges(calls), State(), open)
      ensures v in indices && Connected(CallEdges(calls), before, State(), v, lowlink[v])
      ensures lowlink == old(lowlink) && base <= stack
    {
      hide Invariant, Reaches, CallEdges, Following, Connected, AllSeen, Recursive;
      ghost var edges, s := CallEdges(calls), State();
      LowNotAbove(edges, before, s, open, v, lowlink[v], seen);
      if lowlink[v] != indices[v] {
        ReturnConnected(edges, before, s, open, v, lowlink[v], seen);
        return;
      }
      Close(v, before, base, lows, open, seen);
    }

    method Close(v: nat, ghost before: Search, ghost base: seq<nat>, ghost lows: map<nat, nat>, ghost open: set<nat>,
        ghost seen: set<nat>)
      requires Following'(before, base, lows, open, v, seen) && AllSeen(CallEdges(calls), v, seen)
      requires before.onStack == Elements(base) && v < count && lowlink[v] == indices[v]
      modifies this
      ensures Valid() && Invariant(CallEdges(calls), State(), open)
      ensures v in indices && Connected(CallEdges(calls), before, State(), v, lowlink[v])
      ensures lowlink == old(lowlink) && base <= stack
    {
      hide Invariant, Reaches, CallEdges, Following, Connected, AllSeen, Recursive, Extends, Sorted, Lists;
      ghost var edges, s := CallEdges(calls), State();
      LowNotAbove(edges, before, s, open, v, lowlink[v], seen);
      var component, recursive := TakeComponent(v, |base|);
      CloseConnected(edges, before, s, open, v, seen, component);
      if recursive {
        components := components + [component];
      }
    }

    /** Takes the entries from `v` on off the stack, in order of declaration, and tells whether they are recursive. */
    method TakeComponent(v: nat, ghost bottom: nat) returns (component: seq<nat>, recursive: bool)
      requires Valid() && v < count && bottom < |stack| && stack[bottom] == v
      modifies this`stack, this`onStack
      ensures Valid() && stack == old(stack)[..bottom] && Sorted(component)
      ensures Lists(component, old(onStack) - onStack)
      ensures recursive <==> Recursive(CallEdges(calls), old(onStack) - onStack, v)
    {
      hide CallEdges, Sorted, Lists;
      var popped := PopComponent(v, bottom);
      ghost var members := old(onStack) - onStack;
      assert v in members by { TopLeaves(old(stack), bottom); }
      SingletonMembers(popped, members, v);
      RecursiveMeans(CallEdges(calls), members, v);
      recursive := |popped| != 1;
      if !recursive {
        recursive := SelfCalls(popped[0]);
      }
      component := SortDeclarations(popped);
      ListsPermuted(popped, component, members);
    }
  }

  lemma TopLeaves(stack: seq<nat>, bottom: nat)
    requires bottom < |stack| && forall i, j :: 0 <= i < j < |stack| ==> stack[i] != stack[j]
    ensures stack[bottom] in Elements(stack) - Elements(stack[..bottom])
  {
  }

  lemma NothingOpen(edges: Edges, s: Search)
    requires Invariant(edges, s, {})
    ensures s.onStack == {} && NonEmpty(s.components)
  {
    assert forall y :: y in s.onStack ==> ReachesOpen(edges, s, {}, y);
    assert forall i :: 0 <= i < |s.components| ==> s.components[i] in s.components;
  }

  lemma FinishedIsExact(edges: Edges, s: Search, count: nat)
    requires Invariant(edges, s, {}) && s.onStack == {} && forall v :: 0 <= v < count ==> v in s.indices
    ensures forall u: nat, v: nat :: u < count && v < count ==> (Together(s.components, u, v) <==> Mutual(edges, u, v))
    ensures forall c, v :: c in s.components && v in c ==> v in s.indices
  {
    hide Mutual;
    forall u: nat, v: nat | u < count && v < count ensures Together(s.components, u, v) <==> Mutual(edges, u, v) {
      assert Finished(s, u);
      if Together(s.components, u, v) {
        var c :| c in s.components && u in c && v in c;
        assert Mutual(edges, u, v) by { MutualInComponent(edges, s, c, u, v); }
      }
    }
    forall c, v | c in s.components && v in c ensures v in s.indices {
      assert Finished(s, v);
    }
  }

  lemma MutualInComponent(edges: Edges, s: Search, c: seq<nat>, u: nat, v: nat)
    requires ComponentsExact(edges, s) && c in s.components && u in c && v in c
    ensures Mutual(edges, u, v)
  {
    assert Mutual(edges, u, v);
  }

  lemma RecursiveMeans(edges: Edges, members: set<nat>, v: nat)
    ensures Recursive(edges, members, v) <==> members != {v} || (v, v) in edges
  {
  }

  lemma LowNotAbove(edges: Edges, before: Search, s: Search, open: set<nat>, v: nat, low: nat, seen: set<nat>)
    requires Following(edges, before, s, open, v, low, seen)
    ensures v in s.indices && low <= s.indices[v]
  {
  }

  lemma ListsPermuted(a: seq<nat>, b: seq<nat>, members: set<nat>)
    requires Lists(a, members) && multiset(a) == multiset(b)
    ensures Lists(b, members)
  {
    forall v ensures v in b <==> v in a {
      assert v in multiset(b) <==> v in multiset(a);
    }
  }

  lemma IndexedCall(calls: seq<Call>, count: nat, outgoing: seq<seq<nat>>, v: nat, i: nat)
    requires Indexed(calls, count, outgoing) && v < count && i < |outgoing[v]|
    ensures outgoing[v][i] < |calls| && calls[outgoing[v][i]].callee < count
    ensures (v, calls[outgoing[v][i]].callee) in CallEdges(calls)
  {
    assert outgoing[v][i] in outgoing[v];
    assert calls[outgoing[v][i]] in calls;
  }

  lemma ConnectedGrows(edges: Edges, before: Search, s: Search, v: nat, low: nat)
    requires Connected(edges, before, s, v, low)
    ensures before.indices.Keys <= s.indices.Keys
    ensures forall u :: u in before.indices ==> s.indices[u] == before.indices[u]
  {
  }

  lemma SingletonMembers(component: seq<nat>, members: set<nat>, v: nat)
    requires Lists(component, members) && v in members
    ensures |component| == 1 <==> members == {v}
    ensures |component| == 1 ==> component[0] == v
  {
    assert v in component;
    if |component| > 1 {
      var rest := component[1..];
      assert component == [component[0]] + rest;
      assert component[0] in component && rest[0] in rest && rest[0] in component;
      assert multiset(component)[component[0]] == 1 + multiset(rest)[component[0]];
      assert rest[0] in multiset(rest) && component[0] != rest[0];
      assert {component[0], rest[0]} <= members;
    }
  }

  lemma CallerReaches(edges: Edges, before: Search, s: Search, open: set<nat>, v: nat, low: nat, seen: set<nat>, w: nat)
    requires Following(edges, before, s, open, v, low, seen) && (v, w) in edges
    ensures Invariant(edges, s, open + {v}) && forall g :: g in open + {v} ==> Reaches(edges, g, w)
  {
    hide Mutual, ComponentsExact, StackReaches, Reaches, CallsFollowed, ReachesOpen, LowBounds, Extends, Numbered;
    ReachesSelf(edges, v);
    forall g | g in open + {v} ensures Reaches(edges, g, w) {
      ReachesSnoc(edges, g, v, w);
    }
  }

  /** The outgoing index finds every call. */
  lemma CallsOf(calls: seq<Call>, count: nat, outgoing: seq<seq<nat>>, v: nat, w: nat)
    requires Indexed(calls, count, outgoing) && v < count
    ensures (v, w) in CallEdges(calls) ==>
      exists j :: 0 <= j < |outgoing[v]| && outgoing[v][j] < |calls| && calls[outgoing[v][j]].callee == w
  {
    if (v, w) in CallEdges(calls) {
      var c :| c in calls && (c.caller, c.callee) == (v, w);
      var i :| 0 <= i < |calls| && calls[i] == c;
      assert i in outgoing[v];
      var j :| 0 <= j < |outgoing[v]| && outgoing[v][j] == i;
    }
  }

  lemma CalleesSeen(calls: seq<Call>, count: nat, outgoing: seq<seq<nat>>, v: nat, seen: set<nat>)
    requires Indexed(calls, count, outgoing) && v < count
    requires forall j :: 0 <= j < |outgoing[v]| ==> outgoing[v][j] < |calls| && calls[outgoing[v][j]].callee in seen
    ensures AllSeen(CallEdges(calls), v, seen)
  {
    forall b | (v, b) in CallEdges(calls) ensures b in seen {
      CallsOf(calls, count, outgoing, v, b);
    }
  }
}
