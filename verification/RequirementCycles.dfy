/** Finding a cycle among the natives that must be called before others. */
module RequirementCycles {
  import opened Graphs

  /** The natives by number, each with the natives it requires, in the order they are tried. */
  type Natives = map<nat, seq<nat>>

  ghost function Requirements(natives: Natives): Edges {
    set a, b | a in natives && b in natives[a] && b in natives :: (a, b)
  }

  class RequirementSearch {
    const natives: Natives
    var state: map<nat, nat>
    var stack: seq<nat>
    ghost var finished: seq<nat>

    function StateOf(name: nat): nat
      reads this
    {
      if name in state then state[name] else 0
    }

    ghost predicate Valid()
      reads this
    {
      var edges := Requirements(natives);
      && (forall x :: x in state ==> state[x] == 1 || state[x] == 2)
      && (forall x :: StateOf(x) == 1 <==> x in stack)
      && (forall x :: StateOf(x) == 2 <==> x in finished)
      && state.Keys <= natives.Keys
      && (stack != [] ==> IsPath(edges, stack))
      && Ordered(edges, finished) && Distinct(finished) && Distinct(stack)
    }

    constructor (natives: Natives)
      ensures Valid() && this.natives == natives && stack == [] && state == map[] && finished == []
    {
      this.natives := natives;
      state, stack, finished := map[], [], [];
    }

    /** Finishes the native and all it requires, or returns a cycle. */
    method Visit(name: nat) returns (cycle: seq<nat>)
      requires Valid() && name in natives && StateOf(name) == 0
      requires stack != [] ==> (stack[|stack| - 1], name) in Requirements(natives)
      modifies this
      ensures cycle == [] ==> Valid() && stack == old(stack) && StateOf(name) == 2
      ensures cycle == [] ==> old(state.Keys) <= state.Keys && forall x :: old(StateOf(x)) == 2 ==> StateOf(x) == 2
      ensures cycle != [] ==> IsCycle(Requirements(natives), cycle)
      decreases natives.Keys - state.Keys
    {
      ghost var edges := Requirements(natives);
      Enter(name);
      var requirements := natives[name];
      for i := 0 to |requirements|
        invariant Valid() && stack == old(stack) + [name]
        invariant old(state.Keys) + {name} <= state.Keys
        invariant forall x :: old(StateOf(x)) == 2 ==> StateOf(x) == 2
        invariant forall j :: 0 <= j < i && requirements[j] in natives ==> StateOf(requirements[j]) == 2
      {
        var requirement := requirements[i];
        if requirement !in natives {
          continue;
        }
        assert requirement in requirements && (name, requirement) in edges;
        if StateOf(requirement) == 1 {
          cycle := CycleFrom(requirement);
          return;
        }
        if StateOf(requirement) == 0 {
          assert name in natives.Keys - old(state.Keys) && name !in natives.Keys - state.Keys;
          cycle := Visit(requirement);
          if cycle != [] {
            return;
          }
        }
      }
      Leave(name);
      cycle := [];
    }

    method Enter(name: nat)
      requires Valid() && name in natives && StateOf(name) == 0
      requires stack != [] ==> (stack[|stack| - 1], name) in Requirements(natives)
      modifies this`state, this`stack
      ensures Valid() && stack == old(stack) + [name] && state == old(state)[name := 1]
    {
      state := state[name := 1];
      stack := stack + [name];
      assert stack[..|stack| - 1] == old(stack);
    }

    method Leave(name: nat)
      requires Valid() && stack != [] && stack[|stack| - 1] == name
      requires forall b :: (name, b) in Requirements(natives) ==> StateOf(b) == 2
      modifies this
      ensures Valid() && stack == old(stack[..|stack| - 1]) && state == old(state)[name := 2]
    {
      ghost var edges := Requirements(natives);
      assert name in stack && StateOf(name) == 1;
      stack := stack[..|stack| - 1];
      state := state[name := 2];
      assert old(stack) == stack + [name] && name !in stack;
      assert forall x :: x in old(stack) <==> x in stack || x == name;
      finished := finished + [name];
      forall i, b | 0 <= i < |finished| && (finished[i], b) in edges ensures b in finished[..i] {
        assert i < |old(finished)| ==> finished[..i] == old(finished)[..i];
      }
    }

    method CycleFrom(requirement: nat) returns (cycle: seq<nat>)
      requires Valid() && StateOf(requirement) == 1 && stack != []
      requires (stack[|stack| - 1], requirement) in Requirements(natives)
      ensures cycle != [] && IsCycle(Requirements(natives), cycle)
    {
      var index := 0;
      while stack[index] != requirement
        invariant 0 <= index < |stack| && requirement in stack[index..]
        decreases |stack| - index
      {
        index := index + 1;
      }
      cycle := stack[index..] + [requirement];
      PathSuffix(Requirements(natives), stack, index);
      PathSnoc(Requirements(natives), stack[index..], requirement, stack[|stack| - 1], requirement);
    }
  }

  /** A non-empty answer is a genuine cycle, and there is one exactly if the requirements are cyclic. */
  method NativeRequirementCycle(natives: Natives, names: seq<nat>) returns (cycle: seq<nat>)
    requires forall name :: name in names <==> name in natives
    ensures cycle != [] <==> Cyclic(Requirements(natives))
    ensures cycle != [] ==> IsCycle(Requirements(natives), cycle)
  {
    ghost var edges := Requirements(natives);
    var search := new RequirementSearch(natives);
    for i := 0 to |names|
      invariant search.Valid() && search.natives == natives && search.stack == [] && fresh(search)
      invariant forall j :: 0 <= j < i ==> search.StateOf(names[j]) == 2
    {
      if search.StateOf(names[i]) == 0 {
        cycle := search.Visit(names[i]);
        if cycle != [] {
          CycleIsCyclic(edges, cycle);
          return;
        }
      }
    }
    cycle := [];
    forall v ensures !ReachesByEdge(edges, v, v) {
      if v in natives {
        OrderedIsAcyclic(edges, search.finished, v);
      }
    }
  }
}
