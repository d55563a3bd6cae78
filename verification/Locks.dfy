/**
 * The spin locks of kernel/src/sync.c and kernel/src/memory.c under any interleaving of harts that run page
 * operations, malloc, free and realloc. The order of lock operations in a call is the one the methods log.
 */
module Locks {
  import opened Sync

  /** alloc_pages, incr_page_ref_count or dealloc_pages; or a malloc or free, with or without pages. */
  datatype Call = Page | Bucket(pages: bool)

  function ActsOf(call: Call): seq<Act> {
    match call
    case Page => [Acquire(Heap), Release(Heap)]
    case Bucket(false) => [Acquire(Allocator), Release(Allocator)]
    case Bucket(true) => [Acquire(Allocator), Acquire(Heap), Release(Heap), Release(Allocator)]
  }

  function Script(calls: seq<Call>): seq<Act> {
    if calls == [] then [] else ActsOf(calls[0]) + Script(calls[1..])
  }

  /** What one call adds to the log. */
  function LogOf(t: Trace, call: Call): Trace {
    match call
    case Page => HeapCall(t)
    case Bucket(pages) => AllocatorCall(t, pages)
  }

  /** The log that these calls leave, one after the other. */
  function Logged(t: Trace, calls: seq<Call>): Trace
    decreases |calls|
  {
    if calls == [] then t else Logged(LogOf(t, calls[0]), calls[1..])
  }

  function Acts(t: Trace): seq<Act> {
    match t
    case Start => []
    case Then(before, act) => Acts(before) + [act]
  }

  lemma CallActs(t: Trace, call: Call)
    ensures Acts(LogOf(t, call)) == Acts(t) + ActsOf(call)
  {
    var first := if call.Page? then Heap else Allocator;
    assert Acts(Then(t, Acquire(first))) == Acts(t) + [Acquire(first)];
    if call == Bucket(true) {
      var inside := Then(t, Acquire(Allocator));
      assert Acts(Then(inside, Acquire(Heap))) == Acts(t) + [Acquire(Allocator), Acquire(Heap)];
      assert Acts(HeapCall(inside)) == Acts(t) + [Acquire(Allocator), Acquire(Heap), Release(Heap)];
    }
  }

  lemma {:induction false} LogIsScript(t: Trace, calls: seq<Call>)
    ensures Acts(Logged(t, calls)) == Acts(t) + Script(calls)
    decreases |calls|
  {
    if calls != [] {
      var t' := LogOf(t, calls[0]);
      LogIsScript(t', calls[1..]);
      CallActs(t, calls[0]);
    }
  }

  /**
   * What a hart that holds these locks may still do: it takes the allocator lock first and only the heap lock under
   * it, takes no lock twice, and has released everything in the end.
   */
  predicate Legal(acts: seq<Act>, held: set<LockName>) {
    if acts == [] then held == {}
    else match acts[0]
      case Acquire(l) => l !in held && (l == Allocator ==> held == {}) && Legal(acts[1..], held + {l})
      case Release(l) => l in held && Legal(acts[1..], held - {l})
  }

  lemma {:induction false} ScriptLegal(calls: seq<Call>)
    ensures Legal(Script(calls), {})
  {
    if calls != [] {
      ScriptLegal(calls[1..]);
      var rest := Script(calls[1..]);
      var none: set<LockName> := {};
      match calls[0]
      case Page => LegalPair(rest, none, Heap);
      case Bucket(false) => LegalPair(rest, none, Allocator);
      case Bucket(true) =>
        var inner := [Release(Allocator)] + rest;
        assert inner[1..] == rest && none + {Allocator} - {Allocator} == none;
        LegalPair(inner, none + {Allocator}, Heap);
        var outer := [Acquire(Heap), Release(Heap)] + inner;
        assert ([Acquire(Allocator)] + outer)[1..] == outer;
        assert ActsOf(calls[0]) + rest == [Acquire(Allocator)] + outer;
    }
  }

  lemma LegalPair(rest: seq<Act>, held: set<LockName>, l: LockName)
    requires Legal(rest, held) && l !in held && (l == Allocator ==> held == {})
    ensures Legal([Acquire(l), Release(l)] + rest, held)
  {
    var acts := [Acquire(l), Release(l)] + rest;
    assert acts[1..] == [Release(l)] + rest && acts[1..][1..] == rest && held + {l} - {l} == held;
  }

  /** The lock flags, what each hart still has to do, and (a ghost of the flags) which locks it holds. */
  datatype State = State(flags: map<LockName, bool>, todo: seq<seq<Act>>, held: seq<set<LockName>>)

  ghost predicate Inv(s: State) {
    && |s.held| == |s.todo| && (forall l: LockName :: l in s.flags)
    && (forall i {:trigger s.todo[i]} :: 0 <= i < |s.todo| ==> Legal(s.todo[i], s.held[i]))
    && (forall l: LockName :: s.flags[l] <==> Holder(s, l))
    && (forall i, j, l {:trigger l in s.held[i], l in s.held[j]} ::
          0 <= i < j < |s.held| && l in s.held[i] ==> l !in s.held[j])
  }

  ghost predicate Holder(s: State, l: LockName) {
    exists i :: 0 <= i < |s.held| && l in s.held[i]
  }

  /**
   * One step of hart i. An acquire is one round of the compare-exchange loop: it takes a free lock, unless it fails
   * without cause, as the weak form may; otherwise the hart goes round again. A release clears the flag.
   */
  function Step(s: State, i: nat, fails: bool): State
    requires |s.held| == |s.todo| && forall l: LockName :: l in s.flags
  {
    if i >= |s.todo| || s.todo[i] == [] then s
    else
      var rest := s.todo[i][1..];
      match s.todo[i][0]
      case Acquire(l) =>
        if s.flags[l] || fails then s
        else State(s.flags[l := true], s.todo[i := rest], s.held[i := s.held[i] + {l}])
      case Release(l) =>
        State(s.flags[l := false], s.todo[i := rest], s.held[i := s.held[i] - {l}])
  }

  lemma StepKeepsInv(s: State, i: nat, fails: bool)
    requires Inv(s)
    ensures Inv(Step(s, i, fails)) && |Step(s, i, fails).todo| == |s.todo|
  {
    var s' := Step(s, i, fails);
    if s' != s {
      assert Legal(s.todo[i], s.held[i]);
      forall k | 0 <= k < |s'.todo| ensures Legal(s'.todo[k], s'.held[k]) {
        assert Legal(s.todo[k], s.held[k]);
      }
      forall l: LockName ensures s'.flags[l] <==> Holder(s', l) {
        StepHolder(s, i, fails, l);
      }
    }
  }

  lemma StepHolder(s: State, i: nat, fails: bool, l: LockName)
    requires Inv(s) && i < |s.todo| && Step(s, i, fails) != s
    ensures Step(s, i, fails).flags[l] <==> Holder(Step(s, i, fails), l)
  {
    var s' := Step(s, i, fails);
    assert Legal(s.todo[i], s.held[i]);
    if l == s.todo[i][0].lock {
      if s.todo[i][0].Acquire? {
        assert l in s'.held[i];
      } else {
        assert l in s.held[i];
        forall k | 0 <= k < |s'.held| ensures l !in s'.held[k] {
          if k != i {
            assert s'.held[k] == s.held[k];
          }
        }
      }
    } else {
      if k :| 0 <= k < |s.held| && l in s.held[k] {
        assert l in s'.held[k];
      }
      if k :| 0 <= k < |s'.held| && l in s'.held[k] {
        assert l in s.held[k];
      }
    }
  }

  /** At the start no lock is taken and every hart has calls to run. */
  function Initial(calls: seq<seq<Call>>): State {
    State(map[Allocator := false, Heap := false], seq(|calls|, i requires 0 <= i < |calls| => Script(calls[i])),
          seq(|calls|, _ => {}))
  }

  lemma InitialInv(calls: seq<seq<Call>>)
    ensures Inv(Initial(calls))
  {
    var s := Initial(calls);
    forall l: LockName ensures l in s.flags && !s.flags[l] {
      match l
      case Allocator =>
      case Heap =>
    }
    forall i | 0 <= i < |s.todo| ensures Legal(s.todo[i], s.held[i]) {
      ScriptLegal(calls[i]);
    }
  }

  /** A run of steps, each by some hart, with or without a failure of its compare-exchange. */
  function Run(s: State, steps: seq<(nat, bool)>): State
    requires Inv(s)
    decreases |steps|
  {
    if steps == [] then s
    else
      StepKeepsInv(s, steps[0].0, steps[0].1);
      Run(Step(s, steps[0].0, steps[0].1), steps[1..])
  }

  lemma {:induction false} RunKeepsInv(s: State, steps: seq<(nat, bool)>)
    requires Inv(s)
    ensures Inv(Run(s, steps)) && |Run(s, steps).todo| == |s.todo|
    decreases |steps|
  {
    if steps != [] {
      StepKeepsInv(s, steps[0].0, steps[0].1);
      RunKeepsInv(Step(s, steps[0].0, steps[0].1), steps[1..]);
    }
  }

  /** The state after any interleaving, when the harts start with these calls and no lock is taken. */
  function Reached(calls: seq<seq<Call>>, steps: seq<(nat, bool)>): (s: State)
    ensures Inv(s) && |s.todo| == |calls|
  {
    InitialInv(calls);
    RunKeepsInv(Initial(calls), steps);
    Run(Initial(calls), steps)
  }

  /** In every reachable state no two harts hold a lock, and its flag says whether one does. */
  lemma MutualExclusion(calls: seq<seq<Call>>, steps: seq<(nat, bool)>, l: LockName)
    ensures var s := Reached(calls, steps);
      && (s.flags[l] <==> exists i :: 0 <= i < |s.held| && l in s.held[i])
      && forall i, j :: 0 <= i < |s.held| && 0 <= j < |s.held| && l in s.held[i] && l in s.held[j] ==> i == j
  {
    var s := Reached(calls, steps);
    assert s.flags[l] <==> Holder(s, l);
    assert forall i, j :: 0 <= i < j < |s.held| && l in s.held[i] ==> l !in s.held[j];
  }

  /** The step gets hart i on. */
  predicate Enabled(s: State, i: nat) {
    i < |s.todo| && s.todo[i] != [] &&
    (s.todo[i][0].Acquire? ==> s.todo[i][0].lock in s.flags && !s.flags[s.todo[i][0].lock])
  }

  predicate Done(s: State) {
    forall i :: 0 <= i < |s.todo| ==> s.todo[i] == []
  }

  /** No reachable state is deadlocked: as long as a hart is not done, some hart can go on. */
  lemma NoDeadlock(calls: seq<seq<Call>>, steps: seq<(nat, bool)>)
    ensures var s := Reached(calls, steps); Done(s) || exists i :: Enabled(s, i)
  {
    var s := Reached(calls, steps);
    if !Done(s) {
      var i := SomeEnabled(s);
    }
  }

  lemma SomeEnabled(s: State) returns (i: nat)
    requires Inv(s) && !Done(s)
    ensures Enabled(s, i)
  {
    i :| 0 <= i < |s.todo| && s.todo[i] != [];
    if !Enabled(s, i) {
      i := Blocker(s, s.todo[i][0].lock);
      // The holder of a lock either releases one or waits for the heap lock, whose holder never waits.
      if !Enabled(s, i) {
        i := Blocker(s, Heap);
      }
    }
  }

  lemma Blocker(s: State, l: LockName) returns (i: nat)
    requires Inv(s) && s.flags[l]
    ensures i < |s.todo| && s.todo[i] != [] && l in s.held[i]
    ensures !Enabled(s, i) ==> l == Allocator && s.todo[i][0] == Acquire(Heap) && s.flags[Heap]
  {
    i :| 0 <= i < |s.held| && l in s.held[i];
    assert Legal(s.todo[i], s.held[i]);
  }

  /** When every hart is done, both locks are free: each return path released what it took. */
  lemma DoneIsFree(calls: seq<seq<Call>>, steps: seq<(nat, bool)>)
    requires Done(Reached(calls, steps))
    ensures forall l: LockName :: !Reached(calls, steps).flags[l]
  {
    var s := Reached(calls, steps);
    forall l: LockName ensures !s.flags[l] {
      if i :| 0 <= i < |s.held| && l in s.held[i] {
        assert Legal(s.todo[i], s.held[i]);
      }
    }
  }

  // ----- progress -----

  function Remaining(todo: seq<seq<Act>>): nat {
    if todo == [] then 0 else |todo[0]| + Remaining(todo[1..])
  }

  lemma {:induction false} RemainingAt(todo: seq<seq<Act>>, i: nat, rest: seq<Act>)
    requires i < |todo|
    ensures Remaining(todo[i := rest]) == Remaining(todo) - |todo[i]| + |rest|
  {
    if i == 0 {
      assert todo[i := rest][1..] == todo[1..];
    } else {
      assert todo[i := rest][1..] == todo[1..][i - 1 := rest];
      RemainingAt(todo[1..], i - 1, rest);
    }
  }

  lemma {:induction false} RemainingNone(todo: seq<seq<Act>>)
    ensures Remaining(todo) == 0 <==> forall i :: 0 <= i < |todo| ==> todo[i] == []
  {
    if todo != [] {
      RemainingNone(todo[1..]);
      assert forall i {:trigger todo[i]} :: 0 < i < |todo| ==> todo[i] == todo[1..][i - 1];
      assert forall i {:trigger todo[1..][i]} :: 0 <= i < |todo| - 1 ==> todo[1..][i] == todo[i + 1];
    }
  }

  /** A step either leaves everything as it is or does one act; an enabled hart does one. */
  lemma StepProgress(s: State, i: nat)
    requires Inv(s)
    ensures Step(s, i, false) == s || Remaining(Step(s, i, false).todo) == Remaining(s.todo) - 1
    ensures Enabled(s, i) ==> Remaining(Step(s, i, false).todo) == Remaining(s.todo) - 1
  {
    if i < |s.todo| && s.todo[i] != [] {
      RemainingAt(s.todo, i, s.todo[i][1..]);
    }
  }

  /** The harts from..n step once each, in turn. */
  function Turn(s: State, from: nat): State
    requires Inv(s)
    decreases |s.todo| - from
  {
    if from >= |s.todo| then s
    else
      StepKeepsInv(s, from, false);
      Turn(Step(s, from, false), from + 1)
  }

  lemma {:induction false} TurnProgress(s: State, from: nat, i: nat)
    requires Inv(s) && from <= i && Enabled(s, i)
    ensures Inv(Turn(s, from)) && |Turn(s, from).todo| == |s.todo| && Remaining(Turn(s, from).todo) < Remaining(s.todo)
    decreases |s.todo| - from
  {
    StepKeepsInv(s, from, false);
    StepProgress(s, from);
    var s' := Step(s, from, false);
    if s' == s {
      TurnProgress(s, from + 1, i);
    } else {
      TurnKeeps(s', from + 1);
    }
  }

  lemma {:induction false} TurnKeeps(s: State, from: nat)
    requires Inv(s)
    ensures Inv(Turn(s, from)) && |Turn(s, from).todo| == |s.todo| && Remaining(Turn(s, from).todo) <= Remaining(s.todo)
    decreases |s.todo| - from
  {
    if from < |s.todo| {
      StepKeepsInv(s, from, false);
      StepProgress(s, from);
      TurnKeeps(Step(s, from, false), from + 1);
    }
  }

  function Turns(s: State, n: nat): State
    requires Inv(s)
    decreases n
  {
    if n == 0 then s else
      TurnKeeps(s, 0);
      Turns(Turn(s, 0), n - 1)
  }

  lemma {:induction false} TurnsFinish(s: State, n: nat)
    requires Inv(s) && n >= Remaining(s.todo)
    ensures Done(Turns(s, n))
    decreases n
  {
    RemainingNone(s.todo);
    if n > 0 {
      TurnKeeps(s, 0);
      if !Done(s) {
        var i := SomeEnabled(s);
        TurnProgress(s, 0, i);
      }
      TurnsFinish(Turn(s, 0), n - 1);
    }
  }

  /**
   * From every reachable state, when the harts step in turn and exchanges fail only on a taken lock, all calls end
   * within as many turns as there are lock operations left.
   */
  lemma AllFinish(calls: seq<seq<Call>>, steps: seq<(nat, bool)>, n: nat)
    requires n >= Remaining(Reached(calls, steps).todo)
    ensures Done(Turns(Reached(calls, steps), n))
  {
    TurnsFinish(Reached(calls, steps), n);
  }
}
