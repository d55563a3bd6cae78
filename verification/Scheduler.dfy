/**
 * Round-robin scheduling on one hart: kernel/src/schedulers/roundrobin.c, timer_switch of kernel/src/interrupt.c
 * and the pid search of kernel/src/process.c.
 */
module Scheduler {
  import opened Words

  datatype TaskState = DEAD | RUNNING | BLOCK | READY

  /** The task states, the two globals of the scheduler, and whose trap the hart runs (-1: the boot trap). */
  datatype Machine = Machine(states: seq<TaskState>, next: nat, upTo: nat, current: int)

  /** At least one task was spawned: pids 0..up_to are in use, the rest free, and only the current one may run. */
  ghost predicate Good(m: Machine) {
    && m.next <= m.upTo < |m.states| && -1 <= m.current <= m.upTo
    && (forall p {:trigger m.states[p]} :: 0 <= p < |m.states| ==>
          (m.states[p] == DEAD <==> p > m.upTo) && (m.states[p] == RUNNING ==> p == m.current))
  }

  /** Before the first spawn. */
  ghost predicate Idle(m: Machine) {
    && m.next == 0 && m.upTo == 0 && m.current == -1
    && forall p {:trigger m.states[p]} :: 0 <= p < |m.states| ==> m.states[p] == DEAD
  }

  function Rested(s: seq<TaskState>, current: int): (r: seq<TaskState>)
    ensures |r| == |s|
  {
    if 0 <= current < |s| && s[current] == RUNNING then s[current := READY] else s
  }

  /** One timer_switch. */
  function Switched(m: Machine): Machine
    requires m.next < |m.states|
  {
    Machine(Rested(m.states, m.current)[m.next := RUNNING], if m.next + 1 > m.upTo then 0 else m.next + 1, m.upTo, m.next)
  }

  /** The lowest free pid. */
  function FreePid(s: seq<TaskState>): (p: nat)
    ensures p <= |s| && (p < |s| ==> s[p] == DEAD) && forall q :: 0 <= q < p ==> s[q] != DEAD
  {
    if s == [] || s[0] == DEAD then 0 else 1 + FreePid(s[1..])
  }

  function Spawned(m: Machine): Machine {
    var p := FreePid(m.states);
    if p == |m.states| then m
    else m.(states := m.states[p := READY], upTo := if p > m.upTo then p else m.upTo)
  }

  datatype Event = Tick | Birth

  function After(m: Machine, e: Event): Machine
    requires e.Tick? ==> m.next < |m.states|
  {
    match e
    case Tick => Switched(m)
    case Birth => Spawned(m)
  }

  /** Both events keep the machine good, and after a switch exactly the pid switched to is running. */
  lemma EventKeepsGood(m: Machine, e: Event)
    requires Good(m) || (e.Birth? && Idle(m) && |m.states| > 0)
    ensures Good(After(m, e)) && |After(m, e).states| == |m.states| && After(m, e).upTo >= m.upTo
    ensures e.Tick? ==> After(m, e).current == m.next
    ensures e.Tick? ==> forall p {:trigger After(m, e).states[p]} :: 0 <= p < |m.states| ==>
      (After(m, e).states[p] == RUNNING <==> p == m.next)
    ensures e.Birth? ==> After(m, e).current == m.current && After(m, e).next == m.next
  {
    var m' := After(m, e);
    if e.Birth? {
      var p := FreePid(m.states);
      assert Good(m) && m.upTo + 1 < |m.states| ==> m.states[m.upTo + 1] == DEAD;
    }
    forall p | 0 <= p < |m'.states|
      ensures (m'.states[p] == DEAD <==> p > m'.upTo) && (m'.states[p] == RUNNING ==> p == m'.current)
    {
      assert Good(m) ==> (m.states[p] == DEAD <==> p > m.upTo);
    }
  }

  /** An upper bound on the switches before p is the one switched to. */
  function Wait(m: Machine, p: nat): int {
    if m.next <= p then p - m.next + 1 else |m.states| - m.next + p + 1
  }

  /** How many switches a run of events holds, and whether p is switched to in one of them. */
  function Switches(events: seq<Event>): nat {
    if events == [] then 0 else Switches(events[1..]) + (if events[0].Tick? then 1 else 0)
  }

  lemma {:induction false} SwitchesIn(births: nat, ticks: nat)
    ensures Switches(seq(births, _ => Birth) + seq(ticks, _ => Tick)) == ticks
    decreases births + ticks
  {
    var events := seq(births, _ => Birth) + seq(ticks, _ => Tick);
    if births > 0 {
      assert events[1..] == seq(births - 1, _ => Birth) + seq(ticks, _ => Tick);
      SwitchesIn(births - 1, ticks);
    } else if ticks > 0 {
      assert events[1..] == seq(0, _ => Birth) + seq(ticks - 1, _ => Tick);
      SwitchesIn(0, ticks - 1);
    }
  }

  ghost predicate Dispatched(m: Machine, events: seq<Event>, p: nat)
    decreases |events|
  {
    events != [] && (events[0].Tick? ==> m.next < |m.states|) &&
    ((events[0].Tick? && m.next == p) || Dispatched(After(m, events[0]), events[1..], p))
  }

  lemma {:induction false} DispatchedInTime(m: Machine, events: seq<Event>, p: nat)
    requires Good(m) && p <= m.upTo && Switches(events) >= Wait(m, p)
    ensures Dispatched(m, events, p)
    decreases |events|
  {
    if events != [] {
      EventKeepsGood(m, events[0]);
      if !(events[0].Tick? && m.next == p) {
        DispatchedInTime(After(m, events[0]), events[1..], p);
      }
    }
  }

  /** Every spawned task is switched to within any max_pid consecutive switches, whatever is spawned in between. */
  lemma NobodyStarves(m: Machine, events: seq<Event>, p: nat)
    requires Good(m) && p <= m.upTo && Switches(events) >= |m.states|
    ensures Dispatched(m, events, p)
  {
    DispatchedInTime(m, events, p);
  }

  // ----- the tables and globals -----

  /** The machine after n switches without a spawn in between. */
  function Ticks(m: Machine, n: nat): Machine
    requires Good(m)
    decreases n
  {
    if n == 0 then m else
      EventKeepsGood(m, Tick);
      Ticks(Switched(m), n - 1)
  }

  /** Without spawns the switches go round all pids in order: switch n is to pid (next + n) modulo their number. */
  lemma {:induction false} Rotation(m: Machine, n: nat)
    requires Good(m)
    ensures Good(Ticks(m, n)) && Ticks(m, n).upTo == m.upTo
    ensures Ticks(m, n).next == (m.next + n) % (m.upTo + 1)
    ensures n > 0 ==> Ticks(m, n).current == (m.next + n - 1) % (m.upTo + 1)
    decreases n
  {
    var k := m.upTo + 1;
    if n == 0 {
      DivModUnique(m.next, k, 0, m.next);
    } else {
      EventKeepsGood(m, Tick);
      var m' := Switched(m);
      Rotation(m', n - 1);
      RotateOnce(m.next, k, n);
      if n == 1 {
        DivModUnique(m.next, k, 0, m.next);
      } else {
        RotateOnce(m.next, k, n - 1);
      }
    }
  }

  /** Any up_to + 1 switches in a row without a spawn are to each pid exactly once. */
  lemma OnceEach(m: Machine, p: nat)
    requires Good(m) && p <= m.upTo
    ensures exists n :: 0 <= n <= m.upTo && Ticks(m, n).next == p
    ensures forall i, j :: 0 <= i < j <= m.upTo ==> Ticks(m, i).next != Ticks(m, j).next
  {
    hide Ticks, Good;
    GoodPlace(m);
    var k := m.upTo + 1;
    NextAt(m, if p >= m.next then p - m.next else p + k - m.next);
    forall i, j | 0 <= i < j <= m.upTo ensures Ticks(m, i).next != Ticks(m, j).next {
      NextAt(m, i);
      NextAt(m, j);
    }
  }

  lemma GoodPlace(m: Machine)
    requires Good(m)
    ensures m.next <= m.upTo
  {
  }

  lemma NextAt(m: Machine, n: nat)
    requires Good(m) && n <= m.upTo
    ensures Ticks(m, n).next == if m.next + n <= m.upTo then m.next + n else m.next + n - m.upTo - 1
  {
    hide Ticks;
    Rotation(m, n);
    Reduced(m.next, m.upTo + 1, n);
  }

  lemma Reduced(next: nat, k: nat, n: nat)
    requires next < k && n < k
    ensures (next + n) % k == if next + n < k then next + n else next + n - k
  {
    if next + n < k {
      DivModUnique(next + n, k, 0, next + n);
    } else {
      DivModUnique(next + n, k, 1, next + n - k);
    }
  }

  lemma RotateOnce(next: nat, k: nat, n: nat)
    requires next < k && n > 0
    ensures ((if next + 1 > k - 1 then 0 else next + 1) + (n - 1)) % k == (next + n) % k
  {
    if next + 1 == k {
      var q, r := (n - 1) / k, (n - 1) % k;
      assert next + n == k * (q + 1) + r;
      DivModUnique(next + n, k, q + 1, r);
    }
  }

  datatype Trap = Trap(pid: int, hartid: nat, interruptStack: nat)
  datatype Task = Task(state: TaskState, trap: Trap)

  function StatesOf(ts: seq<Task>): (s: seq<TaskState>)
    ensures |s| == |ts| && forall p {:trigger s[p]} {:trigger ts[p]} :: 0 <= p < |s| ==> s[p] == ts[p].state
  {
    seq(|ts|, i requires 0 <= i < |ts| => ts[i].state)
  }

  /** A task's trap carries its pid. */
  ghost predicate Named(ts: seq<Task>) {
    forall p {:trigger ts[p]} :: 0 <= p < |ts| && ts[p].state != DEAD ==> ts[p].trap.pid == p
  }

  function Halted(t: Task): Task {
    if t.state == RUNNING then t.(state := READY) else t
  }

  class Kernel {
    const tasks: array<Task>
    var next: nat
    var upTo: int
    var boot: Trap          // the trap of the hart before any task runs; its pid is -1

    /** The machine when the hart runs on the trap of task `current`, or on the boot trap. */
    ghost function Now(current: int): Machine
      requires upTo >= 0
      reads this, tasks
    {
      Machine(StatesOf(tasks[..]), next, upTo, current)
    }

    ghost predicate Traps()
      reads this, tasks
    {
      upTo >= 0 && boot.pid == -1 && Named(tasks[..])
    }

    function TrapOf(current: int): Trap
      requires current < tasks.Length
      reads this, tasks
    {
      if current < 0 then boot else tasks[current].trap
    }

    /** init_processes, with the table it allocates as a parameter. */
    constructor (table: array<Task>, boot: Trap)
      requires table.Length > 0 && boot.pid == -1 && forall p :: 0 <= p < table.Length ==> table[p].state == DEAD
      ensures tasks == table && Traps() && Idle(Now(-1)) && this.boot == boot
    {
      tasks := table;
      next := 0;
      upTo := 0;
      this.boot := boot;
    }

    method ScheduleTask(pid: int)
      modifies this`upTo
      ensures upTo == if pid > old(upTo) then pid else old(upTo)
    {
      if pid > upTo {
        upTo := pid;
      }
    }

    /** The positions 0..up_to in turn. */
    method NextScheduledTask() returns (n: nat)
      requires next <= upTo
      modifies this`next
      ensures n == old(next) && next <= upTo && next == if old(next) == upTo then 0 else old(next) + 1
    {
      n := next;
      next := next + 1;
      if next > upTo {
        next := 0;
      }
    }

    /**
     * timer_switch on the trap of pid `current` (or the boot trap); the result names the pid whose trap it returns.
     * That one goes on, on the same hart and with the same interrupt stack, and is the only one running.
     */
    method TimerSwitch(current: int) returns (task: nat)
      requires Traps() && Good(Now(current))
      modifies this`next, this`upTo, tasks
      ensures Traps() && Good(Now(task)) && Now(task) == Switched(old(Now(current)))
      ensures task < tasks.Length && forall p :: 0 <= p < tasks.Length ==> (tasks[p].state == RUNNING <==> p == task)
      ensures TrapOf(task) == old(TrapOf(current)).(pid := task)
      ensures forall p :: 0 <= p < tasks.Length && p != task ==> tasks[p].trap == old(tasks[p].trap)
    {
      hide StatesOf;
      ghost var m, ts := Now(current), tasks[..];
      EventKeepsGood(m, Tick);
      assert m.states[m.next] == ts[m.next].state != DEAD;
      if current >= 0 {
        assert m.states[current] == ts[current].state != DEAD;
        Preempt(current);
      }
      ghost var ts1 := tasks[..];
      task := NextScheduledTask();
      assert ts1[task].state != DEAD;
      Resume(current, task);
      assert StatesOf(ts1) == Rested(m.states, current);
      assert StatesOf(tasks[..]) == Rested(m.states, current)[task := RUNNING];
    }

    /** interrupt.c:33-38 */
    method Preempt(current: int)
      requires 0 <= current < tasks.Length && tasks[current].trap.pid == current <= upTo
      modifies this`upTo, tasks
      ensures upTo == old(upTo) && tasks[..] == old(tasks[..])[current := Halted(old(tasks[current]))]
    {
      if tasks[current].state == RUNNING {
        tasks[current] := tasks[current].(state := READY);
      }
      ScheduleTask(tasks[current].trap.pid);
    }

    /** interrupt.c:67-84 */
    method Resume(current: int, task: nat)
      requires current < tasks.Length && task < tasks.Length
      requires current >= 0 ==> tasks[current].trap.pid == current
      requires tasks[task].trap.pid == task
      modifies tasks
      ensures tasks[..] == old(tasks[..])[task := Task(RUNNING, old(TrapOf(current)).(pid := task))]
    {
      if current == task {
        tasks[task] := tasks[task].(state := RUNNING);
      } else {
        var from := if current < 0 then boot else tasks[current].trap;
        tasks[task] := tasks[task].(trap := tasks[task].trap.(hartid := from.hartid, interruptStack := from.interruptStack));
        tasks[task] := tasks[task].(state := RUNNING);
      }
    }

    /** The pid search and the end of spawn_task_from_elf; the new task's trap is a parameter. */
    method Spawn(ghost current: int, trap: Trap) returns (pid: int)
      requires Traps() && (Good(Now(current)) || Idle(Now(current))) && tasks.Length > 0
      modifies this`upTo, tasks
      ensures Traps() && Good(Now(current)) && Now(current) == Spawned(old(Now(current)))
      ensures pid == -1 <==> forall p :: 0 <= p < tasks.Length ==> old(tasks[p].state) != DEAD
      ensures pid != -1 ==>
        0 <= pid < tasks.Length && pid == FreePid(old(Now(current)).states) && tasks[pid] == Task(READY, trap.(pid := pid))
    {
      ghost var m := Now(current);
      EventKeepsGood(m, Birth);
      var p := 0;
      while p < tasks.Length && tasks[p].state != DEAD
        invariant 0 <= p <= tasks.Length && forall q :: 0 <= q < p ==> tasks[q].state != DEAD
      {
        assert m.states[p] == tasks[p].state;
        p := p + 1;
      }
      assert forall q :: 0 <= q < tasks.Length ==> tasks[q].state == m.states[q];
      FreePidIs(m.states, p);
      if p == tasks.Length {
        return -1;
      }
      pid := p;
      tasks[pid] := Task(DEAD, trap.(pid := pid));
      tasks[pid] := tasks[pid].(state := READY);
      ScheduleTask(pid);
      assert Now(current).states == Spawned(m).states;
    }

    static lemma FreePidIs(s: seq<TaskState>, p: nat)
      requires p <= |s| && (p < |s| ==> s[p] == DEAD) && forall q :: 0 <= q < p ==> s[q] != DEAD
      ensures FreePid(s) == p
    {
    }
  }
}
