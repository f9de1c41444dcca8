/** The process scheduler as a state machine: pick the ready process with the least
    virtual runtime, charge the running one ten units a tick. */
module SchedulerSpec {
  import opened Options

  datatype ProcState = New | Ready | Running | Blocked | Zombie | Dead

  datatype Task = Task(state: ProcState, vruntime: nat) {
    predicate Live() { state == Ready || state == Running }

    /** The runtime with a process that has not started counted as started. */
    function Weight(): nat { if vruntime == 0 then 1 else vruntime }
  }

  /** The queue, in list order, and the position of `current_process` in it. */
  datatype System = System(tasks: seq<Task>, current: Option<nat>) {
    predicate Consistent() {
      current.Some? ==> current.value < |tasks|
    }

    predicate Busy() {
      current.Some? && current.value < |tasks| && tasks[current.value].state == Running
    }
  }

  const TICK: nat := 10

  /** The first of the ready tasks with the least runtime, among the first `n`. */
  function Best(tasks: seq<Task>, n: nat): (b: Option<nat>)
    requires n <= |tasks|
    ensures b.Some? ==> b.value < n && tasks[b.value].state == Ready
    ensures b.Some? ==> forall i :: 0 <= i < n && tasks[i].state == Ready ==>
              tasks[b.value].vruntime <= tasks[i].vruntime
    ensures b.Some? ==> forall i :: 0 <= i < b.value && tasks[i].state == Ready ==>
              tasks[b.value].vruntime < tasks[i].vruntime
    ensures b.None? ==> forall i :: 0 <= i < n ==> tasks[i].state != Ready
  {
    if n == 0 then None
    else
      var b := Best(tasks, n - 1);
      if tasks[n - 1].state == Ready && (b.None? || tasks[n - 1].vruntime < tasks[b.value].vruntime) then Some(n - 1)
      else b
  }

  /** The running task steps back. */
  function Preempted(s: System): seq<Task>
    requires s.Consistent()
  {
    if s.Busy() then s.tasks[s.current.value := s.tasks[s.current.value].(state := Ready)] else s.tasks
  }

  function Started(t: Task): Task {
    Task(Running, if t.vruntime == 0 then 1 else t.vruntime)
  }

  /** `schedule_process` */
  function Schedule(s: System): (r: System)
    requires s.Consistent()
    ensures r.Consistent() && |r.tasks| == |s.tasks|
  {
    var b := Best(s.tasks, |s.tasks|);
    if b.None? then s
    else
      var tasks := Preempted(s);
      System(tasks[b.value := Started(tasks[b.value])], b)
  }

  /** Dispatching without a ready process changes nothing; else it starts one that has waited
      longest by virtual runtime, the first in the queue among equals, whose runtime counts
      from 1, and turns the running one ready; no other process changes. */
  lemma ScheduleIs(s: System)
    requires s.Consistent()
    ensures (forall i :: 0 <= i < |s.tasks| ==> s.tasks[i].state != Ready) ==> Schedule(s) == s
    ensures (exists i :: 0 <= i < |s.tasks| && s.tasks[i].state == Ready) ==>
              exists b: nat :: Dispatched(s, Schedule(s), b)
  {
    var b := Best(s.tasks, |s.tasks|);
    if b.Some? {
      assert Dispatched(s, Schedule(s), b.value);
    }
  }

  ghost predicate Dispatched(s: System, r: System, b: nat) {
    && b < |s.tasks| == |r.tasks| && s.tasks[b].state == Ready && r.current == Some(b)
    && (forall i :: 0 <= i < |s.tasks| && s.tasks[i].state == Ready ==>
          s.tasks[b].vruntime < s.tasks[i].vruntime || (s.tasks[b].vruntime == s.tasks[i].vruntime && b <= i))
    && r.tasks[b].state == Running
    && r.tasks[b].vruntime == (if s.tasks[b].vruntime == 0 then 1 else s.tasks[b].vruntime)
    && forall i :: 0 <= i < |s.tasks| && i != b ==>
         && r.tasks[i].vruntime == s.tasks[i].vruntime
         && r.tasks[i].state
            == if s.current == Some(i) && s.tasks[i].state == Running then Ready else s.tasks[i].state
  }

  function Charge(s: System): System
    requires s.Busy()
  {
    var c := s.current.value;
    s.(tasks := s.tasks[c := s.tasks[c].(vruntime := s.tasks[c].vruntime + TICK)])
  }

  /** `sched_proc_tick` */
  function Tick(s: System): (r: System)
    requires s.Consistent()
    ensures r.Consistent() && |r.tasks| == |s.tasks|
  {
    if s.Busy() then Schedule(Charge(s)) else s
  }

  function SetState(s: System, i: nat, st: ProcState): System
    requires i < |s.tasks|
  {
    s.(tasks := s.tasks[i := s.tasks[i].(state := st)])
  }

  /** `process_exit` */
  function Exit(s: System): (r: System)
    requires s.Consistent()
    ensures r.Consistent() && |r.tasks| == |s.tasks|
  {
    if s.current.Some? then Schedule(SetState(s, s.current.value, Zombie)) else s
  }

  // Runs

  /** What can happen to a fixed population: `schedule_process` called while none runs, a
      timer tick, an exit of the current process, or any process being killed. */
  datatype Event = Dispatch | Timer | Quit | Kill(i: nat)

  ghost predicate Step(s: System, e: Event, s': System) {
    && s.Consistent()
    && match e
       case Dispatch => !s.Busy() && s' == Schedule(s)
       case Timer => s' == Tick(s)
       case Quit => s' == Exit(s)
       case Kill(i) => i < |s.tasks| && s' == SetState(s, i, Zombie)
  }

  /** Every process is new to the processor and none is running. */
  ghost predicate Initial(s: System) {
    s.current.None? && forall i :: 0 <= i < |s.tasks| ==> s.tasks[i].state != Running && s.tasks[i].vruntime == 0
  }

  ghost predicate Run(states: seq<System>, events: seq<Event>) {
    && |states| == |events| + 1
    && Initial(states[0])
    && forall i :: 0 <= i < |events| ==> Step(states[i], events[i], states[i + 1])
  }

  // Fairness

  ghost predicate LiveAt(s: System, i: int) {
    0 <= i < |s.tasks| && s.tasks[i].Live()
  }

  /** Runtimes of live processes lie within one tick of each other; a running process
      is the current one and has the least runtime. */
  ghost predicate Fair(s: System) {
    && s.Consistent()
    && (forall i, j :: LiveAt(s, i) && LiveAt(s, j) ==> s.tasks[i].Weight() <= s.tasks[j].Weight() + TICK)
    && (forall i :: LiveAt(s, i) ==> s.tasks[i].Weight() % TICK == 1)
    && (forall i :: 0 <= i < |s.tasks| && s.tasks[i].state == Running ==>
                      s.current == Some(i) && s.tasks[i].vruntime > 0)
    && (s.Busy() ==> forall i :: LiveAt(s, i) ==> s.tasks[s.current.value].Weight() <= s.tasks[i].Weight())
  }

  /** Before a dispatch a running process, just charged, may instead have the most. */
  ghost predicate Charged(s: System) {
    && s.Consistent()
    && (forall i, j :: LiveAt(s, i) && LiveAt(s, j) ==> s.tasks[i].Weight() <= s.tasks[j].Weight() + TICK)
    && (forall i :: LiveAt(s, i) ==> s.tasks[i].Weight() % TICK == 1)
    && (forall i :: 0 <= i < |s.tasks| && s.tasks[i].state == Running ==>
                      s.current == Some(i) && s.tasks[i].vruntime > 0)
    && (s.Busy() ==> forall i :: LiveAt(s, i) ==> s.tasks[i].Weight() <= s.tasks[s.current.value].Weight())
  }

  lemma ScheduleFair(s: System)
    requires Charged(s)
    ensures Fair(Schedule(s))
  {
    if Best(s.tasks, |s.tasks|).Some? {
      DispatchFair(s);
    } else {
      forall i | LiveAt(s, i) ensures s.current == Some(i) {
      }
    }
  }

  lemma DispatchFair(s: System)
    requires Charged(s) && Best(s.tasks, |s.tasks|).Some?
    ensures Fair(Schedule(s))
  {
    var r := Schedule(s);
    var b := Best(s.tasks, |s.tasks|);
    forall i | LiveAt(r, i) ensures LiveAt(s, i) && r.tasks[i].Weight() == s.tasks[i].Weight() {
    }
    forall i | LiveAt(r, i) ensures r.tasks[b.value].Weight() <= r.tasks[i].Weight() {
    }
  }

  lemma ChargeCharged(s: System)
    requires Fair(s) && s.Busy()
    ensures Charged(Charge(s))
  {
    var c := Charge(s);
    forall i | LiveAt(c, i)
      ensures LiveAt(s, i) && c.tasks[i].Weight() == s.tasks[i].Weight() + if s.current == Some(i) then TICK else 0
      ensures s.tasks[s.current.value].Weight() <= s.tasks[i].Weight()
      ensures c.tasks[i].Weight() <= c.tasks[s.current.value].Weight() && c.tasks[i].Weight() % TICK == 1
    {
      ChargedWeight(s, i);
    }
    forall i, j | LiveAt(c, i) && LiveAt(c, j)
      ensures c.tasks[i].Weight() <= c.tasks[j].Weight() + TICK
    {
      assert LiveAt(s, i) && LiveAt(s, j);
    }
  }

  lemma ChargedWeight(s: System, i: int)
    requires Fair(s) && s.Busy() && LiveAt(Charge(s), i)
    ensures var c, r := Charge(s), s.current.value;
            && LiveAt(s, i) && LiveAt(s, r)
            && c.tasks[i].Weight() == s.tasks[i].Weight() + (if s.current == Some(i) then TICK else 0)
            && s.tasks[r].Weight() <= s.tasks[i].Weight() <= s.tasks[r].Weight() + TICK
            && s.tasks[i].Weight() % TICK == 1
  {
  }

  /** A process leaving the population leaves it fair. */
  lemma LeaveFair(s: System, i: nat)
    requires Fair(s) && i < |s.tasks|
    ensures Fair(SetState(s, i, Zombie))
  {
    var z := SetState(s, i, Zombie);
    forall j | LiveAt(z, j) ensures LiveAt(s, j) && z.tasks[j] == s.tasks[j] {
    }
  }

  lemma StepFair(s: System, e: Event, s': System)
    requires Fair(s) && Step(s, e, s')
    ensures Fair(s')
  {
    hide Fair, Charged, Schedule, Charge;
    match e
    case Dispatch =>
      IdleCharged(s);
      ScheduleFair(s);
    case Timer =>
      if s.Busy() {
        ChargeCharged(s);
        ScheduleFair(Charge(s));
      }
    case Quit =>
      if s.current.Some? {
        LeaveFair(s, s.current.value);
        IdleCharged(SetState(s, s.current.value, Zombie));
        ScheduleFair(SetState(s, s.current.value, Zombie));
      }
    case Kill(i) =>
      LeaveFair(s, i);
  }

  lemma IdleCharged(s: System)
    requires Fair(s) && !s.Busy()
    ensures Charged(s)
  {
  }

  /** Scheduler fairness: at every point of every run from a fresh population. */
  lemma {:induction false} RunFair(states: seq<System>, events: seq<Event>, n: nat)
    requires Run(states, events) && n <= |events|
    ensures Fair(states[n])
    ensures forall i, j :: LiveAt(states[n], i) && LiveAt(states[n], j) ==>
              states[n].tasks[i].Weight() <= states[n].tasks[j].Weight() + 10
  {
    if n > 0 {
      RunFair(states, events, n - 1);
      StepFair(states[n - 1], events[n - 1], states[n]);
    }
  }

  // Bounded waiting

  /** How many ticks task `q` can run before a ready task of weight `w` must come. */
  function Lead(w: nat, q: Task): int {
    (w + TICK - q.Weight()) / TICK
  }

  /** The sum of the leads of the live tasks other than `p`, among the first `n`. */
  function Debt(tasks: seq<Task>, p: nat, n: nat): int
    requires p < |tasks| && n <= |tasks|
  {
    if n == 0 then 0
    else Debt(tasks, p, n - 1) + if n - 1 != p && tasks[n - 1].Live() then Lead(tasks[p].Weight(), tasks[n - 1]) else 0
  }

  function LiveCount(tasks: seq<Task>, n: nat): nat
    requires n <= |tasks|
  {
    if n == 0 then 0 else LiveCount(tasks, n - 1) + if tasks[n - 1].Live() then 1 else 0
  }

  /** In a fair system each of the others leads by two at most, by none at least. */
  lemma {:induction false} DebtBounds(s: System, p: nat, n: nat)
    requires Fair(s) && LiveAt(s, p) && n <= |s.tasks|
    ensures 0 <= Debt(s.tasks, p, n) <= 2 * (LiveCount(s.tasks, n) - if p < n then 1 else 0)
  {
    if n > 0 {
      DebtBounds(s, p, n - 1);
      if s.tasks[n - 1].Live() {
        assert LiveAt(s, n - 1) && LiveAt(s, p);
      }
    }
  }

  /** Another live task no heavier than `p` owes at least one tick. */
  lemma {:induction false} DebtPositive(s: System, p: nat, n: nat, q: nat)
    requires Fair(s) && LiveAt(s, p) && LiveAt(s, q) && q != p && q < n <= |s.tasks|
    requires s.tasks[q].Weight() <= s.tasks[p].Weight()
    ensures Debt(s.tasks, p, n) >= 1
  {
    if q == n - 1 {
      DebtBounds(s, p, n - 1);
    } else {
      DebtPositive(s, p, n - 1, q);
      if s.tasks[n - 1].Live() {
        assert LiveAt(s, n - 1);
      }
    }
  }

  /** One tick that charges `c` pays one unit of the debt to `p`. */
  lemma {:induction false} DebtPaid(tasks: seq<Task>, tasks': seq<Task>, p: nat, c: nat, n: nat)
    requires |tasks| == |tasks'| && p < |tasks| && c < |tasks| && c != p && n <= |tasks|
    requires forall i :: 0 <= i < |tasks| ==> tasks'[i].Live() == tasks[i].Live()
    requires forall i :: 0 <= i < |tasks| ==> tasks'[i].Weight() == tasks[i].Weight() + if i == c then TICK else 0
    requires tasks[c].Live()
    ensures Debt(tasks', p, n) == Debt(tasks, p, n) - if c < n then 1 else 0
  {
    if n > 0 {
      DebtPaid(tasks, tasks', p, c, n - 1);
    }
  }

  function Ticks(s: System, k: nat): (r: System)
    requires s.Consistent()
    ensures r.Consistent() && |r.tasks| == |s.tasks|
  {
    if k == 0 then s else Tick(Ticks(s, k - 1))
  }

  lemma {:induction false} TicksShift(s: System, k: nat)
    requires s.Consistent()
    ensures Ticks(s, k + 1) == Ticks(Tick(s), k)
  {
    if k > 0 {
      TicksShift(s, k - 1);
    }
  }

  /** While a ready process waits, a tick dispatches some process, keeps every process
      live, and charges the current one. */
  lemma TickPays(s: System, p: nat)
    requires Fair(s) && s.Busy() && p < |s.tasks| && s.tasks[p].state == Ready
    ensures var r := Tick(s);
            && r.Busy() && Fair(r) && LiveAt(r, p)
            && (r.current != Some(p) ==>
                  r.tasks[p].state == Ready && r.tasks[r.current.value].Weight() <= r.tasks[p].Weight())
            && Debt(r.tasks, p, |r.tasks|) == Debt(s.tasks, p, |s.tasks|) - 1
            && LiveCount(r.tasks, |r.tasks|) == LiveCount(s.tasks, |s.tasks|)
  {
    var r := Tick(s);
    StepFair(s, Timer, r);
    var c := s.current.value;
    forall i | 0 <= i < |s.tasks|
      ensures r.tasks[i].Live() == s.tasks[i].Live()
      ensures r.tasks[i].Weight() == s.tasks[i].Weight() + if i == c then TICK else 0
    {
    }
    DebtPaid(s.tasks, r.tasks, p, c, |s.tasks|);
    SameCount(s.tasks, r.tasks, |s.tasks|);
  }

  lemma {:induction false} SameCount(tasks: seq<Task>, tasks': seq<Task>, n: nat)
    requires |tasks| == |tasks'| && n <= |tasks|
    requires forall i :: 0 <= i < |tasks| ==> tasks'[i].Live() == tasks[i].Live()
    ensures LiveCount(tasks', n) == LiveCount(tasks, n)
  {
    if n > 0 {
      SameCount(tasks, tasks', n - 1);
    }
  }

  /** A ready process is dispatched within as many ticks as it is owed. */
  lemma {:induction false} DispatchedWithin(s: System, p: nat, k: nat) returns (j: nat)
    requires Fair(s) && s.Busy() && p < |s.tasks| && s.tasks[p].state == Ready
    requires Debt(s.tasks, p, |s.tasks|) <= k
    ensures 1 <= j <= k && Ticks(s, j).current == Some(p)
    decreases k
  {
    hide Debt, Tick;
    var c := s.current.value;
    assert LiveAt(s, c) && LiveAt(s, p);
    DebtPositive(s, p, |s.tasks|, c);
    TickPays(s, p);
    var r := Tick(s);
    if r.current == Some(p) {
      j := 1;
      assert Ticks(s, 1) == Tick(Ticks(s, 0));
    } else {
      j := DispatchedWithin(r, p, k - 1);
      TicksShift(s, j);
      j := j + 1;
    }
  }

  /** Without a running process the timer does nothing. */
  lemma {:induction false} IdleStays(s: System, k: nat)
    requires s.Consistent() && !s.Busy()
    ensures Ticks(s, k) == s
  {
    if k > 0 {
      IdleStays(s, k - 1);
    }
  }

  /** Bounded waiting: the timer dispatches a ready process if and only if some process is
      running, and then, with `n` live processes, within 2n - 2 ticks. */
  lemma BoundedWaiting(s: System, p: nat)
    requires Fair(s) && p < |s.tasks| && s.tasks[p].state == Ready && s.current != Some(p)
    ensures (exists j: nat :: Ticks(s, j).current == Some(p)) <==> s.Busy()
    ensures s.Busy() ==>
              exists j: nat :: j <= 2 * LiveCount(s.tasks, |s.tasks|) - 2 && Ticks(s, j).current == Some(p)
  {
    if s.Busy() {
      DebtBounds(s, p, |s.tasks|);
      var j := DispatchedWithin(s, p, 2 * LiveCount(s.tasks, |s.tasks|) - 2);
    } else {
      forall j: nat
        ensures Ticks(s, j).current != Some(p)
      {
        IdleStays(s, j);
      }
    }
  }

  // The first dispatch

  ghost predicate Dispatches(s: System, e: Event) {
    e == Dispatch && Best(s.tasks, |s.tasks|).Some?
  }

  /** Some process has been dispatched if and only if `schedule_process` was called, from
      outside the timer and the exit, while one was ready. */
  lemma {:induction false} FirstDispatch(states: seq<System>, events: seq<Event>, n: nat)
    requires Run(states, events) && n <= |events|
    ensures states[n].current.Some? <==> exists k :: 0 <= k < n && Dispatches(states[k], events[k])
  {
    hide Best;
    if n > 0 {
      FirstDispatch(states, events, n - 1);
      assert Step(states[n - 1], events[n - 1], states[n]);
      if exists k :: 0 <= k < n - 1 && Dispatches(states[k], events[k]) {
        var k :| 0 <= k < n - 1 && Dispatches(states[k], events[k]);
        assert 0 <= k < n;
      }
    }
  }

  /** The two processes that the kernel creates at boot wait for ever. */
  lemma AfterBoot(k: nat)
    ensures var s := System([Task(Ready, 0), Task(Ready, 0)], None);
            Initial(s) && Fair(s) && Ticks(s, k) == s
  {
    IdleStays(System([Task(Ready, 0), Task(Ready, 0)], None), k);
  }

  // Joining later

  /** A new process at the head of the queue. */
  function WithNewcomer(s: System): System {
    System([Task(Ready, 0)] + s.tasks, match s.current case None => None case Some(c) => Some(c + 1))
  }

  /** A process that joins a fair population keeps it fair if and only if no live process is
      more than one tick ahead of a start and a running one has only just started. */
  lemma NewcomerKeepsFair(s: System)
    requires Fair(s)
    ensures Fair(WithNewcomer(s)) <==> JustStarted(s)
  {
    hide Fair, JustStarted;
    if Fair(WithNewcomer(s)) {
      NewcomerBounds(s);
    }
    if JustStarted(s) {
      NewcomerFair(s);
    }
  }

  /** No live process is more than a tick ahead of a start, a running one has just started. */
  ghost predicate JustStarted(s: System) {
    && (forall i :: LiveAt(s, i) ==> s.tasks[i].Weight() <= 1 + TICK)
    && (s.Busy() ==> s.tasks[s.current.value].Weight() == 1)
  }

  lemma NewcomerBounds(s: System)
    requires Fair(s) && Fair(WithNewcomer(s))
    ensures JustStarted(s)
  {
    var r := WithNewcomer(s);
    assert LiveAt(r, 0) && r.tasks[0].Weight() == 1;
    forall i | LiveAt(s, i)
      ensures s.tasks[i].Weight() <= 1 + TICK
    {
      assert LiveAt(r, i + 1) && r.tasks[i + 1] == s.tasks[i];
    }
  }

  lemma NewcomerFair(s: System)
    requires Fair(s) && JustStarted(s)
    ensures Fair(WithNewcomer(s))
  {
    var r := WithNewcomer(s);
    forall i | LiveAt(r, i)
      ensures 1 <= r.tasks[i].Weight() <= 1 + TICK && r.tasks[i].Weight() % TICK == 1
    {
      if i > 0 {
        assert LiveAt(s, i - 1) && r.tasks[i] == s.tasks[i - 1];
      }
    }
    forall i | 0 <= i < |r.tasks| && r.tasks[i].state == Running
      ensures r.current == Some(i) && r.tasks[i].vruntime > 0
    {
      assert r.tasks[i] == s.tasks[i - 1];
    }
  }

  // Killing

  /** After the current process is killed the timer never dispatches again. */
  lemma {:induction false} KilledCurrentFreezes(s: System, k: nat)
    requires s.Consistent() && s.current.Some?
    ensures Ticks(SetState(s, s.current.value, Zombie), k) == SetState(s, s.current.value, Zombie)
  {
    if k > 0 {
      KilledCurrentFreezes(s, k - 1);
    }
  }

  /** After a kill the timer dispatches the other processes if and only if some process was
      running and it was not the killed one. */
  lemma KillKeepsDispatching(s: System, i: nat, p: nat)
    requires Fair(s) && i < |s.tasks| && p < |s.tasks| && p != i
    requires s.tasks[p].state == Ready && s.current != Some(p)
    ensures (exists j: nat :: Ticks(SetState(s, i, Zombie), j).current == Some(p))
            <==> s.Busy() && s.current != Some(i)
  {
    LeaveFair(s, i);
    BoundedWaiting(SetState(s, i, Zombie), p);
  }

  /** A killed current process that still gets to exit is followed as if it had not been
      killed: exiting dispatches, the timer does not. */
  lemma KilledCurrentExits(s: System)
    requires s.Consistent() && s.current.Some?
    ensures Exit(SetState(s, s.current.value, Zombie)) == Exit(s)
  {
    var z := SetState(s, s.current.value, Zombie);
    assert SetState(z, z.current.value, Zombie) == z;
  }

  /** Two processes, the first running. */
  function TwoProcesses(): System {
    System([Task(Running, 1), Task(Ready, 0)], Some(0))
  }

  lemma TwoProcessesFair()
    ensures Fair(TwoProcesses()) && TwoProcesses().Busy()
  {
  }

  /** The timer would dispatch the second at once, never after the first is killed, and
      again once it exits. */
  lemma KilledCurrentStarves(k: nat)
    ensures var z := SetState(TwoProcesses(), 0, Zombie);
            Tick(TwoProcesses()).current == Some(1) && Ticks(z, k).current == Some(0) && Exit(z).current == Some(1)
  {
    hide Best, Ticks;
    var s := TwoProcesses();
    KilledCurrentFreezes(s, k);
    KilledCurrentExits(s);
    TwoTasks(Charge(s).tasks);
    TwoTasks(SetState(s, 0, Zombie).tasks);
  }

  lemma TwoTasks(tasks: seq<Task>)
    requires |tasks| == 2 && tasks[0].state != Ready && tasks[1].state == Ready
    ensures Best(tasks, 2) == Some(1)
  {
    assert Best(tasks, 1) == None;
  }
}
