/** Processes on one `next` field that serves two lists at once: the process list and
    the scheduler's queue. */
module ProcessTable {
  import opened SchedulerSpec
  import opened Options

  class Process {
    const pid: nat
    var state: ProcState
    var vruntime: nat
    var exitCode: int
    var next: Process?

    constructor (pid: nat, next: Process?)
      ensures this.pid == pid && this.next == next && state == Ready && vruntime == 0
    {
      this.pid := pid;
      state := Ready;
      vruntime := 0;
      exitCode := 0;
      this.next := next;
    }
  }

  /** Following `next` from `head` visits the processes of `s`, each once. */
  ghost predicate Chain(head: Process?, s: seq<Process>)
    reads s`next
  {
    && head == At(s, 0)
    && (forall i :: 0 <= i < |s| ==> Links(s, i))
    && Each(s)
  }

  ghost function At(s: seq<Process>, i: nat): Process? {
    if i < |s| then s[i] else null
  }

  ghost predicate Links(s: seq<Process>, i: nat)
    requires i < |s|
    reads s`next
  {
    s[i].next == At(s, i + 1)
  }

  /** `s` without its first `p`. */
  ghost function Drop(s: seq<Process>, p: Process?): (r: seq<Process>)
    ensures forall q :: q in r ==> q in s
  {
    if s == [] then [] else if s[0] == p then s[1..] else [s[0]] + Drop(s[1..], p)
  }

  /** The process right before the first `p` of `s`, or null. */
  ghost function Before(s: seq<Process>, p: Process?): Process? {
    if |s| < 2 || s[0] == p then null else if s[1] == p then s[0] else Before(s[1..], p)
  }

  lemma {:induction false} DropAt(s: seq<Process>, p: Process, i: nat)
    requires i < |s| && s[i] == p && forall j :: 0 <= j < i ==> s[j] != p
    ensures Drop(s, p) == s[..i] + s[i + 1..]
    ensures Before(s, p) == if i == 0 then null else s[i - 1]
  {
    if i > 0 {
      DropAt(s[1..], p, i - 1);
      assert s[..i] == [s[0]] + s[1..][..i - 1];
    }
  }

  lemma {:induction false} DropNone(s: seq<Process>, p: Process?)
    requires p !in s
    ensures Drop(s, p) == s && Before(s, p) == null
  {
    if s != [] {
      DropNone(s[1..], p);
    }
  }

  lemma {:induction false} DropGone(s: seq<Process>, p: Process)
    requires Each(s)
    ensures p !in Drop(s, p)
  {
    if s != [] && s[0] != p {
      assert Each(s[1..]);
      DropGone(s[1..], p);
    }
  }

  lemma {:induction false} BeforeHead(s: seq<Process>, p: Process)
    requires p in s
    ensures Before(s, p) in s <==> p != s[0]
  {
    if p != s[0] && p != s[1] {
      BeforeHead(s[1..], p);
    }
  }

  /** Where `p` first stands in `s`. */
  ghost function Position(s: seq<Process>, p: Process): (i: nat)
    requires p in s
    ensures i < |s| && s[i] == p
  {
    if s[0] == p then 0 else 1 + Position(s[1..], p)
  }

  /** `s` up to its `p`, then `t`. */
  ghost predicate Spliced(s: seq<Process>, r: seq<Process>, p: Process, t: seq<Process>) {
    exists i :: 0 <= i < |s| && s[i] == p && r == s[..i + 1] + t
  }

  lemma TailChain(head: Process?, s: seq<Process>)
    requires Chain(head, s) && s != []
    ensures Chain(s[0].next, s[1..])
  {
    assert Links(s, 0);
    forall i | 0 <= i < |s[1..]| ensures Links(s[1..], i) {
      assert Links(s, i + 1);
    }
  }

  /** In the state after `prev` was pointed past `p`: a list that held the two is a list
      without `p`, a list without `prev` is as it was. */
  lemma ChainPast(head: Process?, s: seq<Process>, prev: Process, p: Process)
    requires head == At(s, 0) && Each(s)
    requires forall i :: 0 <= i < |s| && s[i] != prev ==> Links(s, i)
    requires prev in s ==> Follow(s, prev, p) && prev.next == p.next && p != prev
    ensures Chain(head, if prev in s then Drop(s, p) else s)
  {
    hide Drop;
    if prev in s {
      var i :| 0 <= i < |s| - 1 && s[i] == prev && s[i + 1] == p;
      DropAt(s, p, i + 1);
      LinkedPast(s, i);
    }
  }

  ghost predicate Each(s: seq<Process>) {
    forall i, j :: 0 <= i < j < |s| ==> s[i] != s[j]
  }

  lemma LinkedPast(s: seq<Process>, i: nat)
    requires i + 1 < |s| && Each(s) && s[i].next == s[i + 1].next
    requires forall k :: 0 <= k < |s| && k != i ==> Links(s, k)
    ensures Chain(s[0], s[..i + 1] + s[i + 2..])
  {
    var t := s[..i + 1] + s[i + 2..];
    assert Links(s, i + 1);
    forall k | 0 <= k < |t| ensures Links(t, k) {
      if k < i {
        assert Links(s, k);
      } else if k > i {
        assert Links(s, k + 1);
      }
    }
  }

  ghost predicate Follow(s: seq<Process>, prev: Process, p: Process) {
    exists i :: 0 <= i < |s| - 1 && s[i] == prev && s[i + 1] == p
  }

  /** Two lists over the same links that meet stay together. */
  lemma {:induction false} MeetingStays(h: Process?, s: seq<Process>, g: Process?, t: seq<Process>, j: nat, k: nat)
    requires Chain(h, s) && Chain(g, t) && j <= k < |s| && s[j] in t
    ensures s[k] in t
    decreases k
  {
    if j < k {
      MeetingStays(h, s, g, t, j, k - 1);
      var i :| 0 <= i < |t| && t[i] == s[k - 1];
      assert Links(s, k - 1) && Links(t, i);
    }
  }

  /** Following `next` from `head` stays among the first `i + 1` processes of `s` for ever. */
  ghost predicate Endless(head: Process?, s: seq<Process>, i: nat)
    reads s`next
  {
    i < |s| && head in s[..i + 1] && forall q :: q in s[..i + 1] ==> q.next in s[..i + 1]
  }

  /** So no list lies behind it. */
  lemma EndlessIsNoChain(head: Process, s: seq<Process>, i: nat, t: seq<Process>)
    requires Endless(head, s, i)
    ensures !Chain(head, t)
  {
    if Chain(head, t) {
      StaysInCircle(s[..i + 1], head, t, |t| - 1);
    }
  }

  lemma LinksInCircle(s: seq<Process>, p: Process, i: nat)
    requires i < |s| && s[i] == p && p.next == s[0]
    requires forall j :: 0 <= j < |s| && s[j] != p ==> Links(s, j)
    ensures Endless(p, s, i)
  {
    var circle := s[..i + 1];
    assert p.next == circle[0] && circle[i] == p;
    forall q | q in circle
      ensures q.next in circle
    {
      var j :| 0 <= j <= i && s[j] == q;
      if q != p {
        assert Links(s, j);
        assert q.next == s[j + 1] == circle[j + 1];
      }
    }
  }

  lemma {:induction false} StaysInCircle(circle: seq<Process>, p: Process, t: seq<Process>, k: int)
    requires Chain(p, t) && p in circle && -1 <= k < |t|
    requires forall q :: q in circle ==> q.next in circle
    ensures t != [] && (0 <= k ==> t[k] in circle && Links(t, k))
  {
    if k > 0 {
      StaysInCircle(circle, p, t, k - 1);
    }
  }

  class Table {
    var procList: Process?
    var schedQueue: Process?
    var current: Process?
    var nextPid: nat
    ghost var procs: seq<Process>
    ghost var queue: seq<Process>

    constructor ()
      ensures Valid() && Agree() && procs == [] && current == null && nextPid == 1
    {
      procList := null;
      schedQueue := null;
      current := null;
      nextPid := 1;
      procs := [];
      queue := [];
    }

    /** Both heads lead through proper chains, which may share a tail; process ids are handed
        out once. */
    ghost predicate Valid()
      reads this, procs`next, queue`next
    {
      && Chain(procList, procs) && Chain(schedQueue, queue)
      && (forall p :: p in Known() ==> p.pid < nextPid)
      && (forall p, q :: p in Known() && q in Known() && p.pid == q.pid ==> p == q)
    }

    ghost function Known(): set<Process>
      reads this
    {
      set p | p in procs + queue
    }

    /** The two heads denote the same list. */
    ghost predicate Agree()
      reads this
    {
      procs == queue && procList == schedQueue
    }

    /** The end of `process_create`: the new process goes to the front of the list. */
    method Create() returns (p: Process)
      requires Valid()
      modifies this
      ensures Valid() && fresh(p) && p.pid == old(nextPid) == nextPid - 1 && p.vruntime == 0 && p.state == Ready
      ensures procs == [p] + old(procs) && queue == old(queue) && schedQueue == old(schedQueue)
      ensures current == old(current)
    {
      p := new Process(nextPid, procList);
      nextPid := nextPid + 1;
      procList := p;
      ghost var was := procs;
      procs := [p] + procs;
      forall i | 0 <= i < |procs| ensures Links(procs, i) {
        assert i > 0 ==> old(Links(was, i - 1));
      }
      forall i | 0 <= i < |queue| ensures Links(queue, i) {
        assert old(Links(queue, i));
      }
    }

    /** The links that `sched_proc_add` sets, for any process. */
    method Push(p: Process)
      modifies this`schedQueue, p`state, p`next
      ensures schedQueue == p && p.next == old(schedQueue) && p.state == Ready
    {
      p.state := Ready;
      p.next := schedQueue;
      schedQueue := p;
    }

    /** `sched_proc_add` of a process that is not queued: it comes first in the queue, and
        where it stood in the process list the queue follows it from now on. */
    method SchedAdd(p: Process)
      requires Valid() && p !in queue && p.pid < nextPid && forall q :: q in Known() && q.pid == p.pid ==> q == p
      modifies this`schedQueue, this`queue, this`procs, p`state, p`next
      ensures Valid() && queue == [p] + old(queue) && p.state == Ready
      ensures if p in old(procs) then Spliced(old(procs), procs, p, old(queue)) else procs == old(procs)
      ensures Agree() <==> old(procs != [] && procs[0] == p)
    {
      ghost var was, s := queue, procs;
      if p in s {
        NotBefore(p);
      }
      Push(p);
      queue := [p] + was;
      ghost var k := if p in s then Position(s, p) else |s| - 1;
      procs := s[..k + 1] + if p in s then was else [];
      forall i | 0 <= i < |was| ensures Links(was, i) {
        assert old(Links(was, i));
      }
      forall i | 0 <= i < |s| && s[i] != p ensures Links(s, i) {
        assert old(Links(s, i));
      }
      PushedChain(p, [], was);
      assert [] + [p] + was == queue;
      if p in s {
        PushedChain(p, s[..k], was);
        assert procs == s[..k] + [p] + was;
      } else {
        assert procs == s;
      }
    }

    static lemma PushedChain(p: Process, s: seq<Process>, t: seq<Process>)
      requires Each(s + [p] + t) && p.next == At(t, 0)
      requires forall i :: 0 <= i < |s| ==> s[i].next == At(s + [p], i + 1)
      requires forall i :: 0 <= i < |t| ==> Links(t, i)
      ensures Chain(At(s + [p] + t, 0), s + [p] + t)
    {
      var r := s + [p] + t;
      forall i | 0 <= i < |r| ensures Links(r, i) {
        if i > |s| {
          assert Links(t, i - |s| - 1);
        }
      }
    }

    /** No process before one that is not queued is queued. */
    lemma NotBefore(p: Process)
      requires Valid() && p !in queue
      ensures forall j, k :: 0 <= j <= k < |procs| && procs[k] == p ==> procs[j] !in queue
    {
      forall j, k | 0 <= j <= k < |procs| && procs[k] == p
        ensures procs[j] !in queue
      {
        if procs[j] in queue {
          MeetingStays(procList, procs, schedQueue, queue, j, k);
        }
      }
    }

    /** Of a process that is already in the queue: the links close to a circle, and the
        walks over the queue never end. */
    method SchedAddAgain(p: Process) returns (ghost i: nat)
      requires Valid() && p in queue
      modifies this`schedQueue, p`state, p`next
      ensures Endless(schedQueue, queue, i)
    {
      ghost var was := queue;
      i :| 0 <= i < |was| && was[i] == p;
      Push(p);
      forall j | 0 <= j < |was| && was[j] != p ensures Links(was, j) {
        assert old(Links(was, j));
      }
      LinksInCircle(was, p, i);
    }

    /** `sched_proc_remove`: the process leaves the queue; it leaves the process list with it
        exactly when its predecessor in the queue stands there too. */
    method SchedRemove(p: Process?)
      requires Valid()
      modifies this`procs, this`queue, this`schedQueue, procs`next, queue`next
      ensures Valid() && queue == Drop(old(queue), p)
      ensures procs == if Before(old(queue), p) in old(procs) then Drop(old(procs), p) else old(procs)
      ensures old(Agree()) ==> (Agree() <==> old(queue) == [] || p != old(queue)[0])
    {
      if p == null || schedQueue == null {
        DropNone(queue, p);
        return;
      }
      assert Links(queue, 0);
      if schedQueue == p {
        TailChain(schedQueue, queue);
        schedQueue := p.next;
        queue := queue[1..];
        return;
      }
      UnlinkLoop(p, schedQueue, queue);
    }

    /** The walk that both removals share, for a process that is not the head of `s`. */
    method UnlinkLoop(p: Process, head: Process, ghost s: seq<Process>)
      requires Valid() && p != head
      requires (s == procs && head == procList) || (s == queue && head == schedQueue)
      modifies this`procs, this`queue, s`next
      ensures Valid()
      ensures s == old(procs) ==> procs == Drop(s, p)
      ensures s == old(queue) ==> queue == Drop(s, p)
      ensures procs == if Before(s, p) in old(procs) then Drop(old(procs), p) else old(procs)
      ensures queue == if Before(s, p) in old(queue) then Drop(old(queue), p) else old(queue)
    {
      var curr := head;
      ghost var i := 0;
      while curr.next != null && curr.next != p
        invariant 0 <= i < |s| && curr == s[i] && p !in s[..i + 1]
        decreases |s| - i
      {
        assert Links(s, i);
        curr := curr.next;
        i := i + 1;
      }
      assert Links(s, i);
      if curr.next == p {
        DropAt(s, p, i + 1);
        Unlink(curr, p);
      } else {
        assert s == s[..i + 1];
        DropNone(s, p);
      }
    }

    /** Points `prev` past its successor, in every list that holds it. */
    method Unlink(prev: Process, p: Process)
      requires Valid() && prev in Known() && prev.next == p
      modifies this`procs, this`queue, prev`next
      ensures Valid()
      ensures procs == if prev in old(procs) then Drop(old(procs), p) else old(procs)
      ensures queue == if prev in old(queue) then Drop(old(queue), p) else old(queue)
    {
      ghost var s, t := procs, queue;
      SuccessorFollows(procList, s, prev, p);
      SuccessorFollows(schedQueue, t, prev, p);
      prev.next := p.next;
      forall i | 0 <= i < |s| && s[i] != prev ensures Links(s, i) {
        assert old(Links(s, i));
      }
      forall i | 0 <= i < |t| && t[i] != prev ensures Links(t, i) {
        assert old(Links(t, i));
      }
      ChainPast(procList, s, prev, p);
      ChainPast(schedQueue, t, prev, p);
      procs := if prev in s then Drop(s, p) else s;
      queue := if prev in t then Drop(t, p) else t;
    }

    lemma SuccessorFollows(head: Process?, s: seq<Process>, prev: Process, p: Process)
      requires Chain(head, s) && prev.next == p
      ensures prev in s ==> Follow(s, prev, p) && p != prev
    {
      if prev in s {
        var i :| 0 <= i < |s| && s[i] == prev;
        assert Links(s, i);
      }
    }

    /** `process_destroy`: the process leaves the process list; it leaves the queue with it
        exactly when its predecessor in the list is queued too. */
    method Destroy(p: Process)
      requires Valid()
      modifies this`procs, this`queue, this`procList, procs`next, p`state
      ensures Valid() && p.state == Dead && schedQueue == old(schedQueue)
      ensures procs == Drop(old(procs), p)
      ensures queue == if Before(old(procs), p) in old(queue) then Drop(old(queue), p) else old(queue)
      ensures old(Agree()) ==> (Agree() <==> p !in old(procs) || p != old(procs)[0])
    {
      if procList == p {
        assert Links(procs, 0);
        TailChain(procList, procs);
        procList := p.next;
        procs := procs[1..];
      } else if procList != null {
        UnlinkLoop(p, procList, procs);
      }
      p.state := Dead;
    }

    /** Out of the queue, then destroyed: gone from both, and lists that agreed still do. */
    method RemoveThenDestroy(p: Process)
      requires Valid()
      modifies this`procs, this`queue, this`procList, this`schedQueue, procs`next, queue`next, p`state
      ensures Valid() && procs == Drop(old(procs), p) && queue == Drop(old(queue), p)
      ensures old(Agree()) ==> Agree()
    {
      hide Drop, Before;
      DropGone(procs, p);
      DropGone(queue, p);
      SchedRemove(p);
      DropNone(queue, p);
      assert p !in procs ==> Drop(procs, p) == procs by {
        if p !in procs {
          DropNone(procs, p);
        }
      }
      assert forall i :: 0 <= i < |procs| ==> procs[i] in old(procs);
      Destroy(p);
      assert procs == Drop(old(procs), p);
      assert queue == Drop(old(queue), p);
    }

    /** Creation as its callers follow it, onto the list, then into the queue: whatever the
        lists were, they agree afterwards, on the new process before the old queue. */
    method CreateThenAdd(ghost c: Option<nat>) returns (p: Process, ghost c': Option<nat>)
      requires Valid() && CurrentAt(c)
      modifies this
      ensures Valid() && Agree() && fresh(p) && procs == [p] + old(queue)
      ensures p.pid == old(nextPid) && p.state == Ready && p.vruntime == 0
      ensures CurrentAt(c') && Abs(c') == WithNewcomer(old(Abs(c)))
    {
      c' := match c case None => None case Some(i) => Some(i + 1);
      p := Create();
      SchedAdd(p);
    }

    /** `sys_waitpid` destroys a process without taking it out of the queue. If it heads the
        list it is back in both lists after the next creation, although its memory was freed;
        any other is gone. */
    method DestroyThenCreate(d: Process) returns (p: Process)
      requires Valid() && Agree() && d in procs
      modifies this, procs`next, d`state
      ensures Valid() && Agree()
      ensures procs == [p] + if d == old(procs)[0] then old(procs) else Drop(old(procs), d)
      ensures d in procs <==> d == old(procs)[0]
    {
      hide Drop, Before, Spliced, Links;
      ghost var s := procs;
      BeforeHead(s, d);
      DropGone(s, d);
      Destroy(d);
      assert queue == if d == s[0] then s else Drop(s, d);
      p := Create();
      SchedAdd(p);
    }

    // Scheduling

    ghost function TaskOf(p: Process): Task
      reads p
    {
      Task(p.state, p.vruntime)
    }

    ghost function Tasks(): seq<Task>
      reads this, queue
    {
      seq(|queue|, i requires 0 <= i < |queue| reads this, queue => TaskOf(queue[i]))
    }

    /** The position of the current process in the queue. */
    ghost predicate CurrentAt(c: Option<nat>)
      reads this
    {
      match c
      case None => current == null
      case Some(i) => i < |queue| && current == queue[i]
    }

    ghost function Abs(c: Option<nat>): System
      reads this, queue
    {
      System(Tasks(), c)
    }

    /** The list walk of `schedule_process`. */
    method PickBest() returns (best: Process?)
      requires Valid()
      ensures best == match Best(Tasks(), |queue|) case None => null case Some(b) => queue[b]
    {
      ghost var tasks := Tasks();
      best := null;
      var curr := schedQueue;
      ghost var i := 0;
      while curr != null
        invariant 0 <= i <= |queue| && curr == At(queue, i)
        invariant best == match Best(tasks, i) case None => null case Some(b) => queue[b]
        decreases |queue| - i
      {
        assert TaskOf(queue[i]) == tasks[i];
        if curr.state == Ready {
          if best == null || curr.vruntime < best.vruntime {
            best := curr;
          }
        }
        assert Links(queue, i);
        curr := curr.next;
        i := i + 1;
      }
    }

    /** `schedule_process`: the state afterwards is what the specification says. */
    method ScheduleProcess(ghost c: Option<nat>) returns (ghost c': Option<nat>)
      requires Valid() && CurrentAt(c)
      modifies this`current, queue`state, queue`vruntime
      ensures Valid() && CurrentAt(c')
      ensures Abs(c') == Schedule(old(Abs(c)))
    {
      c' := c;
      if schedQueue == null {
        return;
      }
      var best := PickBest();
      if best == null {
        return;
      }
      c' := Best(Tasks(), |queue|);
      SwitchTo(best, c, c'.value);
    }

    /** Preempts the running process and starts `best`. */
    method SwitchTo(best: Process, ghost c: Option<nat>, ghost b: nat)
      requires Valid() && CurrentAt(c) && b < |queue| && best == queue[b]
      modifies this`current, queue`state, queue`vruntime
      ensures Valid() && CurrentAt(Some(b))
      ensures var tasks := Preempted(old(Abs(c)));
              Abs(Some(b)) == System(tasks[b := Started(tasks[b])], Some(b))
    {
      if current != null && current.state == Running {
        current.state := Ready;
      }
      assert Tasks() == Preempted(old(Abs(c)));
      current := best;
      Start(best, b);
    }

    method Start(p: Process, ghost b: nat)
      requires Valid() && b < |queue| && p == queue[b]
      modifies p`state, p`vruntime
      ensures Valid() && Tasks() == old(Tasks())[b := Started(old(Tasks())[b])]
    {
      p.state := Running;
      if p.vruntime == 0 {
        p.vruntime := 1;
      }
    }

    /** `sched_proc_tick` */
    method SchedTick(ghost c: Option<nat>) returns (ghost c': Option<nat>)
      requires Valid() && CurrentAt(c)
      modifies this`current, queue`state, queue`vruntime
      ensures Valid() && CurrentAt(c')
      ensures Abs(c') == SchedulerSpec.Tick(old(Abs(c)))
      ensures old(current != null && current.state == Running) ==> old(current).vruntime == old(current.vruntime) + 10
    {
      c' := c;
      if current != null && current.state == Running {
        ghost var s := Abs(c);
        current.vruntime := current.vruntime + TICK;
        assert Abs(c) == Charge(s);
        c' := ScheduleProcess(c);
        assert Tasks()[c.value] == TaskOf(old(current));
      }
    }

    /** `process_exit` */
    method ProcessExit(ghost c: Option<nat>, code: int) returns (ghost c': Option<nat>)
      requires Valid() && CurrentAt(c)
      modifies this`current, queue`state, queue`vruntime, queue`exitCode
      ensures Valid() && CurrentAt(c')
      ensures Abs(c') == SchedulerSpec.Exit(old(Abs(c)))
      ensures c.Some? ==> old(current) != null && old(current).exitCode == code && old(current).state == Zombie
      ensures forall p :: p in queue && p != old(current) ==> p.exitCode == old(p.exitCode)
    {
      c' := c;
      if current == null {
        return;
      }
      ghost var s := Abs(c);
      current.exitCode := code;
      current.state := Zombie;
      assert Abs(c) == SetState(s, c.value, Zombie);
      c' := ScheduleProcess(c);
      assert Tasks()[c.value] == TaskOf(old(current));
    }

    /** `sys_kill` with signal 9: the process of that id becomes a zombie; what the scheduler
        sees changes at its place in the queue, if it has one. */
    method Kill(pid: nat, ghost c: Option<nat>) returns (ok: bool, ghost at: Option<nat>)
      requires Valid() && CurrentAt(c)
      modifies procs`state, procs`exitCode
      ensures Valid() && CurrentAt(c)
      ensures ok <==> exists p :: p in procs && p.pid == pid
      ensures forall p :: p in procs && p.pid == pid ==>
                p.state == Zombie && p.exitCode == 137 && (p in queue <==> at.Some?)
      ensures at.None? ==> Abs(c) == old(Abs(c))
      ensures at.Some? ==>
                ok && at.value < |queue| && queue[at.value].pid == pid
                && Abs(c) == SetState(old(Abs(c)), at.value, Zombie)
    {
      at := None;
      var target := GetByPid(pid);
      if target == null {
        return false, at;
      }
      if target in queue {
        at := Some(Position(queue, target));
      }
      SetZombie(target, c, at);
      ok := true;
    }

    method SetZombie(target: Process, ghost c: Option<nat>, ghost at: Option<nat>)
      requires Valid() && CurrentAt(c) && (target in queue <==> at.Some?)
      requires at.Some? ==> at.value < |queue| && target == queue[at.value]
      modifies target`state, target`exitCode
      ensures Valid() && CurrentAt(c) && target.state == Zombie && target.exitCode == 137
      ensures Abs(c) == if at.None? then old(Abs(c)) else SetState(old(Abs(c)), at.value, Zombie)
    {
      target.state := Zombie;
      target.exitCode := 137;
    }

    /** `process_get_by_pid` */
    method GetByPid(pid: nat) returns (p: Process?)
      requires Valid()
      ensures p != null ==> p in procs && p.pid == pid
      ensures p == null ==> forall q :: q in procs ==> q.pid != pid
    {
      p := procList;
      ghost var i := 0;
      while p != null
        invariant 0 <= i <= |procs| && p == At(procs, i)
        invariant forall j :: 0 <= j < i ==> procs[j].pid != pid
        decreases |procs| - i
      {
        if p.pid == pid {
          return;
        }
        assert Links(procs, i);
        p := p.next;
        i := i + 1;
      }
    }
  }
}
