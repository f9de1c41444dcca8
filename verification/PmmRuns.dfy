/** Whole runs of the page allocator, for callers that give back only pages
    they were handed and have not returned yet. */
module PmmRuns {
  import opened Memory
  import opened PageAllocator

  datatype State = State(free: set<nat>, outstanding: set<nat>)

  datatype Event = Alloc(page: nat) | Exhausted | GiveBack(page: nat)

  ghost predicate Step(s: State, e: Event, s': State) {
    match e
    case Alloc(p) => IsLowest(p, s.free) && s' == State(s.free - {p}, s.outstanding + {p})
    case Exhausted => s.free == {} && s' == s
    case GiveBack(p) => p in s.outstanding && s' == State(s.free + {p}, s.outstanding - {p})
  }

  ghost predicate Run(states: seq<State>, events: seq<Event>) {
    && |states| == |events| + 1
    && forall i :: 0 <= i < |events| ==> Step(states[i], events[i], states[i + 1])
  }

  /** Along a run, free and outstanding pages always split the initial free set. */
  lemma {:induction false} PagesConserved(states: seq<State>, events: seq<Event>, n: nat)
    requires Run(states, events) && n <= |events|
    requires states[0].outstanding == {}
    ensures states[n].free !! states[n].outstanding
    ensures states[n].free + states[n].outstanding == states[0].free
  {
    if n > 0 {
      PagesConserved(states, events, n - 1);
      assert Step(states[n - 1], events[n - 1], states[n]);
    }
  }

  /** No page is handed out while it is outstanding, and none outside the initial
      free set (a reserved page) is ever handed out. */
  lemma HandedOutOnce(states: seq<State>, events: seq<Event>, n: nat)
    requires Run(states, events) && n < |events| && events[n].Alloc?
    requires states[0].outstanding == {}
    ensures events[n].page in states[0].free
    ensures events[n].page !in states[n].outstanding
    ensures forall q :: q in states[n].free ==> events[n].page <= q
  {
    PagesConserved(states, events, n);
    assert Step(states[n], events[n], states[n + 1]);
  }

  /** A page handed out twice was given back in between. */
  lemma {:induction false} GivenBackBetween(states: seq<State>, events: seq<Event>, i: nat, j: nat) returns (k: nat)
    requires Run(states, events) && i < j < |events|
    requires states[0].outstanding == {}
    requires events[i].Alloc? && events[i] == events[j]
    ensures i < k < j && events[k] == GiveBack(events[i].page)
  {
    k := j - 1;
    HandedOutOnce(states, events, j);
    var p := events[i].page;
    while k > i && events[k] != GiveBack(p)
      invariant i <= k < j
      invariant p !in states[k + 1].outstanding
    {
      assert Step(states[k], events[k], states[k + 1]);
      k := k - 1;
    }
    assert Step(states[i], events[i], states[i + 1]);
  }

  /** The `k` lowest free pages are `s`, `s + 1`, and so on. */
  ghost predicate LowestAre(free: set<nat>, s: nat, k: nat) {
    && (forall i :: s <= i < s + k ==> i in free)
    && (forall q :: q in free ==> s <= q)
  }

  lemma LowestNext(free: set<nat>, s: nat, k: nat, p: nat)
    requires LowestAre(free, s, k) && k > 0 && IsLowest(p, free)
    ensures p == s && LowestAre(free - {p}, s + 1, k - 1)
  {
    assert s in free;
  }

  ghost predicate InRun(p: int, first: nat, count: nat) {
    first <= p < first + count
  }

  ghost predicate IsRun(pages: set<nat>, first: nat, count: nat) {
    forall q :: q in pages <==> InRun(q, first, count)
  }

  /** From `free` the `count` lowest pages were taken, or all when there are fewer. */
  ghost predicate TookLowest(free: set<nat>, left: set<nat>, count: nat) {
    && left <= free
    && |free - left| == (if |free| < count then |free| else count)
    && forall t, q :: t in free - left && q in left ==> t < q
  }

  lemma TookNext(free: set<nat>, left: set<nat>, count: nat, p: nat)
    requires TookLowest(free, left, count) && IsLowest(p, left)
    ensures TookLowest(free, left - {p}, count + 1)
  {
    var taken := free - left;
    assert free - (left - {p}) == taken + {p};
    assert |taken + {p}| == |taken| + 1;
    FreeSplits(free, left);
    FreeSplits(free, left - {p});
  }

  lemma FreeSplits(free: set<nat>, left: set<nat>)
    requires left <= free
    ensures |free| == |free - left| + |left|
  {
    assert free == (free - left) + left;
  }

  lemma TookAll(free: set<nat>, count: nat)
    requires TookLowest(free, {}, count)
    ensures TookLowest(free, {}, count + 1)
  {
    assert free - {} == free;
  }

  lemma {:induction false} RunSize(s: set<nat>, first: nat, count: nat)
    requires forall q :: q in s ==> InRun(q, first, count)
    ensures |s| <= count
    ensures (forall q :: InRun(q, first, count) ==> q in s) ==> |s| == count
    decreases count
  {
    if count > 0 {
      var last := first + count - 1;
      RunSize(s - {last}, first, count - 1);
      if forall q :: InRun(q, first, count) ==> q in s {
        assert InRun(last, first, count);
        assert forall q :: InRun(q, first, count - 1) ==> InRun(q, first, count);
      }
    } else {
      assert s == {};
    }
  }

  /** The pages taken are consecutive, from the lowest on, exactly when the lowest free
      pages are. */
  lemma TookRun(free: set<nat>, left: set<nat>, p: nat, k: nat)
    requires IsLowest(p, free) && TookLowest(free, left, k) && k > 0
    ensures IsRun(free - left, p, k) <==> LowestAre(free, p, k)
  {
    var taken := free - left;
    if LowestAre(free, p, k) {
      TakenAreRun(free, left, p, k);
    } else {
      var i :| p <= i < p + k && i !in free;
      assert InRun(i, p, k);
    }
  }

  lemma TakenAreRun(free: set<nat>, left: set<nat>, p: nat, k: nat)
    requires TookLowest(free, left, k) && LowestAre(free, p, k)
    ensures IsRun(free - left, p, k)
  {
    var taken := free - left;
    var run := set q | q in free && InRun(q, p, k);
    RunSize(run, p, k);
    SubsetSize(run, free);
    forall q | q in run
      ensures q in taken
    {
      if q in left {
        RunSize(taken, p, q - p);
      }
    }
    SubsetSize(run, taken);
  }

  lemma SubsetSize<T>(a: set<T>, b: set<T>)
    requires a <= b
    ensures |a| <= |b| && (|a| == |b| ==> a == b)
  {
    assert b == a + (b - a);
  }

  /** Successive allocations from consecutive lowest pages are consecutive. */
  lemma {:induction false} Consecutive(states: seq<State>, events: seq<Event>, s: nat, k: nat, n: nat)
    requires Run(states, events) && n < k <= |events|
    requires forall i :: 0 <= i < k ==> events[i].Alloc?
    requires LowestAre(states[0].free, s, k)
    ensures events[n] == Alloc(s + n)
    ensures LowestAre(states[n].free, s + n, k - n)
  {
    if n > 0 {
      Consecutive(states, events, s, k, n - 1);
      assert Step(states[n - 1], events[n - 1], states[n]);
      LowestNext(states[n - 1].free, s + n - 1, k - n + 1, events[n - 1].page);
    }
    assert Step(states[n], events[n], states[n + 1]);
    LowestNext(states[n].free, s + n, k - n, events[n].page);
  }

  /** A caller that keeps the discipline: every call is a step of a run. */
  class Client {
    const pmm: Pmm
    ghost var outstanding: set<nat>

    ghost predicate Valid()
      reads this, pmm, pmm.bitmap
    {
      && pmm.Valid() && 0 !in pmm.Free() + outstanding
      && forall p :: p in outstanding ==> p < pmm.totalPages && p !in pmm.Free()
    }

    ghost function Now(): State
      requires Valid()
      reads this, pmm, pmm.bitmap
    {
      State(pmm.Free(), outstanding)
    }

    constructor (pmm: Pmm)
      requires pmm.Valid() && 0 !in pmm.Free()
      ensures Valid() && this.pmm == pmm && outstanding == {}
    {
      this.pmm := pmm;
      outstanding := {};
    }

    method TakePage() returns (addr: Word)
      requires Valid()
      modifies this, pmm`freePages, pmm.bitmap
      ensures Valid()
      ensures Step(old(Now()), if addr == 0 then Exhausted else Alloc(addr / PAGE_SIZE), Now())
    {
      hide Pmm.Free, Pmm.Valid;
      FreeIsManaged(pmm);
      ghost var free := pmm.Free();
      addr := pmm.AllocPage();
      FreeIsManaged(pmm);
      ghost var p := addr / PAGE_SIZE;
      if addr != 0 {
        outstanding := outstanding + {p};
      } else {
        assert free == {};
      }
    }

    method ReturnPage(addr: Word)
      requires Valid() && addr / PAGE_SIZE in outstanding
      modifies this, pmm`freePages, pmm.bitmap
      ensures Valid() && Step(old(Now()), GiveBack(addr / PAGE_SIZE), Now())
    {
      hide Pmm.Free, Pmm.Valid;
      pmm.FreePage(addr);
      outstanding := outstanding - {addr / PAGE_SIZE};
    }
  }
}
