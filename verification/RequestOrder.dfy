/** Every request of the allocator goes through the rings of its slot one after the other,
    and comes to malloc or free exactly when all of them have failed. */
module RequestOrder {
  import opened InterleavedAllocator
  import opened SizeClasses
  import Ring = RingBuffer
  import RingCalls

  /** The rings thread `tid` leaves with an event. */
  function Left(st: State, st': State, tid: Tid): set<RingId> {
    set r | r in st.rings && tid in st.rings[r].callers && (r in st'.rings ==> tid !in st'.rings[r].callers)
  }

  /** The rings it leaves in a run, one after the other. */
  function Visits(w: Ring.Leaving, st: State, es: seq<Event>, tid: Tid): seq<set<RingId>>
    decreases |es|
  {
    if es == [] then []
    else
      var st' := Next(w, st, es[0]);
      (if Left(st, st', tid) == {} then [] else [Left(st, st', tid)]) + Visits(w, st', es[1..], tid)
  }

  /** Rings `first` up to but not `last` of a slot. */
  function InOrder(slot: nat, first: nat, last: nat): (r: seq<set<RingId>>)
    requires first <= last
    ensures |r| == last - first
    ensures forall k | 0 <= k < |r| :: r[k] == {RingId(slot, first + k)}
    decreases last - first
  {
    if first == last then [] else [{RingId(slot, first)}] + InOrder(slot, first + 1, last)
  }

  /** The request of `tid` lasts for the whole run. */
  predicate Lasts(w: Ring.Leaving, st: State, es: seq<Event>, tid: Tid)
    decreases |es|
  {
    tid in st.calls && (es != [] ==> Lasts(w, Next(w, st, es[0]), es[1..], tid))
  }

  function OwnSteps(es: seq<Event>, tid: Tid): nat {
    if es == [] then 0 else (if es[0] == Step(tid) then 1 else 0) + OwnSteps(es[1..], tid)
  }

  // ----- One event -----

  /** In the rings the thread is where it was. */
  ghost predicate SameRings(st: State, st': State, tid: Tid) {
    && st'.rings.Keys == st.rings.Keys
    && forall r | r in st.rings :: (tid in st'.rings[r].callers <==> tid in st.rings[r].callers)
                                && (tid in st.rings[r].callers ==> st'.rings[r].callers[tid] == st.rings[r].callers[tid])
  }

  lemma OtherStep(w: Ring.Leaving, st: State, u: Tid, tid: Tid)
    requires u != tid && u in st.calls && tid in st.calls
    ensures SameRings(st, StepOf(w, st, u), tid)
    ensures tid in StepOf(w, st, u).calls && StepOf(w, st, u).calls[tid] == st.calls[tid]
  {
    StepOtherCalls(w, st, u);
    if RingOf(st.calls[u]) in st.rings {
      StepOnlyIn(w, st, u);
    }
  }

  lemma OtherEvent(w: Ring.Leaving, st: State, e: Event, tid: Tid)
    requires tid in st.calls && e != Step(tid)
    ensures SameRings(st, Next(w, st, e), tid)
    ensures tid in Next(w, st, e).calls && Next(w, st, e).calls[tid] == st.calls[tid]
  {
    if e.Step? && e.tid in st.calls {
      OtherStep(w, st, e.tid, tid);
    }
  }

  lemma NothingLeft(st: State, st': State, tid: Tid)
    requires SameRings(st, st', tid)
    ensures Left(st, st', tid) == {}
  {
  }

  lemma LeavesInVain(w: Ring.Leaving, st: State, tid: Tid)
    requires Here(st, tid) && tid in Account(st, tid).calls && tid !in RingAfter(w, st, tid).callers
    ensures Ring.Failing(PcOf(st, tid))
  {
  }

  lemma OwnInside(w: Ring.Leaving, st: State, tid: Tid)
    requires Here(st, tid) && tid in Account(st, tid).calls
    ensures var c := st.calls[tid];
            Account(st, tid).calls[tid]
            == if tid !in RingAfter(w, st, tid).callers then c.(i := c.i + 1) else c
  {
    if tid in RingAfter(w, st, tid).callers {
      StaysFitting(w, st, tid);
    } else {
      LeavesInVain(w, st, tid);
      FailureGoesOn(st, tid);
    }
  }

  /** A thread can only leave the ring its request has come to. */
  lemma LeftIsHere(st: State, st': State, tid: Tid)
    requires Located(st) && tid in st.calls && OnlyIn(st, st', RingOf(st.calls[tid]), tid)
    ensures Left(st, st', tid)
         == if Inside(st, tid) && tid !in st'.rings[RingOf(st.calls[tid])].callers then {RingOf(st.calls[tid])} else {}
  {
  }

  /** An own step that does not end the request: into the ring, on in it, or out of it and on
      to the next. */
  lemma OwnStep(w: Ring.Leaving, st: State, tid: Tid)
    requires Sound(w, st) && tid in st.calls && tid in StepOf(w, st, tid).calls
    ensures var c, st' := st.calls[tid], StepOf(w, st, tid);
            && RingOf(c) in st.rings
            && if Inside(st, tid) && tid !in st'.rings[RingOf(c)].callers then
                 st'.calls[tid] == c.(i := c.i + 1) && Left(st, st', tid) == {RingOf(c)}
               else st'.calls[tid] == c && Left(st, st', tid) == {}
  {
    var c, r := st.calls[tid], RingOf(st.calls[tid]);
    StepOnlyIn(w, st, tid);
    if Inside(st, tid) {
      SoundHere(w, st, tid);
      OwnInside(w, st, tid);
    }
    LeftIsHere(st, StepOf(w, st, tid), tid);
  }

  // ----- Runs -----

  /** What the invariants of the machine say, by name. */
  predicate Fine(w: Ring.Leaving, st: State, threads: nat, size: nat) {
    Sound(w, st) && Dimensioned(st, threads, size)
  }

  lemma NextFine(w: Ring.Leaving, st: State, e: Event, threads: nat, size: nat)
    requires Fine(w, st, threads, size)
    ensures Fine(w, Next(w, st, e), threads, size)
  {
    StepSound(w, st, e);
    StepDimensioned(w, st, e, threads, size);
  }

  lemma OneVisit(w: Ring.Leaving, st: State, e: Event, tid: Tid)
    requires Sound(w, st) && tid in st.calls && tid in Next(w, st, e).calls
    ensures var c, st' := st.calls[tid], Next(w, st, e);
            || (st'.calls[tid] == c && Left(st, st', tid) == {})
            || (st'.calls[tid] == c.(i := c.i + 1) && Left(st, st', tid) == {RingOf(c)} && RingOf(c) in st.rings)
  {
    if e == Step(tid) {
      OwnStep(w, st, tid);
    } else {
      OtherEvent(w, st, e, tid);
      NothingLeft(st, Next(w, st, e), tid);
    }
  }

  lemma {:induction false} RunFine(w: Ring.Leaving, st: State, es: seq<Event>, threads: nat, size: nat)
    requires Fine(w, st, threads, size)
    ensures Fine(w, Run(w, st, es), threads, size)
    decreases |es|
  {
    if es != [] {
      NextFine(w, st, es[0], threads, size);
      RunFine(w, Next(w, st, es[0]), es[1..], threads, size);
    }
  }

  lemma ReachedFine(w: Ring.Leaving, threads: nat, size: nat, es: seq<Event>)
    ensures Fine(w, Run(w, Initial(threads, size), es), threads, size)
  {
    InitialAbs(w, threads, size);
    RunFine(w, Initial(threads, size), es, threads, size);
  }

  /** A visit is of the next ring there is. */
  lemma VisitIsNext(w: Ring.Leaving, st: State, e: Event, tid: Tid, threads: nat, size: nat)
    requires Fine(w, st, threads, size) && tid in st.calls && tid in Next(w, st, e).calls
    requires st.calls[tid].i <= threads
    ensures var c, st' := st.calls[tid], Next(w, st, e);
            && st'.calls[tid].n == c.n && st'.calls[tid].Get? == c.Get?
            && c.i <= st'.calls[tid].i <= threads
            && Left(st, st', tid) == (if st'.calls[tid].i == c.i then {} else {RingId(SlotOf(c.n), c.i)})
            && st'.calls[tid].i <= c.i + 1
  {
    OneVisit(w, st, e, tid);
  }

  lemma Joins(left: set<RingId>, rest: seq<set<RingId>>, slot: nat, i: nat, j: nat, k: nat)
    requires i <= j <= i + 1 && j <= k && rest == InOrder(slot, j, k)
    requires left == if j == i then {} else {RingId(slot, i)}
    ensures (if left == {} then [] else [left]) + rest == InOrder(slot, i, k)
  {
    if j == i {
      assert [] + rest == rest;
    }
  }

  /** While a request lasts, the thread has left the rings of its slot in order, each once. */
  lemma {:induction false} VisitsRun(w: Ring.Leaving, st: State, es: seq<Event>, tid: Tid, threads: nat, size: nat)
    requires Fine(w, st, threads, size) && Lasts(w, st, es, tid) && st.calls[tid].i <= threads
    ensures var c, end := st.calls[tid], Run(w, st, es);
            && tid in end.calls && end.calls[tid].n == c.n && end.calls[tid].Get? == c.Get?
            && c.i <= end.calls[tid].i <= threads
            && Visits(w, st, es, tid) == InOrder(SlotOf(c.n), c.i, end.calls[tid].i)
    decreases |es|
  {
    if es != [] {
      VisitIsNext(w, st, es[0], tid, threads, size);
      NextFine(w, st, es[0], threads, size);
      VisitsRun(w, Next(w, st, es[0]), es[1..], tid, threads, size);
      var st', end := Next(w, st, es[0]), Run(w, st, es);
      Joins(Left(st, st', tid), Visits(w, st', es[1..], tid), SlotOf(st.calls[tid].n),
            st.calls[tid].i, st'.calls[tid].i, end.calls[tid].i);
    }
  }

  // ----- Where a request ends -----

  /** The next step of the thread is malloc or free. */
  predicate ToHeap(w: Ring.Leaving, st: State, tid: Tid)
    requires tid in st.calls
  {
    var st' := Next(w, st, Step(tid));
    if st.calls[tid].Get? then st'.next == st.next + 1 else st'.freed == st.freed + [st.calls[tid].b]
  }

  lemma ToHeapIff(w: Ring.Leaving, st: State, tid: Tid)
    requires tid in st.calls
    ensures ToHeap(w, st, tid) <==> RingOf(st.calls[tid]) !in st.rings
  {
    if RingOf(st.calls[tid]) in st.rings && Inside(st, tid) {
      AccountRest(st, tid);
    }
  }

  lemma {:induction false} NoVisitsAbove(w: Ring.Leaving, st: State, es: seq<Event>, tid: Tid, threads: nat, size: nat)
    requires Fine(w, st, threads, size) && Lasts(w, st, es, tid) && SlotOf(st.calls[tid].n) >= MAX_SLOT
    ensures Visits(w, st, es, tid) == []
    decreases |es|
  {
    if es != [] {
      OneVisit(w, st, es[0], tid);
      NextFine(w, st, es[0], threads, size);
      NoVisitsAbove(w, Next(w, st, es[0]), es[1..], tid, threads, size);
    }
  }

  /** The event is a call of Allocate or DeAllocate by a thread that is in none, for `n` bytes. */
  predicate Calls(st: State, e: Event, n: Size) {
    match e
    case Allocate(tid, k) => tid !in st.calls && k == n
    case Release(tid, b) => tid !in st.calls && b in st.held && st.held[b] == n
    case _ => false
  }

  /** From a call in any reachable state, whatever other clients do, and while the call lasts:
      for up to 2^15 bytes the thread leaves the rings of the slot in order from the first,
      each once and in vain, and its next step is malloc or free if and only if it has left
      them all; for more, malloc or free comes at once. */
  lemma {:induction false} RingsInOrder(w: Ring.Leaving, threads: nat, size: nat, before: seq<Event>, st: State,
                                        e: Event, n: Size, es: seq<Event>)
    requires st == Run(w, Initial(threads, size), before) && Calls(st, e, n)
    requires Lasts(w, Next(w, st, e), es, e.tid)
    ensures var called := Next(w, st, e);
            var end, visits := Run(w, called, es), Visits(w, called, es, e.tid);
            && |visits| <= threads && (forall k | 0 <= k < |visits| :: visits[k] == {RingId(SlotOf(n), k)})
            && e.tid in end.calls && end.calls[e.tid].Get? == e.Allocate?
            && (ToHeap(w, end, e.tid) <==> |visits| == if n <= 0x8000 then threads else 0)
  {
    var called, tid := Next(w, st, e), e.tid;
    ReachedFine(w, threads, size, before);
    NextFine(w, st, e, threads, size);
    VisitsRun(w, called, es, tid, threads, size);
    RunFine(w, called, es, threads, size);
    ToHeapIff(w, Run(w, called, es), tid);
    SlotsWithRings(n);
    if SlotOf(n) >= MAX_SLOT {
      NoVisitsAbove(w, called, es, tid, threads, size);
    }
  }

  // ----- Every request ends -----

  /** Own steps the request still has before malloc or free, at most. */
  function StepsBefore(st: State, tid: Tid, threads: nat): int
    requires tid in st.calls
  {
    if RingOf(st.calls[tid]) !in st.rings then 0
    else 4 * (threads - st.calls[tid].i - 1) + if Inside(st, tid) then RingCalls.StepsLeft(PcOf(st, tid)) else 4
  }

  lemma EntryCounts(w: Ring.Leaving, st: State, tid: Tid)
    requires tid in st.calls && RingOf(st.calls[tid]) in st.rings && !Inside(st, tid)
    ensures var st' := StepInRing(w, st, tid);
            Inside(st', tid) && st'.calls == st.calls && RingCalls.StepsLeft(PcOf(st', tid)) <= 3
  {
  }

  lemma InsideCounts(w: Ring.Leaving, st: State, tid: Tid, threads: nat)
    requires Here(st, tid) && Ring.Inv(w, st.rings[RingOf(st.calls[tid])]) && Located(st)
    requires tid in StepInRing(w, st, tid).calls && st.rings.Keys == Grid(threads)
    ensures StepsBefore(StepInRing(w, st, tid), tid, threads) + 1 <= StepsBefore(st, tid, threads)
  {
    var st' := StepInRing(w, st, tid);
    OwnInside(w, st, tid);
    if tid in RingAfter(w, st, tid).callers {
      RingCalls.StepGoesOn(w, st.rings[RingOf(st.calls[tid])], tid, Ring.Step(tid));
      assert Inside(st', tid) && RingOf(st'.calls[tid]) == RingOf(st.calls[tid]);
    } else {
      NotInNext(st, tid);
      assert !Inside(st', tid);
    }
  }

  lemma OwnStepCounts(w: Ring.Leaving, st: State, tid: Tid, threads: nat, size: nat)
    requires Fine(w, st, threads, size) && tid in st.calls && tid in StepOf(w, st, tid).calls
    ensures StepsBefore(StepOf(w, st, tid), tid, threads) + 1 <= StepsBefore(st, tid, threads)
  {
    var c := st.calls[tid];
    OwnStep(w, st, tid);
    if Inside(st, tid) {
      SoundHere(w, st, tid);
      InsideCounts(w, st, tid, threads);
    } else {
      EntryCounts(w, st, tid);
    }
  }

  lemma OtherEventCounts(w: Ring.Leaving, st: State, e: Event, tid: Tid, threads: nat)
    requires tid in st.calls && e != Step(tid)
    ensures tid in Next(w, st, e).calls && StepsBefore(Next(w, st, e), tid, threads) == StepsBefore(st, tid, threads)
  {
    OtherEvent(w, st, e, tid);
  }

  lemma StepsNonNegative(w: Ring.Leaving, st: State, tid: Tid, threads: nat, size: nat)
    requires Fine(w, st, threads, size) && tid in st.calls
    ensures StepsBefore(st, tid, threads) >= 0
  {
  }

  lemma {:induction false} LastsCounts(w: Ring.Leaving, st: State, es: seq<Event>, tid: Tid, threads: nat, size: nat)
    requires Fine(w, st, threads, size) && Lasts(w, st, es, tid) && StepsBefore(st, tid, threads) >= 0
    ensures OwnSteps(es, tid) <= StepsBefore(st, tid, threads)
    decreases |es|
  {
    if es != [] {
      if es[0] == Step(tid) {
        OwnStepCounts(w, st, tid, threads, size);
      } else {
        OtherEventCounts(w, st, es[0], tid, threads);
      }
      NextFine(w, st, es[0], threads, size);
      StepsNonNegative(w, Next(w, st, es[0]), tid, threads, size);
      LastsCounts(w, Next(w, st, es[0]), es[1..], tid, threads, size);
    }
  }

  /** No client waits for another: with four steps of its own per ring, and one more, every
      request has ended, whatever the others do. */
  lemma {:induction false} RequestsEnd(w: Ring.Leaving, threads: nat, size: nat, before: seq<Event>, st: State,
                                       tid: Tid, es: seq<Event>)
    requires st == Run(w, Initial(threads, size), before) && tid in st.calls
    requires OwnSteps(es, tid) > 4 * threads
    ensures !Lasts(w, st, es, tid)
  {
    ReachedFine(w, threads, size, before);
    StepsNonNegative(w, st, tid, threads, size);
    if Lasts(w, st, es, tid) {
      LastsCounts(w, st, es, tid, threads, size);
    }
  }
}
