/** What a push or pop comes to, from call to return, whatever other callers do in between:
    decided by the counter and the contents at the call. */
module RingCalls {
  import opened RingBuffer

  datatype Outcome = Pushed(ok: bool) | Popped(t: Ptr)

  /** The events `es` reach from just after the call of `tid` to its return. */
  predicate Spans(w: Leaving, st: State, es: seq<Event>, tid: Tid)
    decreases |es|
  {
    && tid in st.callers && es != []
    && var st' := Next(w, st, es[0]);
       if tid in st'.callers then Spans(w, st', es[1..], tid) else |es| == 1
  }

  /** What the caller returns: a store was its last act before leaving, or it gave up. */
  function Result(w: Leaving, st: State, es: seq<Event>, tid: Tid): Outcome
    requires Spans(w, st, es, tid)
    decreases |es|
  {
    if |es| > 1 then Result(w, Next(w, st, es[0]), es[1..], tid)
    else
      match st.callers[tid]
      case PopRelease(t) => Popped(t)
      case pc => Pushed(pc.PushLeave?)
  }

  function OwnSteps(es: seq<Event>, tid: Tid): nat {
    if es == [] then 0 else (if es[0] == Step(tid) then 1 else 0) + OwnSteps(es[1..], tid)
  }

  // ----- The caller that took the counter -----

  /** Everybody else has found the counter taken. */
  predicate Sole(st: State, tid: Tid) {
    tid in st.callers && forall a | a in st.callers && a != tid :: Failing(st.callers[a])
  }

  /** The counter shows whether anybody is about. */
  lemma FreeMeansAlone(w: Leaving, st: State)
    requires Inv(w, st) && st.signal == 1
    ensures st.callers == map[]
  {
    NoCallers(st.callers);
  }

  lemma TakenIsSeen(w: Leaving, st: State, tid: Tid)
    requires Inv(w, st) && tid in st.callers
    ensures st.signal <= 0
  {
    if |st.callers| == 0 {
      NoCallers(st.callers);
      assert false;
    }
  }

  /** An event of another caller leaves contents and counter-taker alone. */
  lemma OthersWait(w: Leaving, st: State, e: Event, tid: Tid)
    requires Inv(w, st) && Sole(st, tid) && e.tid != tid
    ensures var r := Next(w, st, e);
            Sole(r, tid) && r.callers[tid] == st.callers[tid] && r.data == st.data && r.cur == st.cur
  {
    TakenIsSeen(w, st, tid);
  }

  lemma OthersLeaveAlone(w: Leaving, st: State, e: Event, tid: Tid)
    requires tid in st.callers && (e.tid != tid || !e.Step?)
    ensures tid in Next(w, st, e).callers && Next(w, st, e).callers[tid] == st.callers[tid]
    ensures e.tid == tid ==> Next(w, st, e) == st
  {
  }

  // ----- Push -----

  /** Where a push of `t` can be that was called in state `st0`. */
  predicate Pushing(st0: State, st: State, tid: Tid, t: Ptr) {
    && tid in st.callers
    && if st0.signal != 1 then st.callers[tid] == PushRelease
       else
         && Sole(st, tid) && |st.data| == |st0.data|
         && var full := st0.cur >= |st0.data|;
            match st.callers[tid]
            case PushTest(x) => x == t && st.data == st0.data && st.cur == st0.cur
            case PushBody(x) => x == t && st.data == st0.data && st.cur == st0.cur && !full
            case PushLeave(x) => x == t && Contents(st) == Contents(st0) + [t] && !full
            case PushRelease => Contents(st) == Contents(st0) && full
            case _ => false
  }

  lemma PushCalled(w: Leaving, st0: State, tid: Tid, t: Ptr)
    requires Inv(w, st0) && tid !in st0.callers
    ensures Pushing(st0, Next(w, st0, CallPush(tid, t)), tid, t)
  {
    if st0.signal == 1 {
      FreeMeansAlone(w, st0);
    }
  }

  lemma PushGoesOn(w: Leaving, st0: State, st: State, tid: Tid, t: Ptr, e: Event)
    requires Inv(w, st) && Pushing(st0, st, tid, t) && st0.cur <= |st0.data|
    requires tid in Next(w, st, e).callers
    ensures Pushing(st0, Next(w, st, e), tid, t)
  {
    if e == Step(tid) {
      if st.callers[tid].PushBody? {
        assert st.data[..st.cur] == Contents(st0);
        ActsOnContents(w, st, tid);
      }
    } else {
      OthersLeaveAlone(w, st, e, tid);
      if st0.signal == 1 && e.tid != tid {
        OthersWait(w, st, e, tid);
      }
    }
  }

  /** Steps a push still has before it. */
  function PushLeft(st0: State, pc: Pc): nat {
    match pc
    case PushTest(_) => if st0.cur < |st0.data| then 3 else 2
    case PushBody(_) => 2
    case _ => 1
  }

  /** What a push has done so far. */
  function PushDone(pc: Pc): seq<Effect> {
    if pc.PushLeave? then [Pushes(pc.t)] else []
  }

  /** One event on the way to the return. */
  lemma PushAdvances(w: Leaving, st0: State, st: State, tid: Tid, t: Ptr, e: Event)
    requires Inv(w, st) && Pushing(st0, st, tid, t) && st0.cur <= |st0.data|
    requires tid in Next(w, st, e).callers
    ensures var st' := Next(w, st, e);
            && Inv(w, st') && Pushing(st0, st', tid, t)
            && EffectsAfter(st, e, tid, PushDone(st.callers[tid])) == PushDone(st'.callers[tid])
            && PushLeft(st0, st.callers[tid]) == PushLeft(st0, st'.callers[tid]) + if e == Step(tid) then 1 else 0
  {
    NextKeepsInv(w, st, e);
    PushGoesOn(w, st0, st, tid, t, e);
    if e != Step(tid) {
      OthersLeaveAlone(w, st, e, tid);
    }
  }

  function PushSucceeds(st0: State): bool {
    st0.signal == 1 && st0.cur < |st0.data|
  }

  /** The return itself. */
  lemma PushEnds(w: Leaving, st0: State, st: State, tid: Tid, t: Ptr, e: Event)
    requires Pushing(st0, st, tid, t) && tid !in Next(w, st, e).callers
    ensures e == Step(tid) && PushLeft(st0, st.callers[tid]) == 1
    ensures Contents(Next(w, st, e)) == Contents(st)
    ensures EffectsAfter(st, e, tid, PushDone(st.callers[tid])) == PushDone(st.callers[tid])
    ensures st.callers[tid].PushLeave? <==> PushSucceeds(st0)
    ensures st.callers[tid] == PushRelease || st.callers[tid] == PushLeave(t)
  {
  }

  lemma {:induction false} PushSpan(w: Leaving, st0: State, st: State, es: seq<Event>, tid: Tid, t: Ptr)
    requires Inv(w, st) && Pushing(st0, st, tid, t) && st0.cur <= |st0.data|
    requires Spans(w, st, es, tid)
    ensures Result(w, st, es, tid) == Pushed(PushSucceeds(st0))
    ensures CallEffects(w, st, es, tid, PushDone(st.callers[tid])) == if PushSucceeds(st0) then [Pushes(t)] else []
    ensures st0.signal == 1 ==>
              Contents(Run(w, st, es)) == if PushSucceeds(st0) then Contents(st0) + [t] else Contents(st0)
    ensures OwnSteps(es, tid) == PushLeft(st0, st.callers[tid])
    decreases |es|
  {
    var st' := Next(w, st, es[0]);
    if tid in st'.callers {
      PushAdvances(w, st0, st, tid, t, es[0]);
      PushSpan(w, st0, st', es[1..], tid, t);
    } else {
      PushEnds(w, st0, st, tid, t, es[0]);
      assert es[1..] == [];
    }
  }

  /** A push called in any reachable state, whatever others do before it returns: it appends
      its pointer once and returns true if and only if the counter was 1 and there was room at
      the call, in three steps of its own. Else it returns false and does nothing. */
  lemma {:induction false} PushReturnsIff(w: Leaving, init: int, size: nat, before: seq<Event>, st: State,
                                          tid: Tid, t: Ptr, es: seq<Event>)
    requires init <= 1 && st == Run(w, Initial(init, size), before) && tid !in st.callers
    requires Spans(w, Next(w, st, CallPush(tid, t)), es, tid)
    ensures var called := Next(w, st, CallPush(tid, t));
            var ok := st.signal == 1 && |Contents(st)| < |st.data|;
            && Result(w, called, es, tid) == Pushed(ok)
            && CallEffects(w, called, es, tid, []) == (if ok then [Pushes(t)] else [])
            && (ok ==> Contents(Run(w, called, es)) == Contents(st) + [t])
            && (!ok && st.signal == 1 ==> Contents(Run(w, called, es)) == Contents(st))
            && OwnSteps(es, tid) == if ok then 3 else if st.signal == 1 then 2 else 1
  {
    MutualExclusion(w, init, size, before);
    PushCalled(w, st, tid, t);
    CallKeepsInv(w, st, tid, CallPush(tid, t));
    PushSpan(w, st, Next(w, st, CallPush(tid, t)), es, tid, t);
  }

  // ----- Pop -----

  /** Where a pop can be that was called in state `st0`. */
  predicate Popping(st0: State, st: State, tid: Tid) {
    && tid in st.callers
    && if st0.signal != 1 then st.callers[tid] == PopRelease(0)
       else
         && Sole(st, tid)
         && match st.callers[tid]
            case PopTest => st.data == st0.data && st.cur == st0.cur
            case PopBody => st.data == st0.data && st.cur == st0.cur > 0
            case PopRelease(x) => if st0.cur > 0 then Contents(st0) == Contents(st) + [x]
                                  else x == 0 && Contents(st) == Contents(st0)
            case _ => false
  }

  lemma PopCalled(w: Leaving, st0: State, tid: Tid)
    requires Inv(w, st0) && tid !in st0.callers
    ensures Popping(st0, Next(w, st0, CallPop(tid)), tid)
  {
    if st0.signal == 1 {
      FreeMeansAlone(w, st0);
    }
  }

  lemma PopGoesOn(w: Leaving, st0: State, st: State, tid: Tid, e: Event)
    requires Inv(w, st) && Popping(st0, st, tid) && st0.cur <= |st0.data|
    requires tid in Next(w, st, e).callers
    ensures Popping(st0, Next(w, st, e), tid)
  {
    if e == Step(tid) {
      if st.callers[tid].PopBody? {
        ActsOnContents(w, st, tid);
      }
    } else {
      OthersLeaveAlone(w, st, e, tid);
      if st0.signal == 1 && e.tid != tid {
        OthersWait(w, st, e, tid);
      }
    }
  }

  /** Steps a pop still has before it. */
  function PopLeft(st0: State, pc: Pc): nat {
    match pc
    case PopTest => if st0.cur > 0 then 3 else 2
    case PopBody => 2
    case _ => 1
  }

  function PopSucceeds(st0: State): bool {
    st0.signal == 1 && st0.cur > 0
  }

  /** What a pop has done so far. */
  function PopDone(st0: State, pc: Pc): seq<Effect> {
    if pc.PopRelease? && PopSucceeds(st0) then [Pops(pc.t)] else []
  }

  /** One event on the way to the return. */
  lemma PopAdvances(w: Leaving, st0: State, st: State, tid: Tid, e: Event)
    requires Inv(w, st) && Popping(st0, st, tid) && st0.cur <= |st0.data|
    requires tid in Next(w, st, e).callers
    ensures var st' := Next(w, st, e);
            && Inv(w, st') && Popping(st0, st', tid)
            && EffectsAfter(st, e, tid, PopDone(st0, st.callers[tid])) == PopDone(st0, st'.callers[tid])
            && PopLeft(st0, st.callers[tid]) == PopLeft(st0, st'.callers[tid]) + if e == Step(tid) then 1 else 0
  {
    NextKeepsInv(w, st, e);
    PopGoesOn(w, st0, st, tid, e);
    if e != Step(tid) {
      OthersLeaveAlone(w, st, e, tid);
    }
  }

  /** The return itself. */
  lemma PopEnds(w: Leaving, st0: State, st: State, tid: Tid, e: Event)
    requires Popping(st0, st, tid) && InBounds(st) && tid !in Next(w, st, e).callers
    ensures e == Step(tid) && PopLeft(st0, st.callers[tid]) == 1 && st.callers[tid].PopRelease?
    ensures Contents(Next(w, st, e)) == Contents(st)
    ensures EffectsAfter(st, e, tid, PopDone(st0, st.callers[tid])) == PopDone(st0, st.callers[tid])
  {
  }

  lemma {:induction false} PopSpan(w: Leaving, st0: State, st: State, es: seq<Event>, tid: Tid) returns (t: Ptr)
    requires Inv(w, st) && Popping(st0, st, tid) && st0.cur <= |st0.data|
    requires Spans(w, st, es, tid)
    ensures Result(w, st, es, tid) == Popped(t)
    ensures if PopSucceeds(st0) then Contents(st0) == Contents(Run(w, st, es)) + [t]
            else t == 0 && (st0.signal == 1 ==> Contents(Run(w, st, es)) == Contents(st0))
    ensures CallEffects(w, st, es, tid, PopDone(st0, st.callers[tid])) == if PopSucceeds(st0) then [Pops(t)] else []
    ensures OwnSteps(es, tid) == PopLeft(st0, st.callers[tid])
    decreases |es|
  {
    var st' := Next(w, st, es[0]);
    if tid in st'.callers {
      PopAdvances(w, st0, st, tid, es[0]);
      t := PopSpan(w, st0, st', es[1..], tid);
    } else {
      PopEnds(w, st0, st, tid, es[0]);
      assert es[1..] == [];
      t := st.callers[tid].t;
    }
  }

  /** A pop called in any reachable state, whatever others do before it returns: it takes the
      newest pointer and returns it if and only if the counter was 1 and there was one at the
      call, in three steps of its own. Else it returns null and does nothing. */
  lemma {:induction false} PopReturnsIff(w: Leaving, init: int, size: nat, before: seq<Event>, st: State,
                                         tid: Tid, es: seq<Event>)
    requires init <= 1 && st == Run(w, Initial(init, size), before) && tid !in st.callers
    requires Spans(w, Next(w, st, CallPop(tid)), es, tid)
    ensures var called := Next(w, st, CallPop(tid));
            var pool := Contents(st);
            var after := Contents(Run(w, called, es));
            if st.signal == 1 && pool != [] then
              var t := pool[|pool| - 1];
              && Result(w, called, es, tid) == Popped(t)
              && CallEffects(w, called, es, tid, []) == [Pops(t)]
              && after == pool[..|pool| - 1] && OwnSteps(es, tid) == 3
            else
              && Result(w, called, es, tid) == Popped(0)
              && CallEffects(w, called, es, tid, []) == []
              && (st.signal == 1 ==> after == pool)
              && OwnSteps(es, tid) == if st.signal == 1 then 2 else 1
  {
    MutualExclusion(w, init, size, before);
    PopCalled(w, st, tid);
    CallKeepsInv(w, st, tid, CallPop(tid));
    var t := PopSpan(w, st, Next(w, st, CallPop(tid)), es, tid);
    assert |Contents(st)| == st.cur;
  }

  // ----- Calls return -----

  /** Steps before the caller has left. */
  function StepsLeft(pc: Pc): nat {
    if pc.PushTest? || pc.PopTest? then 3 else if pc.PushBody? || pc.PopBody? then 2 else 1
  }

  lemma StepGoesOn(w: Leaving, st: State, tid: Tid, e: Event)
    requires Inv(w, st) && tid in st.callers && tid in Next(w, st, e).callers
    ensures StepsLeft(Next(w, st, e).callers[tid]) + (if e == Step(tid) then 1 else 0) <= StepsLeft(st.callers[tid])
  {
  }

  /** No caller waits for another: three steps of its own at most, whatever else happens in
      between, and a call has returned. */
  lemma {:induction false} CallsReturn(w: Leaving, st: State, es: seq<Event>, tid: Tid) returns (k: nat)
    requires Inv(w, st) && tid in st.callers && OwnSteps(es, tid) >= StepsLeft(st.callers[tid])
    ensures k <= |es| && Spans(w, st, es[..k], tid)
    decreases |es|
  {
    var e := es[0];
    var st' := Next(w, st, e);
    k := 1;
    if tid in st'.callers {
      NextKeepsInv(w, st, e);
      StepGoesOn(w, st, tid, e);
      k := CallsReturn(w, st', es[1..], tid);
      k := k + 1;
      assert es[..k][1..] == es[1..][..k - 1];
    }
  }

  lemma {:induction false} ThreeStepsReturn(w: Leaving, init: int, size: nat, before: seq<Event>, st: State,
                                            tid: Tid, es: seq<Event>) returns (k: nat)
    requires init <= 1 && st == Run(w, Initial(init, size), before) && tid in st.callers
    requires OwnSteps(es, tid) >= 3
    ensures k <= |es| && Spans(w, st, es[..k], tid)
  {
    MutualExclusion(w, init, size, before);
    k := CallsReturn(w, st, es, tid);
  }
}
