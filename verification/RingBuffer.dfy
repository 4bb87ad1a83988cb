/** SafeRingBuffer: a stack guarded by a counter that callers try to take, under any
    interleaving of any number of callers. */
module RingBuffer {
  import opened Collections

  /** Pointers; 0 is the null pointer. */
  type Ptr = nat
  type Tid = nat

  /** Where a caller is between its decrement of the counter and its return. */
  datatype Pc =
    | PushTest(t: Ptr)      // the decrement gave zero: about to look for room
    | PushBody(t: Ptr)      // about to store
    | PushLeave(t: Ptr)     // stored: about to touch the counter again and return true
    | PushRelease           // about to increment the counter and return false
    | PopTest
    | PopBody
    | PopRelease(t: Ptr)    // about to increment the counter and return t

  /** `init` is the value the counter was constructed with. */
  datatype State = State(
    init: int,
    signal: int,
    data: seq<Ptr>,
    cur: nat,
    callers: map<Tid, Pc>,
    pushed: nat)             // pushes that returned true

  datatype Event = CallPush(tid: Tid, t: Ptr) | CallPop(tid: Tid) | Step(tid: Tid)

  /** What a successful push does to the counter when it leaves: the code decrements it a
      second time; its evident intent was to give it back. */
  datatype Leaving = AsWritten | AsIntended

  function Holds(pc: Pc): bool {
    pc.PushTest? || pc.PushBody? || pc.PushLeave? || pc.PopTest? || pc.PopBody?
  }

  /** About to give the counter back, with nothing to show. */
  predicate Failing(pc: Pc) {
    pc.PushRelease? || pc == PopRelease(0)
  }

  function Initial(init: int, size: nat): State {
    State(init, init, seq(size, _ => 0), 0, map[], 0)
  }

  function Leave(st: State, tid: Tid, delta: int): State {
    st.(signal := st.signal + delta, callers := st.callers - {tid})
  }

  function Goto(st: State, tid: Tid, pc: Pc): State {
    st.(callers := st.callers[tid := pc])
  }

  function StepOf(w: Leaving, st: State, tid: Tid): State
    requires tid in st.callers
  {
    match st.callers[tid]
    case PushTest(t) => Goto(st, tid, if st.cur < |st.data| then PushBody(t) else PushRelease)
    case PushBody(t) =>
      if st.cur < |st.data| then Goto(st.(data := st.data[st.cur := t], cur := st.cur + 1), tid, PushLeave(t)) else st
    case PushLeave(t) => Leave(st, tid, if w.AsWritten? then -1 else 1).(pushed := st.pushed + 1)
    case PushRelease => Leave(st, tid, 1)
    case PopTest => Goto(st, tid, if st.cur > 0 then PopBody else PopRelease(0))
    case PopBody =>
      if 0 < st.cur <= |st.data| then Goto(st.(cur := st.cur - 1), tid, PopRelease(st.data[st.cur - 1])) else st
    case PopRelease(t) => Leave(st, tid, 1)
  }

  function Next(w: Leaving, st: State, e: Event): State {
    match e
    case CallPush(tid, t) =>
      if tid in st.callers then st
      else Goto(st.(signal := st.signal - 1), tid, if st.signal - 1 == 0 then PushTest(t) else PushRelease)
    case CallPop(tid) =>
      if tid in st.callers then st
      else Goto(st.(signal := st.signal - 1), tid, if st.signal - 1 == 0 then PopTest else PopRelease(0))
    case Step(tid) =>
      if tid !in st.callers then st else StepOf(w, st, tid)
  }

  function Run(w: Leaving, st: State, es: seq<Event>): State
    decreases |es|
  {
    if es == [] then st else Run(w, Next(w, st, es[0]), es[1..])
  }

  // ----- Mutual exclusion -----

  /** The counter accounts for every caller and, as written, twice for every push. */
  predicate Accounts(w: Leaving, st: State) {
    st.signal == st.init - |st.callers| - if w.AsWritten? then 2 * st.pushed else 0
  }

  predicate Exclusive(st: State) {
    forall a, b | a in st.callers && b in st.callers && Holds(st.callers[a]) && Holds(st.callers[b]) :: a == b
  }

  /** Every store and load about to happen is inside the array. */
  predicate InBounds(st: State) {
    && st.cur <= |st.data|
    && forall a | a in st.callers ::
         && (st.callers[a].PushBody? ==> st.cur < |st.data|)
         && (st.callers[a].PopBody? ==> st.cur > 0)
  }

  predicate Inv(w: Leaving, st: State) {
    st.init <= 1 && Accounts(w, st) && Exclusive(st) && InBounds(st)
  }

  lemma NoCallers(m: map<Tid, Pc>)
    requires |m| == 0
    ensures m == map[]
  {
  }

  lemma CallKeepsInv(w: Leaving, st: State, tid: Tid, e: Event)
    requires Inv(w, st) && (e == CallPop(tid) || (e.CallPush? && e.tid == tid))
    ensures Inv(w, Next(w, st, e))
  {
    if tid !in st.callers {
      var r := Next(w, st, e);
      MapUpdateSize(st.callers, tid, r.callers[tid]);
      if r.signal == 0 {
        NoCallers(st.callers);
      }
    }
  }

  /** A step that does not return leaves counter and callers. */
  lemma StepStays(w: Leaving, st: State, tid: Tid)
    requires tid in st.callers
    requires !(st.callers[tid].PushLeave? || st.callers[tid].PushRelease? || st.callers[tid].PopRelease?)
    ensures var r := StepOf(w, st, tid);
            && r.signal == st.signal && r.init == st.init && r.pushed == st.pushed
            && tid in r.callers && r.callers == st.callers[tid := r.callers[tid]]
  {
    assert st.callers == st.callers[tid := st.callers[tid]];
  }

  lemma StepAccounts(w: Leaving, st: State, tid: Tid)
    requires Accounts(w, st) && tid in st.callers
    ensures Accounts(w, StepOf(w, st, tid))
  {
    if st.callers[tid].PushLeave? || st.callers[tid].PushRelease? || st.callers[tid].PopRelease? {
      MapRemoveSize(st.callers, tid);
    } else {
      StepStays(w, st, tid);
      MapUpdateSize(st.callers, tid, StepOf(w, st, tid).callers[tid]);
    }
  }

  /** No step lets a second caller in. */
  lemma StepHolds(w: Leaving, st: State, tid: Tid, a: Tid)
    requires tid in st.callers && a in StepOf(w, st, tid).callers
    ensures a in st.callers && (a != tid ==> StepOf(w, st, tid).callers[a] == st.callers[a])
    ensures Holds(StepOf(w, st, tid).callers[a]) ==> Holds(st.callers[a])
  {
  }

  lemma StepExclusive(w: Leaving, st: State, tid: Tid)
    requires Exclusive(st) && tid in st.callers
    ensures Exclusive(StepOf(w, st, tid))
  {
    var r := StepOf(w, st, tid);
    forall a, b | a in r.callers && b in r.callers && Holds(r.callers[a]) && Holds(r.callers[b])
      ensures a == b
    {
      StepHolds(w, st, tid, a);
      StepHolds(w, st, tid, b);
    }
  }

  lemma StepInBounds(w: Leaving, st: State, tid: Tid)
    requires Exclusive(st) && InBounds(st) && tid in st.callers
    ensures InBounds(StepOf(w, st, tid))
  {
    var r := StepOf(w, st, tid);
    forall a | a in r.callers
      ensures (r.callers[a].PushBody? ==> r.cur < |r.data|) && (r.callers[a].PopBody? ==> r.cur > 0)
    {
      StepHolds(w, st, tid, a);
      assert a != tid && Holds(r.callers[a]) && Holds(st.callers[tid]) ==> false;
    }
  }

  lemma StepKeepsInv(w: Leaving, st: State, tid: Tid)
    requires Inv(w, st) && tid in st.callers
    ensures Inv(w, StepOf(w, st, tid))
  {
    StepAccounts(w, st, tid);
    StepExclusive(w, st, tid);
    StepInBounds(w, st, tid);
  }

  lemma NextKeepsInv(w: Leaving, st: State, e: Event)
    requires Inv(w, st)
    ensures Inv(w, Next(w, st, e))
  {
    match e
    case CallPush(tid, t) => CallKeepsInv(w, st, tid, e);
    case CallPop(tid) => CallKeepsInv(w, st, tid, e);
    case Step(tid) => if tid in st.callers { StepKeepsInv(w, st, tid); }
  }

  lemma {:induction false} RunKeepsInv(w: Leaving, st: State, es: seq<Event>)
    requires Inv(w, st)
    ensures Inv(w, Run(w, st, es))
    decreases |es|
  {
    if es != [] {
      NextKeepsInv(w, st, es[0]);
      RunKeepsInv(w, Next(w, st, es[0]), es[1..]);
    }
  }

  /** In every interleaving the counter is exact, at most one caller is inside, and every
      access is in bounds; as written and as intended. */
  lemma MutualExclusion(w: Leaving, init: int, size: nat, es: seq<Event>)
    requires init <= 1
    ensures Inv(w, Run(w, Initial(init, size), es))
  {
    RunKeepsInv(w, Initial(init, size), es);
  }

  // ----- An atomic stack -----

  /** The effect of a step on the stored pointers. */
  datatype Effect = Nothing | Pushes(t: Ptr) | Pops(t: Ptr)

  /** The stored pointers, oldest first. */
  function Contents(st: State): seq<Ptr> {
    if st.cur <= |st.data| then st.data[..st.cur] else st.data
  }

  function EffectOf(st: State, e: Event): Effect {
    if e.Step? && e.tid in st.callers && st.callers[e.tid].PushBody? && st.cur < |st.data| then
      Pushes(st.callers[e.tid].t)
    else if e.Step? && e.tid in st.callers && st.callers[e.tid].PopBody? && 0 < st.cur <= |st.data| then
      Pops(st.data[st.cur - 1])
    else Nothing
  }

  lemma ActsOnContents(w: Leaving, st: State, tid: Tid)
    requires InBounds(st) && tid in st.callers
    ensures var before, after := Contents(st), Contents(StepOf(w, st, tid));
            match st.callers[tid]
            case PushBody(t) => after == before + [t]
            case PopBody => before == after + [st.data[st.cur - 1]]
            case _ => after == before
  {
  }

  /** Every step acts on the contents as one operation of a stack, or not at all. A push
      whose pointer went in is about to return true, a pop about to return what it took. */
  lemma {:induction false} StepRefinesStack(w: Leaving, st: State, e: Event)
    requires Inv(w, st)
    ensures var st' := Next(w, st, e);
            match EffectOf(st, e)
            case Nothing => Contents(st') == Contents(st)
            case Pushes(t) => Contents(st') == Contents(st) + [t] && st'.callers[e.tid] == PushLeave(t)
            case Pops(t) => Contents(st) == Contents(st') + [t] && st'.callers[e.tid] == PopRelease(t)
  {
    if e.Step? && e.tid in st.callers {
      ActsOnContents(w, st, e.tid);
    }
  }

  /** The effects so far of the call `tid` is in, after one more event. */
  function EffectsAfter(st: State, e: Event, tid: Tid, done: seq<Effect>): seq<Effect> {
    if e.tid != tid then done
    else if !e.Step? && tid !in st.callers then []
    else if EffectOf(st, e) == Nothing then done
    else done + [EffectOf(st, e)]
  }

  /** The effects of the call `tid` is in at the end of a run, in order. */
  function CallEffects(w: Leaving, st: State, es: seq<Event>, tid: Tid, done: seq<Effect>): seq<Effect>
    decreases |es|
  {
    if es == [] then done
    else CallEffects(w, Next(w, st, es[0]), es[1..], tid, EffectsAfter(st, es[0], tid, done))
  }

  /** What a call has done fits what it is about to return. */
  predicate Honest(st: State, tid: Tid, done: seq<Effect>) {
    tid in st.callers ==>
      match st.callers[tid]
      case PushLeave(t) => done == [Pushes(t)]
      case PopRelease(t) => done == [Pops(t)] || (t == 0 && done == [])
      case _ => done == []
  }

  lemma HonestStep(w: Leaving, st: State, e: Event, tid: Tid, done: seq<Effect>)
    requires InBounds(st) && Honest(st, tid, done)
    ensures Honest(Next(w, st, e), tid, EffectsAfter(st, e, tid, done))
  {
    if e.tid == tid && e.Step? && tid in st.callers {
      assert [] + [EffectOf(st, e)] == [EffectOf(st, e)];
    }
  }

  lemma {:induction false} HonestRun(w: Leaving, st: State, es: seq<Event>, tid: Tid, done: seq<Effect>)
    requires Inv(w, st) && Honest(st, tid, done)
    ensures Honest(Run(w, st, es), tid, CallEffects(w, st, es, tid, done))
    decreases |es|
  {
    if es != [] {
      NextKeepsInv(w, st, es[0]);
      HonestStep(w, st, es[0], tid, done);
      HonestRun(w, Next(w, st, es[0]), es[1..], tid, EffectsAfter(st, es[0], tid, done));
    }
  }

  /** Calls are atomic: in every interleaving a push about to return true has stored its
      pointer once and done nothing else, a pop about to return a pointer has taken it once,
      and a call about to return false or null has done nothing. */
  lemma CallsAreAtomic(w: Leaving, init: int, size: nat, es: seq<Event>, tid: Tid)
    requires init <= 1
    ensures var done := CallEffects(w, Initial(init, size), es, tid, []);
            Honest(Run(w, Initial(init, size), es), tid, done)
  {
    HonestRun(w, Initial(init, size), es, tid, []);
  }

  // ----- What the second decrement does -----

  /** Somebody has stored a pointer and not yet returned. */
  predicate SomeoneLeaving(st: State) {
    exists a :: a in st.callers && st.callers[a].PushLeave?
  }

  /** As written: while a caller is inside nothing has been pushed, and what is stored was
      stored by the caller now leaving. */
  predicate Jammed(st: State) {
    && (forall a | a in st.callers && Holds(st.callers[a]) :: st.pushed == 0 && st.init == 1)
    && st.cur == st.pushed + (if SomeoneLeaving(st) then 1 else 0)
    && (forall a | a in st.callers :: !st.callers[a].PopBody?)
    && (forall a | a in st.callers && st.callers[a].PopRelease? :: st.callers[a].t == 0)
    && st.pushed <= 1
    && (st.init <= 0 ==> st.pushed == 0)
  }

  lemma CallKeepsJam(st: State, e: Event)
    requires Inv(AsWritten, st) && Jammed(st) && !e.Step?
    ensures Jammed(Next(AsWritten, st, e))
  {
    if e.tid !in st.callers {
      var r := Next(AsWritten, st, e);
      if r.signal == 0 {
        NoCallers(st.callers);
      }
      if SomeoneLeaving(st) {
        var a :| a in st.callers && st.callers[a].PushLeave?;
        assert a in r.callers && r.callers[a].PushLeave?;
      }
    }
  }

  lemma LeavingAfter(st: State, tid: Tid)
    requires Inv(AsWritten, st) && tid in st.callers && Holds(st.callers[tid])
    ensures SomeoneLeaving(st) <==> st.callers[tid].PushLeave?
    ensures var r := StepOf(AsWritten, st, tid);
            SomeoneLeaving(r) <==> st.callers[tid].PushBody?
  {
    var r := StepOf(AsWritten, st, tid);
    if SomeoneLeaving(st) {
      var a :| a in st.callers && st.callers[a].PushLeave?;
      assert Holds(st.callers[a]);
    }
    if SomeoneLeaving(r) {
      var a :| a in r.callers && r.callers[a].PushLeave?;
      StepHolds(AsWritten, st, tid, a);
      assert Holds(r.callers[a]);
    }
    if st.callers[tid].PushBody? {
      assert tid in r.callers && r.callers[tid].PushLeave?;
    }
  }

  lemma ReleaseLeaving(st: State, tid: Tid)
    requires tid in st.callers && !Holds(st.callers[tid])
    ensures SomeoneLeaving(st) <==> SomeoneLeaving(StepOf(AsWritten, st, tid))
  {
    var r := StepOf(AsWritten, st, tid);
    if SomeoneLeaving(st) {
      var a :| a in st.callers && st.callers[a].PushLeave?;
      assert a in r.callers && r.callers[a].PushLeave?;
    }
  }

  lemma StepKeepsJam(st: State, tid: Tid)
    requires Inv(AsWritten, st) && Jammed(st) && tid in st.callers
    ensures Jammed(StepOf(AsWritten, st, tid))
  {
    var r := StepOf(AsWritten, st, tid);
    forall a | a in r.callers ensures Holds(r.callers[a]) ==> Holds(st.callers[a]) {
      StepHolds(AsWritten, st, tid, a);
    }
    if Holds(st.callers[tid]) {
      LeavingAfter(st, tid);
      assert forall a | a in r.callers && Holds(r.callers[a]) :: a == tid;
    } else {
      ReleaseLeaving(st, tid);
    }
  }

  lemma {:induction false} RunKeepsJam(st: State, es: seq<Event>)
    requires Inv(AsWritten, st) && Jammed(st)
    ensures Jammed(Run(AsWritten, st, es)) && Run(AsWritten, st, es).init == st.init
    decreases |es|
  {
    if es != [] {
      NextKeepsInv(AsWritten, st, es[0]);
      if es[0].Step? {
        if es[0].tid in st.callers {
          StepKeepsJam(st, es[0].tid);
        }
      } else {
        CallKeepsJam(st, es[0]);
      }
      RunKeepsJam(Next(AsWritten, st, es[0]), es[1..]);
    }
  }

  /** As written, in every interleaving: at most one push ever succeeds, none on a ring
      built with a size, and no pop ever returns a stored pointer. */
  lemma AtMostOnePush(init: int, size: nat, es: seq<Event>)
    requires init <= 1
    ensures var st := Run(AsWritten, Initial(init, size), es);
            && st.pushed <= 1
            && (init <= 0 ==> st.pushed == 0)
            && (forall a | a in st.callers && st.callers[a].PopRelease? :: st.callers[a].t == 0)
  {
    RunKeepsJam(Initial(init, size), es);
  }

  // ----- One caller alone -----

  /** A push or pop from call to return with nobody else about. */
  function Solo(w: Leaving, st: State, call: Event): State {
    var called := Next(w, st, call);
    var inside := Next(w, called, Step(0));
    var done := Next(w, inside, Step(0));
    Next(w, done, Step(0))
  }

  /** A push alone: the new state and the result. */
  function PushOf(w: Leaving, st: State, t: Ptr): (State, bool) {
    if st.signal == 1 && st.cur < |st.data| then
      (st.(data := st.data[st.cur := t], cur := st.cur + 1, signal := if w.AsWritten? then -1 else 1,
           pushed := st.pushed + 1), true)
    else (st, false)
  }

  /** A pop alone. */
  function PopOf(st: State): (State, Ptr) {
    if st.signal == 1 && 0 < st.cur <= |st.data| then (st.(cur := st.cur - 1), st.data[st.cur - 1]) else (st, 0)
  }

  lemma SoloPush(w: Leaving, st: State, t: Ptr)
    requires st.callers == map[]
    ensures Solo(w, st, CallPush(0, t)) == PushOf(w, st, t).0
  {
    assert map[0 := PushRelease] - {0} == map[];
    assert map[0 := PushLeave(t)] - {0} == map[];
    var called := Next(w, st, CallPush(0, t));
    assert called.callers == map[0 := if st.signal == 1 then PushTest(t) else PushRelease];
  }

  lemma SoloPop(w: Leaving, st: State)
    requires st.callers == map[] && st.cur <= |st.data|
    ensures Solo(w, st, CallPop(0)) == PopOf(st).0
  {
    var t := PopOf(st).1;
    assert map[0 := PopRelease(t)] - {0} == map[];
    var called := Next(w, st, CallPop(0));
    assert called.callers == map[0 := if st.signal == 1 then PopTest else PopRelease(0)];
  }

  /** SafeRingBuffer as its methods run when they are not interleaved. */
  class SafeRingBuffer {
    const init: int
    var data_: array<Ptr>
    var signal_: int
    var size_: nat
    var cur_: nat
    ghost var pushed: nat

    predicate Valid()
      reads this
    {
      size_ == data_.Length && cur_ <= size_
    }

    ghost function View(): State
      reads this, data_
    {
      State(init, signal_, data_[..], cur_, map[], pushed)
    }

    /** No array yet; the counter can be taken. */
    constructor ()
      ensures Valid() && View() == Initial(1, 0) && fresh(data_)
    {
      init := 1;
      cur_, size_, signal_, pushed := 0, 0, 1, 0;
      data_ := new Ptr[0];
      new;
      assert data_[..] == seq(0, _ => 0);
    }

    /** An array, but a counter that starts taken. */
    constructor Sized(size: nat)
      ensures Valid() && View() == Initial(0, size) && fresh(data_)
    {
      init := 0;
      cur_, size_, signal_, pushed := 0, size, 0, 0;
      data_ := new Ptr[size](_ => 0);
      new;
      assert data_[..] == seq(size, _ => 0);
    }

    /** A new zeroed array. `cur_` stays, so it has to fit. */
    method Size(size: nat)
      requires Valid() && (size > 0 ==> cur_ <= size)
      modifies this
      ensures Valid()
      ensures View() == if size > 0 then old(View()).(data := seq(size, _ => 0)) else old(View())
      ensures size > 0 ==> fresh(data_)
    {
      if size > 0 {
        size_ := size;
        data_ := new Ptr[size](_ => 0);
        assert data_[..] == seq(size, _ => 0);
      }
    }

    method Push(t: Ptr) returns (ok: bool)
      requires Valid()
      modifies this, data_
      ensures Valid() && data_ == old(data_)
      ensures (View(), ok) == PushOf(AsWritten, old(View()), t)
      ensures View() == Solo(AsWritten, old(View()), CallPush(0, t))
    {
      SoloPush(AsWritten, View(), t);
      ghost var s := old(View());
      signal_ := signal_ - 1;
      if signal_ == 0 {
        if cur_ < size_ {
          data_[cur_] := t;
          cur_ := cur_ + 1;
          signal_ := signal_ - 1;
          pushed := pushed + 1;
          assert data_[..] == s.data[s.cur := t];
          return true;
        }
      }
      signal_ := signal_ + 1;
      assert data_[..] == s.data;
      return false;
    }

    method Pop() returns (t: Ptr)
      requires Valid()
      modifies this
      ensures Valid() && data_ == old(data_)
      ensures (View(), t) == PopOf(old(View()))
      ensures View() == Solo(AsWritten, old(View()), CallPop(0))
    {
      SoloPop(AsWritten, View());
      t := 0;
      signal_ := signal_ - 1;
      if signal_ == 0 {
        if cur_ > 0 {
          cur_ := cur_ - 1;
          t := data_[cur_];
        }
      }
      signal_ := signal_ + 1;
    }

    /** Hands every stored pointer to a handler, oldest first; `cur_` stays. */
    method Clear() returns (handled: seq<Ptr>)
      requires Valid()
      ensures handled == Contents(View())
    {
      handled := [];
      var i := 0;
      while i < cur_
        invariant i <= cur_
        invariant handled == data_[..i]
      {
        handled := handled + [data_[i]];
        i := i + 1;
      }
    }
  }
}
