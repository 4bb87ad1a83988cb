/** AllocateManager as it runs: any number of clients whose calls interleave at every step of
    every ring, the counter steps of push and pop included. Proved to take only the steps of
    Allocator, for the code as written and as intended alike. */
module InterleavedAllocator {
  import opened Collections
  import opened SizeClasses
  import Ring = RingBuffer
  import Spec = Allocator

  type Tid = nat

  /** A call in progress; `i` is the ring it is at, or the number of rings when it has left
      the last one. */
  datatype Request = Get(n: Size, i: nat) | Put(n: Size, b: Block, i: nat)

  datatype State = State(
    size: nat,                        // array size Start gives every ring
    rings: map<RingId, Ring.State>,
    room: nat,                        // array size of every ring now
    calls: map<Tid, Request>,
    held: map<Block, Size>,           // blocks owned by clients, with the size asked for
    next: Block,
    caps: map<Block, nat>,
    freed: seq<Block>,
    given: seq<Block>,                // results of Allocate, in order
    place: map<Block, Spec.Place>)    // bookkeeping for the proof; no transition reads it

  datatype Event =
    | Allocate(tid: Tid, n: Size)
    | Release(tid: Tid, b: Block)     // DeAllocate of a held block with the size it was asked for
    | Step(tid: Tid)
    | Start                           // while nothing is pooled

  function Initial(threads: nat, size: nat): State {
    State(size, map r | r in Grid(threads) :: Ring.Initial(1, 0), 0, map[], map[], 1, map[], [], [], map[])
  }

  function RingOf(c: Request): RingId {
    RingId(SlotOf(c.n), c.i)
  }

  predicate Inside(st: State, tid: Tid) {
    tid in st.calls && RingOf(st.calls[tid]) in st.rings && tid in st.rings[RingOf(st.calls[tid])].callers
  }

  function PcOf(st: State, tid: Tid): Ring.Pc
    requires Inside(st, tid)
  {
    st.rings[RingOf(st.calls[tid])].callers[tid]
  }

  function Malloc(st: State, tid: Tid, n: Size): State {
    st.(calls := st.calls - {tid}, held := st.held[st.next := n], next := st.next + 1,
        caps := st.caps[st.next := Capacity(n)], given := st.given + [st.next],
        place := st.place[st.next := Spec.Held])
  }

  function Free(st: State, tid: Tid, b: Block): State {
    st.(calls := st.calls - {tid}, freed := st.freed + [b], place := st.place[b := Spec.Freed])
  }

  /** A false or null result sends the caller to the next ring. */
  function Onward(st: State, tid: Tid): State
    requires tid in st.calls
  {
    st.(calls := st.calls[tid := st.calls[tid].(i := st.calls[tid].i + 1)])
  }

  function Deliver(st: State, tid: Tid, n: Size, b: Block): State {
    st.(calls := st.calls - {tid}, held := st.held[b := n], given := st.given + [b],
        place := st.place[b := Spec.Held])
  }

  /** What the next step of a caller inside a ring means outside of the ring. */
  function Account(st: State, tid: Tid): State
    requires Inside(st, tid)
  {
    var r := RingOf(st.calls[tid]);
    var ring := st.rings[r];
    match ring.callers[tid]
    case PushTest(_) => st
    case PushBody(t) => st.(place := st.place[t := Spec.Pooled(r, ring.cur)])
    case PushLeave(_) => st.(calls := st.calls - {tid})
    case PushRelease => Onward(st, tid)
    case PopTest => st
    case PopBody =>
      if 0 < ring.cur <= |ring.data| then st.(place := st.place[ring.data[ring.cur - 1] := Spec.InCall(tid)])
      else st
    case PopRelease(t) => if t != 0 then Deliver(st, tid, st.calls[tid].n, t) else Onward(st, tid)
  }

  /** The step in the ring: push or pop is called, or goes on. */
  function RingEvent(st: State, tid: Tid): Ring.Event
    requires tid in st.calls
  {
    if Inside(st, tid) then Ring.Step(tid)
    else if st.calls[tid].Get? then Ring.CallPop(tid)
    else Ring.CallPush(tid, st.calls[tid].b)
  }

  function RingAfter(w: Ring.Leaving, st: State, tid: Tid): Ring.State
    requires tid in st.calls && RingOf(st.calls[tid]) in st.rings
  {
    Ring.Next(w, st.rings[RingOf(st.calls[tid])], RingEvent(st, tid))
  }

  function StepInRing(w: Ring.Leaving, st: State, tid: Tid): State
    requires tid in st.calls && RingOf(st.calls[tid]) in st.rings
  {
    var outside := if Inside(st, tid) then Account(st, tid) else st;
    outside.(rings := st.rings[RingOf(st.calls[tid]) := RingAfter(w, st, tid)])
  }

  function StepOf(w: Ring.Leaving, st: State, tid: Tid): State
    requires tid in st.calls
  {
    var c := st.calls[tid];
    if RingOf(c) in st.rings then StepInRing(w, st, tid)
    else if c.Get? then Malloc(st, tid, c.n)
    else Free(st, tid, c.b)
  }

  predicate NothingPooled(st: State) {
    forall r | r in st.rings :: st.rings[r].cur == 0
  }

  /** SafeRingBuffer::size on every ring: a new zeroed array, the count as it is. */
  function Started(st: State): State {
    st.(room := st.size, rings := map r | r in st.rings :: st.rings[r].(data := seq(st.size, _ => 0)))
  }

  function StartRelease(st: State, tid: Tid, b: Block): State
    requires b in st.held
  {
    st.(calls := st.calls[tid := Put(st.held[b], b, 0)], held := st.held - {b}, place := st.place[b := Spec.InCall(tid)])
  }

  function Next(w: Ring.Leaving, st: State, e: Event): State {
    match e
    case Allocate(tid, n) => if tid in st.calls then st else st.(calls := st.calls[tid := Get(n, 0)])
    case Release(tid, b) => if tid in st.calls || b !in st.held then st else StartRelease(st, tid, b)
    case Step(tid) => if tid !in st.calls then st else StepOf(w, st, tid)
    case Start => if st.size > 0 && NothingPooled(st) then Started(st) else st
  }

  function Run(w: Ring.Leaving, st: State, es: seq<Event>): State
    decreases |es|
  {
    if es == [] then st else Run(w, Next(w, st, es[0]), es[1..])
  }

  lemma {:induction false} RunAppend(w: Ring.Leaving, st: State, a: seq<Event>, b: seq<Event>)
    ensures Run(w, st, a + b) == Run(w, Run(w, st, a), b)
    decreases |a|
  {
    if a == [] {
      assert a + b == b;
    } else {
      assert (a + b)[1..] == a[1..] + b;
      RunAppend(w, Next(w, st, a[0]), a[1..], b);
    }
  }

  lemma RunOne(w: Ring.Leaving, st: State, e: Event)
    ensures Run(w, st, [e]) == Next(w, st, e)
  {
    assert [e][1..] == [];
  }

  // ----- The abstraction -----

  function Pools(rings: map<RingId, Ring.State>): map<RingId, seq<Block>> {
    map r | r in rings :: Ring.Contents(rings[r])
  }

  function Plain(c: Request): Spec.Call {
    match c
    case Get(n, i) => Spec.Allocating(n, i)
    case Put(n, b, i) => Spec.Releasing(n, b, i)
  }

  /** A push has happened once its pointer is stored, a pop once the count is down. */
  function AbsCall(st: State, tid: Tid): Spec.Call
    requires tid in st.calls
  {
    var c := st.calls[tid];
    if Inside(st, tid) && PcOf(st, tid).PushLeave? then Spec.Finishing
    else if Inside(st, tid) && PcOf(st, tid).PopRelease? && PcOf(st, tid).t != 0 then
      Spec.Returning(c.n, PcOf(st, tid).t)
    else Plain(c)
  }

  function AbsCalls(st: State): map<Tid, Spec.Call> {
    map tid | tid in st.calls :: AbsCall(st, tid)
  }

  function Abs(st: State): Spec.State {
    Spec.State(Pools(st.rings), st.room, AbsCalls(st), st.held, st.next, st.caps, st.freed, st.place)
  }

  /** What a step is to the abstract machine. */
  datatype Visible = Stutter | Acts(e: Spec.Event)

  function VisibleInside(tid: Tid, pc: Ring.Pc): Visible {
    match pc
    case PushTest(_) => Stutter
    case PushBody(_) => Acts(Spec.Proceed(tid, true))
    case PushLeave(_) => Acts(Spec.Proceed(tid, false))
    case PushRelease => Acts(Spec.Proceed(tid, false))
    case PopTest => Stutter
    case PopBody => Acts(Spec.Proceed(tid, true))
    case PopRelease(t) => Acts(Spec.Proceed(tid, false))
  }

  function VisibleOf(st: State, e: Event): Visible {
    match e
    case Allocate(tid, n) => Acts(Spec.Allocate(tid, n))
    case Release(tid, b) => Acts(Spec.Release(tid, b))
    case Start => if st.size > 0 then Acts(Spec.Start(st.size)) else Stutter
    case Step(tid) =>
      if tid !in st.calls then Stutter
      else if RingOf(st.calls[tid]) !in st.rings then Acts(Spec.Proceed(tid, true))
      else if !Inside(st, tid) then Stutter
      else VisibleInside(tid, PcOf(st, tid))
  }

  function After(st: Spec.State, v: Visible): Spec.State {
    if v.Acts? then Spec.Next(st, v.e) else st
  }

  // ----- The invariant -----

  predicate RingsSound(w: Ring.Leaving, st: State) {
    forall r | r in st.rings :: Ring.Inv(w, st.rings[r]) && |st.rings[r].data| == st.room
  }

  /** What a request does inside a ring. */
  predicate Fits(c: Request, pc: Ring.Pc) {
    if c.Get? then pc.PopTest? || pc.PopBody? || pc.PopRelease?
    else pc == Ring.PushTest(c.b) || pc == Ring.PushBody(c.b) || pc == Ring.PushLeave(c.b) || pc == Ring.PushRelease
  }

  /** Callers inside a ring have a request that has come to this ring. */
  predicate Located(st: State) {
    forall r, tid | r in st.rings && tid in st.rings[r].callers ::
      tid in st.calls && RingOf(st.calls[tid]) == r && Fits(st.calls[tid], st.rings[r].callers[tid])
  }

  predicate Sound(w: Ring.Leaving, st: State) {
    RingsSound(w, st) && Located(st)
  }

  /** Everything but the ring of `tid`, and `tid` in it, is as it was. */
  ghost predicate OnlyIn(st: State, st': State, r: RingId, tid: Tid) {
    && r in st.rings && st'.rings.Keys == st.rings.Keys
    && (forall q | q in st.rings && q != r :: st'.rings[q] == st.rings[q])
    && (forall u | u != tid :: (u in st'.calls <==> u in st.calls) && (u in st.calls ==> st'.calls[u] == st.calls[u]))
    && (forall u | u != tid :: (u in st'.rings[r].callers <==> u in st.rings[r].callers)
                            && (u in st.rings[r].callers ==> st'.rings[r].callers[u] == st.rings[r].callers[u]))
  }

  lemma RingEventOthers(w: Ring.Leaving, ring: Ring.State, e: Ring.Event)
    ensures forall u | u != e.tid ::
      && (u in Ring.Next(w, ring, e).callers <==> u in ring.callers)
      && (u in ring.callers ==> Ring.Next(w, ring, e).callers[u] == ring.callers[u])
  {
  }

  lemma AccountOthers(st: State, tid: Tid)
    requires Inside(st, tid)
    ensures forall u | u != tid ::
      && (u in Account(st, tid).calls <==> u in st.calls)
      && (u in st.calls ==> Account(st, tid).calls[u] == st.calls[u])
    ensures Account(st, tid).rings == st.rings && Account(st, tid).room == st.room
  {
  }

  lemma StepOnlyIn(w: Ring.Leaving, st: State, tid: Tid)
    requires tid in st.calls && RingOf(st.calls[tid]) in st.rings
    ensures OnlyIn(st, StepInRing(w, st, tid), RingOf(st.calls[tid]), tid)
  {
    RingEventOthers(w, st.rings[RingOf(st.calls[tid])], RingEvent(st, tid));
    if Inside(st, tid) {
      AccountOthers(st, tid);
    }
  }

  lemma OthersLocated(st: State, st': State, r: RingId, tid: Tid)
    requires Located(st) && OnlyIn(st, st', r, tid)
    requires tid in st.calls && RingOf(st.calls[tid]) == r
    requires tid in st'.rings[r].callers ==> st'.calls == st.calls && Fits(st.calls[tid], st'.rings[r].callers[tid])
    ensures Located(st')
  {
    forall q, u | q in st'.rings && u in st'.rings[q].callers
      ensures u in st'.calls && RingOf(st'.calls[u]) == q && Fits(st'.calls[u], st'.rings[q].callers[u])
    {
      if q != r {
        assert u in st.rings[q].callers;
      }
    }
  }

  /** A caller that stays in the ring keeps its request and goes on as it should. */
  lemma StaysFitting(w: Ring.Leaving, st: State, tid: Tid)
    requires tid in st.calls && RingOf(st.calls[tid]) in st.rings
    requires Inside(st, tid) ==> Fits(st.calls[tid], PcOf(st, tid))
    requires tid in RingAfter(w, st, tid).callers
    ensures Inside(st, tid) ==> Account(st, tid).calls == st.calls
    ensures Fits(st.calls[tid], RingAfter(w, st, tid).callers[tid])
  {
  }

  lemma StepLocated(w: Ring.Leaving, st: State, tid: Tid)
    requires Located(st) && tid in st.calls && RingOf(st.calls[tid]) in st.rings
    ensures Located(StepInRing(w, st, tid))
  {
    StepOnlyIn(w, st, tid);
    if tid in RingAfter(w, st, tid).callers {
      StaysFitting(w, st, tid);
    }
    OthersLocated(st, StepInRing(w, st, tid), RingOf(st.calls[tid]), tid);
  }

  lemma RingEventSize(w: Ring.Leaving, ring: Ring.State, e: Ring.Event)
    ensures |Ring.Next(w, ring, e).data| == |ring.data|
  {
  }

  lemma StepRingsSound(w: Ring.Leaving, st: State, tid: Tid)
    requires RingsSound(w, st) && tid in st.calls && RingOf(st.calls[tid]) in st.rings
    ensures RingsSound(w, StepInRing(w, st, tid))
  {
    var ring := st.rings[RingOf(st.calls[tid])];
    Ring.NextKeepsInv(w, ring, RingEvent(st, tid));
    RingEventSize(w, ring, RingEvent(st, tid));
    if Inside(st, tid) {
      AccountOthers(st, tid);
    }
  }

  // ----- Refinement -----

  lemma OthersAbs(st: State, st': State, r: RingId, tid: Tid, u: Tid)
    requires OnlyIn(st, st', r, tid) && u != tid && u in st.calls
    ensures u in st'.calls && AbsCall(st', u) == AbsCall(st, u)
  {
  }

  /** The abstraction changes at one call. */
  lemma AbsCallsAfter(st: State, st': State, r: RingId, tid: Tid)
    requires OnlyIn(st, st', r, tid) && tid in st.calls
    ensures AbsCalls(st') == if tid in st'.calls then AbsCalls(st)[tid := AbsCall(st', tid)] else AbsCalls(st) - {tid}
  {
    var m, m' := AbsCalls(st), AbsCalls(st');
    forall u | u != tid && u in m ensures m'[u] == m[u] {
      OthersAbs(st, st', r, tid, u);
    }
    ChangedAt(m, m', tid, if tid in st'.calls then AbsCall(st', tid) else Spec.Finishing);
  }

  /** And at one ring. */
  lemma PoolsAfter(rings: map<RingId, Ring.State>, r: RingId, ring: Ring.State)
    requires r in rings
    ensures Pools(rings[r := ring]) == Pools(rings)[r := Ring.Contents(ring)]
  {
    ChangedAt(Pools(rings), Pools(rings[r := ring]), r, Ring.Contents(ring));
  }

  /** The abstraction after a step in a ring, field by field. */
  lemma StepAbs(w: Ring.Leaving, st: State, tid: Tid)
    requires tid in st.calls && RingOf(st.calls[tid]) in st.rings
    ensures var st' := StepInRing(w, st, tid);
            && Pools(st'.rings) == Pools(st.rings)[RingOf(st.calls[tid]) := Ring.Contents(RingAfter(w, st, tid))]
            && AbsCalls(st') == if tid in st'.calls then AbsCalls(st)[tid := AbsCall(st', tid)] else AbsCalls(st) - {tid}
  {
    var r := RingOf(st.calls[tid]);
    StepOnlyIn(w, st, tid);
    AbsCallsAfter(st, StepInRing(w, st, tid), r, tid);
    PoolsAfter(st.rings, r, RingAfter(w, st, tid));
  }

  lemma SamePools(rings: map<RingId, Ring.State>, r: RingId)
    requires r in rings
    ensures Pools(rings)[r := Ring.Contents(rings[r])] == Pools(rings)
  {
  }

  lemma SameCalls(st: State, tid: Tid)
    requires tid in st.calls
    ensures AbsCalls(st)[tid := AbsCall(st, tid)] == AbsCalls(st)
  {
  }

  /** The contents of the ring the caller has come to. */
  function PoolAt(st: State, tid: Tid): seq<Block>
    requires tid in st.calls && RingOf(st.calls[tid]) in st.rings
  {
    Ring.Contents(st.rings[RingOf(st.calls[tid])])
  }

  /** What a caller inside a ring knows of it. */
  predicate Here(st: State, tid: Tid) {
    && Inside(st, tid)
    && var ring := st.rings[RingOf(st.calls[tid])];
       Ring.InBounds(ring) && |ring.data| == st.room && Fits(st.calls[tid], PcOf(st, tid))
  }

  lemma SoundHere(w: Ring.Leaving, st: State, tid: Tid)
    requires Sound(w, st) && Inside(st, tid)
    ensures Here(st, tid)
  {
  }

  /** What a step that does not end the request does to the contents of the ring and to the
      abstract call. */
  predicate Stays(w: Ring.Leaving, st: State, tid: Tid, pool: seq<Block>, call: Spec.Call)
    requires tid in st.calls && RingOf(st.calls[tid]) in st.rings
  {
    && Ring.Contents(RingAfter(w, st, tid)) == pool
    && tid in StepInRing(w, st, tid).calls
    && AbsCall(StepInRing(w, st, tid), tid) == call
  }

  lemma AccountRest(st: State, tid: Tid)
    requires Inside(st, tid)
    ensures var a := Account(st, tid);
            a == st.(calls := a.calls, held := a.held, given := a.given, place := a.place)
  {
  }

  lemma AbsStays(w: Ring.Leaving, st: State, tid: Tid, pool: seq<Block>, call: Spec.Call)
    requires Inside(st, tid) && Stays(w, st, tid, pool, call)
    ensures Abs(StepInRing(w, st, tid))
         == Abs(st).(pools := Pools(st.rings)[RingOf(st.calls[tid]) := pool], calls := AbsCalls(st)[tid := call],
                     held := Account(st, tid).held, place := Account(st, tid).place)
  {
    StepAbs(w, st, tid);
    AccountRest(st, tid);
  }

  lemma AbsLeaves(w: Ring.Leaving, st: State, tid: Tid)
    requires Inside(st, tid) && tid !in StepInRing(w, st, tid).calls
    requires Ring.Contents(RingAfter(w, st, tid)) == PoolAt(st, tid)
    ensures Abs(StepInRing(w, st, tid))
         == Abs(st).(calls := AbsCalls(st) - {tid}, held := Account(st, tid).held, place := Account(st, tid).place)
  {
    StepAbs(w, st, tid);
    AccountRest(st, tid);
    SamePools(st.rings, RingOf(st.calls[tid]));
  }

  lemma EntryStays(w: Ring.Leaving, st: State, tid: Tid)
    requires tid in st.calls && RingOf(st.calls[tid]) in st.rings && !Inside(st, tid)
    ensures Stays(w, st, tid, PoolAt(st, tid), AbsCall(st, tid))
  {
  }

  /** Coming to a ring changes nothing. */
  lemma EntryRefines(w: Ring.Leaving, st: State, tid: Tid)
    requires tid in st.calls && RingOf(st.calls[tid]) in st.rings && !Inside(st, tid)
    ensures Abs(StepInRing(w, st, tid)) == Abs(st)
  {
    StepAbs(w, st, tid);
    EntryStays(w, st, tid);
    SamePools(st.rings, RingOf(st.calls[tid]));
    SameCalls(st, tid);
  }

  lemma LookingStays(w: Ring.Leaving, st: State, tid: Tid)
    requires Here(st, tid) && (PcOf(st, tid).PushTest? || PcOf(st, tid).PopTest?)
    ensures Stays(w, st, tid, PoolAt(st, tid), AbsCall(st, tid)) && Account(st, tid) == st
  {
  }

  lemma LookingRefines(w: Ring.Leaving, st: State, tid: Tid)
    requires Here(st, tid) && (PcOf(st, tid).PushTest? || PcOf(st, tid).PopTest?)
    ensures Abs(StepInRing(w, st, tid)) == Abs(st)
  {
    LookingStays(w, st, tid);
    AbsStays(w, st, tid, PoolAt(st, tid), AbsCall(st, tid));
    SamePools(st.rings, RingOf(st.calls[tid]));
    SameCalls(st, tid);
  }

  lemma PushBodyStays(w: Ring.Leaving, st: State, tid: Tid)
    requires Here(st, tid) && PcOf(st, tid).PushBody?
    ensures var c, pool := st.calls[tid], PoolAt(st, tid);
            && c.Put? && |pool| < st.room
            && Stays(w, st, tid, pool + [c.b], Spec.Finishing)
            && AbsCall(st, tid) == Spec.Releasing(c.n, c.b, c.i)
            && Account(st, tid) == st.(place := st.place[c.b := Spec.Pooled(RingOf(c), |pool|)])
  {
    Ring.ActsOnContents(w, st.rings[RingOf(st.calls[tid])], tid);
  }

  lemma PushBodyRefines(w: Ring.Leaving, st: State, tid: Tid)
    requires Here(st, tid) && PcOf(st, tid).PushBody?
    ensures Abs(StepInRing(w, st, tid)) == Spec.Next(Abs(st), Spec.Proceed(tid, true))
  {
    var c := st.calls[tid];
    PushBodyStays(w, st, tid);
    AbsStays(w, st, tid, PoolAt(st, tid) + [c.b], Spec.Finishing);
    Spec.ProceedPuts(Abs(st), tid, c.n, c.b, c.i);
  }

  lemma PopBodyStays(w: Ring.Leaving, st: State, tid: Tid)
    requires Here(st, tid) && PcOf(st, tid).PopBody? && 0 !in PoolAt(st, tid)
    ensures var c, pool := st.calls[tid], PoolAt(st, tid);
            && c.Get? && pool != []
            && var b := pool[|pool| - 1];
               && Stays(w, st, tid, pool[..|pool| - 1], Spec.Returning(c.n, b))
               && AbsCall(st, tid) == Spec.Allocating(c.n, c.i)
               && Account(st, tid) == st.(place := st.place[b := Spec.InCall(tid)])
  {
    var ring := st.rings[RingOf(st.calls[tid])];
    Ring.ActsOnContents(w, ring, tid);
    assert PoolAt(st, tid)[ring.cur - 1] == ring.data[ring.cur - 1];
  }

  lemma PopBodyRefines(w: Ring.Leaving, st: State, tid: Tid)
    requires Here(st, tid) && PcOf(st, tid).PopBody? && 0 !in PoolAt(st, tid)
    ensures Abs(StepInRing(w, st, tid)) == Spec.Next(Abs(st), Spec.Proceed(tid, true))
  {
    var c, pool := st.calls[tid], PoolAt(st, tid);
    PopBodyStays(w, st, tid);
    AbsStays(w, st, tid, pool[..|pool| - 1], Spec.Returning(c.n, pool[|pool| - 1]));
    Spec.ProceedTakes(Abs(st), tid, c.n, c.i);
  }

  predicate Leaving(pc: Ring.Pc) {
    pc.PushLeave? || (pc.PopRelease? && pc.t != 0)
  }

  /** Leaving the ring with success ends the request. */
  lemma SuccessLeaves(w: Ring.Leaving, st: State, tid: Tid)
    requires Here(st, tid) && Leaving(PcOf(st, tid))
    ensures Ring.Contents(RingAfter(w, st, tid)) == PoolAt(st, tid)
    ensures tid !in StepInRing(w, st, tid).calls
  {
  }

  lemma SuccessRefines(w: Ring.Leaving, st: State, tid: Tid)
    requires Here(st, tid) && Leaving(PcOf(st, tid))
    ensures Abs(StepInRing(w, st, tid)) == Spec.Next(Abs(st), Spec.Proceed(tid, false))
  {
    SuccessLeaves(w, st, tid);
    AbsLeaves(w, st, tid);
    Spec.ProceedEnds(Abs(st), tid);
  }

  lemma NotInNext(st: State, tid: Tid)
    requires Located(st) && tid in st.calls
    ensures var q := RingOf(st.calls[tid].(i := st.calls[tid].i + 1));
            q != RingOf(st.calls[tid]) && (q in st.rings ==> tid !in st.rings[q].callers)
  {
  }

  lemma FailureGoesOn(st: State, tid: Tid)
    requires Here(st, tid) && Ring.Failing(PcOf(st, tid))
    ensures Account(st, tid) == Onward(st, tid) && AbsCall(st, tid) == Plain(st.calls[tid])
  {
  }

  lemma FailureLeaves(w: Ring.Leaving, st: State, tid: Tid)
    requires Here(st, tid) && Ring.Failing(PcOf(st, tid))
    ensures Ring.Contents(RingAfter(w, st, tid)) == PoolAt(st, tid)
    ensures StepInRing(w, st, tid).calls == Onward(st, tid).calls
    ensures StepInRing(w, st, tid).rings == st.rings[RingOf(st.calls[tid]) := RingAfter(w, st, tid)]
  {
    FailureGoesOn(st, tid);
  }

  /** Leaving the ring in vain: the caller is at the next one, and not inside it. */
  lemma FailureStays(w: Ring.Leaving, st: State, tid: Tid)
    requires Here(st, tid) && Located(st) && Ring.Failing(PcOf(st, tid))
    ensures Stays(w, st, tid, PoolAt(st, tid), Spec.Onward(AbsCall(st, tid)))
  {
    NotInNext(st, tid);
    FailureGoesOn(st, tid);
    FailureLeaves(w, st, tid);
    var st' := StepInRing(w, st, tid);
    assert st'.calls[tid] == st.calls[tid].(i := st.calls[tid].i + 1);
    assert !Inside(st', tid);
  }

  lemma FailureRefines(w: Ring.Leaving, st: State, tid: Tid)
    requires Here(st, tid) && Located(st) && Ring.Failing(PcOf(st, tid))
    ensures Abs(StepInRing(w, st, tid)) == Spec.Next(Abs(st), Spec.Proceed(tid, false))
  {
    FailureGoesOn(st, tid);
    FailureStays(w, st, tid);
    AbsStays(w, st, tid, PoolAt(st, tid), Spec.Onward(AbsCall(st, tid)));
    SamePools(st.rings, RingOf(st.calls[tid]));
    Spec.ProceedSkips(Abs(st), tid);
  }

  /** A step inside a ring is what it shows to be. */
  lemma InsideRefines(w: Ring.Leaving, st: State, tid: Tid)
    requires Here(st, tid) && Located(st) && 0 !in PoolAt(st, tid)
    ensures Abs(StepInRing(w, st, tid)) == After(Abs(st), VisibleInside(tid, PcOf(st, tid)))
  {
    var pc := PcOf(st, tid);
    if pc.PushTest? || pc.PopTest? {
      LookingRefines(w, st, tid);
    } else if pc.PushBody? {
      PushBodyRefines(w, st, tid);
    } else if pc.PopBody? {
      PopBodyRefines(w, st, tid);
    } else if Leaving(pc) {
      SuccessRefines(w, st, tid);
    } else {
      FailureRefines(w, st, tid);
    }
  }

  /** Everything but the call of `tid`, who is in no ring, is as it was. */
  ghost predicate OnlyCall(st: State, st': State, tid: Tid) {
    && st'.rings == st.rings && st'.room == st.room
    && (forall u | u != tid :: (u in st'.calls <==> u in st.calls) && (u in st.calls ==> st'.calls[u] == st.calls[u]))
    && (forall r | r in st.rings :: tid !in st.rings[r].callers)
  }

  lemma OnlyCallSound(w: Ring.Leaving, st: State, st': State, tid: Tid)
    requires Sound(w, st) && OnlyCall(st, st', tid)
    ensures Sound(w, st')
  {
  }

  lemma OnlyCallOther(st: State, st': State, tid: Tid, u: Tid)
    requires OnlyCall(st, st', tid) && u != tid && u in st.calls
    ensures u in st'.calls && AbsCall(st', u) == AbsCall(st, u)
  {
  }

  lemma OnlyCallOthers(st: State, st': State, tid: Tid)
    requires OnlyCall(st, st', tid)
    ensures forall u | u != tid ::
      (u in AbsCalls(st') <==> u in AbsCalls(st)) && (u in AbsCalls(st) ==> AbsCalls(st')[u] == AbsCalls(st)[u])
  {
    forall u | u != tid && u in AbsCalls(st) ensures AbsCalls(st')[u] == AbsCalls(st)[u] {
      OnlyCallOther(st, st', tid, u);
    }
  }

  lemma OutsideIsPlain(st: State, tid: Tid)
    requires tid in st.calls && forall r | r in st.rings :: tid !in st.rings[r].callers
    ensures AbsCall(st, tid) == Plain(st.calls[tid])
  {
  }

  lemma OnlyCallAbs(st: State, st': State, tid: Tid)
    requires OnlyCall(st, st', tid)
    ensures AbsCalls(st')
         == if tid in st'.calls then AbsCalls(st)[tid := Plain(st'.calls[tid])] else AbsCalls(st) - {tid}
  {
    if tid in st'.calls {
      OutsideIsPlain(st', tid);
    }
    OnlyCallOthers(st, st', tid);
    ChangedAt(AbsCalls(st), AbsCalls(st'), tid, if tid in st'.calls then Plain(st'.calls[tid]) else Spec.Finishing);
  }

  /** A thread without a call, or past the last ring, is in no ring. */
  lemma InNoRing(st: State, tid: Tid)
    requires Located(st) && (tid in st.calls ==> RingOf(st.calls[tid]) !in st.rings)
    ensures forall r | r in st.rings :: tid !in st.rings[r].callers
    ensures tid in st.calls ==> AbsCall(st, tid) == Plain(st.calls[tid])
  {
  }

  lemma AllocateRefines(w: Ring.Leaving, st: State, tid: Tid, n: Size)
    requires Sound(w, st)
    ensures Abs(Next(w, st, Allocate(tid, n))) == Spec.Next(Abs(st), Spec.Allocate(tid, n))
  {
    if tid !in st.calls {
      var st' := Next(w, st, Allocate(tid, n));
      InNoRing(st, tid);
      OnlyCallAbs(st, st', tid);
    }
  }

  lemma ReleaseRefines(w: Ring.Leaving, st: State, tid: Tid, b: Block)
    requires Sound(w, st)
    ensures Abs(Next(w, st, Release(tid, b))) == Spec.Next(Abs(st), Spec.Release(tid, b))
  {
    if tid !in st.calls && b in st.held {
      var st' := Next(w, st, Release(tid, b));
      InNoRing(st, tid);
      OnlyCallAbs(st, st', tid);
    }
  }

  lemma MallocRefines(w: Ring.Leaving, st: State, tid: Tid)
    requires Sound(w, st) && tid in st.calls && st.calls[tid].Get? && RingOf(st.calls[tid]) !in st.rings
    ensures Abs(Malloc(st, tid, st.calls[tid].n)) == Spec.Next(Abs(st), Spec.Proceed(tid, true))
  {
    var st' := Malloc(st, tid, st.calls[tid].n);
    InNoRing(st, tid);
    OnlyCallAbs(st, st', tid);
    Spec.ProceedToHeap(Abs(st), tid);
  }

  lemma FreeRefines(w: Ring.Leaving, st: State, tid: Tid)
    requires Sound(w, st) && tid in st.calls && st.calls[tid].Put? && RingOf(st.calls[tid]) !in st.rings
    ensures Abs(Free(st, tid, st.calls[tid].b)) == Spec.Next(Abs(st), Spec.Proceed(tid, true))
  {
    var st' := Free(st, tid, st.calls[tid].b);
    InNoRing(st, tid);
    OnlyCallAbs(st, st', tid);
    Spec.ProceedToHeap(Abs(st), tid);
  }

  lemma StartPools(st: State, r: RingId)
    requires r in st.rings && st.rings[r].cur <= st.size && st.rings[r].cur <= |st.rings[r].data|
    ensures Ring.Contents(Started(st).rings[r]) == seq(|Ring.Contents(st.rings[r])|, _ => 0)
  {
  }

  predicate RoomForAll(st: State) {
    forall r | r in st.rings :: st.rings[r].cur <= st.size && st.rings[r].cur <= |st.rings[r].data|
  }

  lemma StartedOther(st: State, u: Tid)
    requires u in st.calls
    ensures AbsCall(Started(st), u) == AbsCall(st, u)
  {
  }

  lemma StartedPools(st: State)
    requires RoomForAll(st)
    ensures Pools(Started(st).rings) == Spec.Started(Abs(st), st.size).pools
  {
    var m, m' := Spec.Started(Abs(st), st.size).pools, Pools(Started(st).rings);
    forall r | r in m ensures m'[r] == m[r] {
      StartPools(st, r);
    }
    SameMaps(m, m');
  }

  /** New arrays under the rings are zeroes in the pools. */
  lemma StartRefines(st: State)
    requires RoomForAll(st)
    ensures Abs(Started(st)) == Spec.Started(Abs(st), st.size)
  {
    StartedPools(st);
    var m, m' := AbsCalls(st), AbsCalls(Started(st));
    forall u | u in m ensures m'[u] == m[u] {
      StartedOther(st, u);
    }
    SameMaps(m, m');
  }

  lemma NothingPooledAbs(w: Ring.Leaving, st: State)
    requires RingsSound(w, st)
    ensures NothingPooled(st) <==> Spec.NothingPooled(Abs(st))
  {
    forall r | r in st.rings ensures st.rings[r].cur == |Pools(st.rings)[r]| {
    }
  }

  /** Arrays have the size Start gives them, or Start has not run. */
  predicate Dimensioned(st: State, threads: nat, size: nat) {
    st.size == size && (st.room == 0 || st.room == size) && st.rings.Keys == Grid(threads)
  }

  lemma StartRingSound(w: Ring.Leaving, ring: Ring.State, size: nat)
    requires Ring.Inv(w, ring) && size > 0 && (|ring.data| == 0 || |ring.data| == size)
    ensures Ring.Inv(w, ring.(data := seq(size, _ => 0))) && ring.cur <= size
  {
  }

  lemma StartRingsSound(w: Ring.Leaving, st: State)
    requires RingsSound(w, st) && st.size > 0 && (st.room == 0 || st.room == st.size)
    ensures RingsSound(w, Started(st)) && RoomForAll(st)
  {
    forall r | r in st.rings
      ensures Ring.Inv(w, st.rings[r].(data := seq(st.size, _ => 0))) && st.rings[r].cur <= st.size
    {
      StartRingSound(w, st.rings[r], st.size);
    }
  }

  lemma StartLocated(st: State)
    requires Located(st)
    ensures Located(Started(st))
  {
  }

  lemma StartSound(w: Ring.Leaving, st: State)
    requires Sound(w, st) && st.size > 0 && (st.room == 0 || st.room == st.size)
    ensures Sound(w, Started(st)) && RoomForAll(st)
  {
    StartRingsSound(w, st);
    StartLocated(st);
  }

  lemma InRingFrame(w: Ring.Leaving, st: State, tid: Tid)
    requires tid in st.calls && RingOf(st.calls[tid]) in st.rings
    ensures var st' := StepInRing(w, st, tid);
            st'.size == st.size && st'.room == st.room && st'.rings.Keys == st.rings.Keys
  {
    if Inside(st, tid) {
      AccountOthers(st, tid);
    }
  }

  lemma StepFrame(w: Ring.Leaving, st: State, tid: Tid)
    requires tid in st.calls
    ensures var st' := StepOf(w, st, tid);
            st'.size == st.size && st'.room == st.room && st'.rings.Keys == st.rings.Keys
  {
    if RingOf(st.calls[tid]) in st.rings {
      InRingFrame(w, st, tid);
    }
  }

  lemma StepDimensioned(w: Ring.Leaving, st: State, e: Event, threads: nat, size: nat)
    requires Dimensioned(st, threads, size)
    ensures Dimensioned(Next(w, st, e), threads, size)
  {
    if e.Step? && e.tid in st.calls {
      StepFrame(w, st, e.tid);
    }
  }

  lemma MallocSound(w: Ring.Leaving, st: State, tid: Tid)
    requires Sound(w, st) && tid in st.calls && st.calls[tid].Get? && RingOf(st.calls[tid]) !in st.rings
    ensures Sound(w, Malloc(st, tid, st.calls[tid].n))
  {
    InNoRing(st, tid);
    OnlyCallSound(w, st, Malloc(st, tid, st.calls[tid].n), tid);
  }

  lemma FreeSound(w: Ring.Leaving, st: State, tid: Tid)
    requires Sound(w, st) && tid in st.calls && st.calls[tid].Put? && RingOf(st.calls[tid]) !in st.rings
    ensures Sound(w, Free(st, tid, st.calls[tid].b))
  {
    InNoRing(st, tid);
    OnlyCallSound(w, st, Free(st, tid, st.calls[tid].b), tid);
  }

  lemma StepOfSound(w: Ring.Leaving, st: State, tid: Tid)
    requires Sound(w, st) && tid in st.calls
    ensures Sound(w, StepOf(w, st, tid))
  {
    if RingOf(st.calls[tid]) in st.rings {
      StepRingsSound(w, st, tid);
      StepLocated(w, st, tid);
    } else if st.calls[tid].Get? {
      MallocSound(w, st, tid);
    } else {
      FreeSound(w, st, tid);
    }
  }

  lemma StepSound(w: Ring.Leaving, st: State, e: Event)
    requires Sound(w, st) && (st.room == 0 || st.room == st.size)
    ensures Sound(w, Next(w, st, e))
  {
    match e
    case Allocate(tid, n) =>
      if tid !in st.calls {
        InNoRing(st, tid);
        OnlyCallSound(w, st, Next(w, st, e), tid);
      }
    case Release(tid, b) =>
      if tid !in st.calls && b in st.held {
        InNoRing(st, tid);
        OnlyCallSound(w, st, Next(w, st, e), tid);
      }
    case Step(tid) => if tid in st.calls { StepOfSound(w, st, tid); }
    case Start => if st.size > 0 { StartSound(w, st); }
  }

  lemma StepOfRefines(w: Ring.Leaving, st: State, tid: Tid)
    requires Sound(w, st) && Spec.Inv(Abs(st)) && tid in st.calls
    ensures Abs(StepOf(w, st, tid)) == After(Abs(st), VisibleOf(st, Step(tid)))
  {
    var r := RingOf(st.calls[tid]);
    if r !in st.rings {
      if st.calls[tid].Get? {
        MallocRefines(w, st, tid);
      } else {
        FreeRefines(w, st, tid);
      }
    } else {
      if Inside(st, tid) {
        SoundHere(w, st, tid);
        Spec.PooledNotNull(Abs(st), r);
        InsideRefines(w, st, tid);
      } else {
        EntryRefines(w, st, tid);
      }
    }
  }

  /** Every step is a stutter or one step of the abstract machine, as written and as
      intended. */
  lemma {:induction false} StepRefines(w: Ring.Leaving, st: State, e: Event)
    requires Sound(w, st) && Spec.Inv(Abs(st)) && (st.room == 0 || st.room == st.size)
    ensures Abs(Next(w, st, e)) == After(Abs(st), VisibleOf(st, e))
    ensures Sound(w, Next(w, st, e)) && Spec.Inv(Abs(Next(w, st, e)))
  {
    StepSound(w, st, e);
    match e {
      case Allocate(tid, n) => AllocateRefines(w, st, tid, n);
      case Release(tid, b) => ReleaseRefines(w, st, tid, b);
      case Start =>
        NothingPooledAbs(w, st);
        if NothingPooled(st) && st.size > 0 {
          StartSound(w, st);
          StartRefines(st);
        }
      case Step(tid) =>
        if tid in st.calls {
          StepOfRefines(w, st, tid);
        }
    }
    var v := VisibleOf(st, e);
    if v.Acts? {
      Spec.StepKeepsInv(Abs(st), v.e);
    }
  }

  // ----- Runs -----

  /** The steps of the abstract machine in a run. */
  function Trace(w: Ring.Leaving, st: State, es: seq<Event>): seq<Spec.Event>
    decreases |es|
  {
    if es == [] then []
    else
      var rest := Trace(w, Next(w, st, es[0]), es[1..]);
      if VisibleOf(st, es[0]).Acts? then [VisibleOf(st, es[0]).e] + rest else rest
  }

  lemma {:induction false} RunRefines(w: Ring.Leaving, st: State, es: seq<Event>, threads: nat, size: nat)
    requires Sound(w, st) && Spec.Inv(Abs(st)) && Dimensioned(st, threads, size)
    ensures Abs(Run(w, st, es)) == Spec.Run(Abs(st), Trace(w, st, es))
    ensures Sound(w, Run(w, st, es)) && Spec.Inv(Abs(Run(w, st, es))) && Dimensioned(Run(w, st, es), threads, size)
    decreases |es|
  {
    if es != [] {
      StepRefines(w, st, es[0]);
      StepDimensioned(w, st, es[0], threads, size);
      RunRefines(w, Next(w, st, es[0]), es[1..], threads, size);
    }
  }

  lemma InitialAbs(w: Ring.Leaving, threads: nat, size: nat)
    ensures Abs(Initial(threads, size)) == Spec.Initial(threads)
    ensures Sound(w, Initial(threads, size))
  {
    SameMaps(Spec.Initial(threads).pools, Pools(Initial(threads, size).rings));
  }

  /** Linearisation: every run of any number of clients, with push and pop interleaved at
      every step, is a run of the machine whose ring operations are atomic. A push takes
      effect where it stores, a pop where it takes the count down. */
  lemma {:induction false} Linearises(w: Ring.Leaving, threads: nat, size: nat, es: seq<Event>)
    ensures Abs(Run(w, Initial(threads, size), es))
         == Spec.Run(Spec.Initial(threads), Trace(w, Initial(threads, size), es))
    ensures Sound(w, Run(w, Initial(threads, size), es))
    ensures Spec.Inv(Abs(Run(w, Initial(threads, size), es)))
    ensures Dimensioned(Run(w, Initial(threads, size), es), threads, size)
  {
    InitialAbs(w, threads, size);
    Spec.InitialInv(threads);
    RunRefines(w, Initial(threads, size), es, threads, size);
  }

  // ----- What Allocate hands out -----

  /** The next step of the thread ends an Allocate. */
  predicate Gives(st: State, tid: Tid) {
    && tid in st.calls && st.calls[tid].Get?
    && (RingOf(st.calls[tid]) in st.rings ==>
         Inside(st, tid) && PcOf(st, tid).PopRelease? && PcOf(st, tid).t != 0)
  }

  function GivenBlock(st: State, tid: Tid): Block
    requires Gives(st, tid)
  {
    if RingOf(st.calls[tid]) in st.rings then PcOf(st, tid).t else st.next
  }

  lemma AccountGives(st: State, tid: Tid)
    requires Inside(st, tid) && Fits(st.calls[tid], PcOf(st, tid))
    ensures Account(st, tid).held == if Gives(st, tid) then st.held[GivenBlock(st, tid) := st.calls[tid].n] else st.held
    ensures tid in Account(st, tid).calls ==>
              Account(st, tid).calls[tid].(i := st.calls[tid].i) == st.calls[tid] && !Gives(st, tid)
    ensures tid !in Account(st, tid).calls && st.calls[tid].Get? ==> Gives(st, tid)
  {
  }

  /** A step changes what is held only by ending an Allocate, and ends an Allocate only with
      a block for the client. */
  lemma StepGives(w: Ring.Leaving, st: State, tid: Tid)
    requires Located(st) && tid in st.calls
    ensures var st' := StepOf(w, st, tid);
            && st'.held == (if Gives(st, tid) then st.held[GivenBlock(st, tid) := st.calls[tid].n] else st.held)
            && (tid in st'.calls ==> st'.calls[tid].(i := st.calls[tid].i) == st.calls[tid] && !Gives(st, tid))
            && (tid !in st'.calls && st.calls[tid].Get? ==> Gives(st, tid))
  {
    if Inside(st, tid) {
      AccountGives(st, tid);
    }
  }

  lemma StepOtherCalls(w: Ring.Leaving, st: State, tid: Tid)
    requires tid in st.calls
    ensures forall u | u != tid ::
      && (u in StepOf(w, st, tid).calls <==> u in st.calls)
      && (u in st.calls ==> StepOf(w, st, tid).calls[u] == st.calls[u])
  {
    if Inside(st, tid) {
      AccountOthers(st, tid);
    }
  }

  /** What is handed out is nobody's. */
  lemma GivenUnheld(st: State, tid: Tid)
    requires Spec.Inv(Abs(st)) && Gives(st, tid)
    ensures GivenBlock(st, tid) != 0 && GivenBlock(st, tid) !in st.held
  {
    if RingOf(st.calls[tid]) in st.rings {
      var b := GivenBlock(st, tid);
      assert AbsCalls(st)[tid] == Spec.Returning(st.calls[tid].n, b);
      assert Spec.IsAt(Abs(st), b, Spec.InCall(tid));
      assert b in st.held ==> Spec.IsAt(Abs(st), b, Spec.Held);
    } else {
      Spec.NextNowhere(Abs(st), Spec.Held);
    }
  }
}
