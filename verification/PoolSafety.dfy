/** What holds of AllocateManager in every interleaving of any number of clients: blocks are
    conserved, sizes fit, and the consequences of Start, Stop and the jammed rings. */
module PoolSafety {
  import opened Collections
  import opened SizeClasses
  import opened InterleavedAllocator
  import opened Words
  import Ring = RingBuffer
  import Spec = Allocator

  // ----- Conservation -----

  /** The client's call has the block and no ring does. */
  predicate Carries(st: State, tid: Tid, b: Block) {
    && tid in st.calls
    && if st.calls[tid].Put? then st.calls[tid].b == b && !(Inside(st, tid) && PcOf(st, tid).PushLeave?)
       else b != 0 && Inside(st, tid) && PcOf(st, tid) == Ring.PopRelease(b)
  }

  predicate IsAt(st: State, b: Block, w: Spec.Place) {
    match w
    case Held => b in st.held
    case InCall(tid) => Carries(st, tid, b)
    case Pooled(r, p) => r in st.rings && p < st.rings[r].cur && p < |st.rings[r].data| && st.rings[r].data[p] == b
    case Freed => b in st.freed
  }

  ghost predicate Somewhere(st: State, b: Block) {
    exists w: Spec.Place :: IsAt(st, b, w)
  }

  /** Every block malloc ever returned is in exactly one place: with one client, in one
      unfinished call, at one position of one ring, or freed, and then once. No other is
      anywhere. */
  ghost predicate Conserved(st: State) {
    && (forall b: Block, w: Spec.Place, v: Spec.Place :: IsAt(st, b, w) && IsAt(st, b, v) ==> w == v)
    && (forall b: Block :: Somewhere(st, b) <==> 1 <= b < st.next)
    && Distinct(st.freed)
  }

  lemma SameInRing(st: State, tid: Tid, b: Block)
    requires Here(st, tid)
    ensures Carries(st, tid, b) <==> Spec.Carries(AbsCall(st, tid), b)
  {
  }

  lemma SameOutside(st: State, tid: Tid, b: Block)
    requires tid in st.calls && !Inside(st, tid)
    ensures Carries(st, tid, b) <==> Spec.Carries(AbsCall(st, tid), b)
  {
  }

  lemma SameInCall(w: Ring.Leaving, st: State, tid: Tid, b: Block)
    requires Sound(w, st)
    ensures Carries(st, tid, b) <==> Spec.IsAt(Abs(st), b, Spec.InCall(tid))
  {
    if tid in st.calls {
      if Inside(st, tid) {
        SoundHere(w, st, tid);
        SameInRing(st, tid, b);
      } else {
        SameOutside(st, tid, b);
      }
      assert Abs(st).calls[tid] == AbsCall(st, tid);
    }
  }

  lemma SamePooled(st: State, r: RingId, p: nat, b: Block)
    ensures IsAt(st, b, Spec.Pooled(r, p)) <==> Spec.IsAt(Abs(st), b, Spec.Pooled(r, p))
  {
  }

  lemma SamePlaces(w: Ring.Leaving, st: State, b: Block, v: Spec.Place)
    requires Sound(w, st)
    ensures IsAt(st, b, v) <==> Spec.IsAt(Abs(st), b, v)
  {
    match v
    case Held =>
    case InCall(tid) => SameInCall(w, st, tid, b);
    case Pooled(r, p) => SamePooled(st, r, p, b);
    case Freed =>
  }

  lemma SameConserved(w: Ring.Leaving, st: State)
    requires Sound(w, st)
    ensures Conserved(st) <==> Spec.Conserved(Abs(st))
  {
    forall b: Block, v: Spec.Place ensures IsAt(st, b, v) <==> Spec.IsAt(Abs(st), b, v) {
      SamePlaces(w, st, b, v);
    }
    forall b: Block ensures Somewhere(st, b) <==> Spec.Somewhere(Abs(st), b) {
      if Somewhere(st, b) {
        var v: Spec.Place :| IsAt(st, b, v);
        assert Spec.IsAt(Abs(st), b, v);
      }
      if Spec.Somewhere(Abs(st), b) {
        var v: Spec.Place :| Spec.IsAt(Abs(st), b, v);
        assert IsAt(st, b, v);
      }
    }
  }

  /** Conservation, in every run of any number of clients, as written and as intended. */
  lemma Conservation(w: Ring.Leaving, threads: nat, size: nat, es: seq<Event>)
    ensures Conserved(Run(w, Initial(threads, size), es))
  {
    var st := Run(w, Initial(threads, size), es);
    Linearises(w, threads, size, es);
    Spec.InvConserves(Abs(st));
    SameConserved(w, st);
  }

  /** Size classes: held blocks are as large as was asked for, exactly so above 2^15 bytes,
      and stored ones have the size of their slot. */
  predicate Fitting(st: State) {
    && (forall b | b in st.held ::
         b in st.caps && st.held[b] <= st.caps[b]
         && st.caps[b] == if st.held[b] <= 0x8000 then Pow2(SlotOf(st.held[b])) else st.held[b])
    && (forall r, p | r in st.rings && 0 <= p < st.rings[r].cur && p < |st.rings[r].data| ::
         st.rings[r].data[p] in st.caps && st.caps[st.rings[r].data[p]] == Pow2(r.slot))
  }

  lemma FittingAbs(st: State)
    requires Spec.Fitting(Abs(st))
    ensures Fitting(st)
  {
    forall r, p | r in st.rings && 0 <= p < st.rings[r].cur && p < |st.rings[r].data|
      ensures st.rings[r].data[p] in st.caps && st.caps[st.rings[r].data[p]] == Pow2(r.slot)
    {
      assert Pools(st.rings)[r][p] == st.rings[r].data[p];
    }
  }

  lemma SizesFit(w: Ring.Leaving, threads: nat, size: nat, es: seq<Event>)
    ensures Fitting(Run(w, Initial(threads, size), es))
  {
    var st := Run(w, Initial(threads, size), es);
    Linearises(w, threads, size, es);
    Spec.InvFits(Abs(st));
    FittingAbs(st);
  }

  // ----- Start and Stop -----

  /** Start gives every ring a new array and keeps the counts: in every reachable state it
      keeps all blocks exactly when nothing is stored. */
  lemma StartConservesIff(w: Ring.Leaving, threads: nat, size: nat, es: seq<Event>)
    requires size > 0
    ensures var st := Run(w, Initial(threads, size), es);
            Conserved(Started(st)) <==> NothingPooled(st)
  {
    var st := Run(w, Initial(threads, size), es);
    Linearises(w, threads, size, es);
    StartSound(w, st);
    StartRefines(st);
    SameConserved(w, Started(st));
    NothingPooledAbs(w, st);
    Spec.StartConservesIff(Abs(st), size);
  }

  /** What is stored, in the order in which Stop visits it. */
  function AllStored(st: State, threads: nat): seq<Block> {
    Spec.SlotsUpTo(Pools(st.rings), threads, MAX_SLOT)
  }

  /** Stop frees what is stored. The rings keep their contents and counts. */
  function Stopped(st: State, threads: nat): State {
    st.(freed := st.freed + AllStored(st, threads))
  }

  lemma StopFreesOnceOf(st: State, threads: nat)
    requires Spec.Inv(Abs(st)) && st.rings.Keys == Grid(threads) && st.calls == map[]
    ensures Distinct(Stopped(st, threads).freed)
    ensures forall b: Block :: b in Stopped(st, threads).freed || b in st.held <==> 1 <= b < st.next
    ensures forall b | b in st.held :: b !in Stopped(st, threads).freed
  {
    assert AbsCalls(st) == map[];
    Spec.StopFreesOnce(Abs(st), threads);
  }

  /** After a single Stop with no call in progress, every block ever allocated was freed
      exactly once or is still held by a client, and not both. */
  lemma StopFreesOnce(w: Ring.Leaving, threads: nat, size: nat, es: seq<Event>, st: State)
    requires st == Run(w, Initial(threads, size), es) && st.calls == map[]
    ensures Distinct(Stopped(st, threads).freed)
    ensures forall b: Block :: b in Stopped(st, threads).freed || b in st.held <==> 1 <= b < st.next
    ensures forall b | b in st.held :: b !in Stopped(st, threads).freed
  {
    Linearises(w, threads, size, es);
    StopFreesOnceOf(st, threads);
  }

  /** A second Stop frees nothing twice exactly when nothing is stored. */
  lemma SecondStopIff(w: Ring.Leaving, threads: nat, size: nat, es: seq<Event>, st: State)
    requires st == Run(w, Initial(threads, size), es)
    ensures Distinct(Stopped(Stopped(st, threads), threads).freed) <==> AllStored(st, threads) == []
  {
    Linearises(w, threads, size, es);
    Spec.FreedTwice(st.freed, AllStored(st, threads));
  }

  // ----- What the jammed rings do to the allocator -----

  /** Every ring has taken at most one block and gives none back. */
  predicate Jammed(st: State) {
    forall r | r in st.rings :: Ring.Jammed(st.rings[r])
  }

  /** Allocate has returned 1, 2, 3 and so on: each time a new block. */
  predicate AllNew(st: State) {
    |st.given| + 1 == st.next && forall k | 0 <= k < |st.given| :: st.given[k] == k + 1
  }

  lemma RingEventJams(ring: Ring.State, e: Ring.Event)
    requires Ring.Inv(Ring.AsWritten, ring) && Ring.Jammed(ring)
    ensures Ring.Jammed(Ring.Next(Ring.AsWritten, ring, e))
  {
    if !e.Step? {
      Ring.CallKeepsJam(ring, e);
    } else if e.tid in ring.callers {
      Ring.StepKeepsJam(ring, e.tid);
    }
  }

  lemma StartJams(ring: Ring.State, size: nat)
    requires Ring.Jammed(ring)
    ensures Ring.Jammed(ring.(data := seq(size, _ => 0)))
  {
    assert Ring.SomeoneLeaving(ring.(data := seq(size, _ => 0))) == Ring.SomeoneLeaving(ring);
  }

  lemma StepKeepsJam(st: State, e: Event)
    requires Sound(Ring.AsWritten, st) && Jammed(st)
    ensures Jammed(Next(Ring.AsWritten, st, e))
  {
    if e.Step? && e.tid in st.calls && RingOf(st.calls[e.tid]) in st.rings {
      RingEventJams(st.rings[RingOf(st.calls[e.tid])], RingEvent(st, e.tid));
    } else if e.Start? {
      forall r | r in st.rings ensures Ring.Jammed(st.rings[r].(data := seq(st.size, _ => 0))) {
        StartJams(st.rings[r], st.size);
      }
    }
  }

  lemma AccountGivesNothing(st: State, tid: Tid)
    requires Inside(st, tid) && (PcOf(st, tid).PopRelease? ==> PcOf(st, tid).t == 0)
    ensures Account(st, tid).given == st.given && Account(st, tid).next == st.next
  {
  }

  lemma StepGivesNew(st: State, tid: Tid)
    requires Jammed(st) && AllNew(st) && tid in st.calls
    ensures AllNew(StepOf(Ring.AsWritten, st, tid))
  {
    if Inside(st, tid) {
      assert Ring.Jammed(st.rings[RingOf(st.calls[tid])]);
      AccountGivesNothing(st, tid);
    }
  }

  lemma NextKeepsJam(st: State, e: Event)
    requires Sound(Ring.AsWritten, st) && (st.room == 0 || st.room == st.size)
    requires Jammed(st) && AllNew(st)
    ensures var st' := Next(Ring.AsWritten, st, e);
            Sound(Ring.AsWritten, st') && (st'.room == 0 || st'.room == st'.size) && Jammed(st') && AllNew(st')
  {
    StepSound(Ring.AsWritten, st, e);
    StepKeepsJam(st, e);
    if e.Step? && e.tid in st.calls {
      StepFrame(Ring.AsWritten, st, e.tid);
      StepGivesNew(st, e.tid);
    }
  }

  lemma {:induction false} RunKeepsJam(st: State, es: seq<Event>)
    requires Sound(Ring.AsWritten, st) && (st.room == 0 || st.room == st.size)
    requires Jammed(st) && AllNew(st)
    ensures Jammed(Run(Ring.AsWritten, st, es)) && AllNew(Run(Ring.AsWritten, st, es))
    decreases |es|
  {
    if es != [] {
      NextKeepsJam(st, es[0]);
      RunKeepsJam(Next(Ring.AsWritten, st, es[0]), es[1..]);
    }
  }

  lemma InitialJams(threads: nat, size: nat)
    ensures Jammed(Initial(threads, size)) && AllNew(Initial(threads, size))
  {
  }

  lemma {:induction false} RingsShort(pools: map<RingId, seq<Block>>, s: nat, i: nat)
    requires forall r | r in pools :: |pools[r]| <= 1
    ensures |Spec.RingsUpTo(pools, s, i)| <= i
    decreases i
  {
    if i > 0 {
      RingsShort(pools, s, i - 1);
    }
  }

  lemma {:induction false} SlotsShort(pools: map<RingId, seq<Block>>, threads: nat, s: nat)
    requires forall r | r in pools :: |pools[r]| <= 1
    ensures |Spec.SlotsUpTo(pools, threads, s)| <= s * threads
    decreases s
  {
    if s > 0 {
      RingsShort(pools, s - 1, threads);
      SlotsShort(pools, threads, s - 1);
      assert s * threads == (s - 1) * threads + threads;
    }
  }

  /** As written, no block is ever handed out twice, in any interleaving: every Allocate ends
      in malloc. And no more than one block per ring is ever stored. */
  lemma NothingIsReused(threads: nat, size: nat, es: seq<Event>)
    ensures var st := Run(Ring.AsWritten, Initial(threads, size), es);
            AllNew(st) && |AllStored(st, threads)| <= MAX_SLOT * threads
  {
    var st := Run(Ring.AsWritten, Initial(threads, size), es);
    InitialAbs(Ring.AsWritten, threads, size);
    InitialJams(threads, size);
    RunKeepsJam(Initial(threads, size), es);
    forall r | r in Pools(st.rings) ensures |Pools(st.rings)[r]| <= 1 {
      assert Ring.Jammed(st.rings[r]);
    }
    SlotsShort(Pools(st.rings), threads, MAX_SLOT);
  }
}
