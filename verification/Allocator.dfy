/** AllocateManager as it is meant: rings are stacks and a ring operation is one step, which
    may also fail for no visible reason. InterleavedAllocator proves that the code, with its
    try-locks interleaved, takes only these steps. */
module Allocator {
  import opened Collections
  import opened SizeClasses
  import opened Words

  type Tid = nat

  /** A call in progress; `i` is the ring it tries next. */
  datatype Call =
    | Allocating(n: Size, i: nat)
    | Returning(n: Size, b: Block)           // a ring gave it a block
    | Releasing(n: Size, b: Block, i: nat)
    | Finishing                              // a ring took its block

  /** Where a block is. */
  datatype Place = Held | InCall(tid: Tid) | Pooled(r: RingId, pos: nat) | Freed

  datatype State = State(
    pools: map<RingId, seq<Block>>,   // contents of the rings
    room: nat,                        // array size of every ring
    calls: map<Tid, Call>,
    held: map<Block, Size>,           // blocks owned by clients, with the size asked for
    next: Block,                      // the name of the next block from malloc
    caps: map<Block, nat>,            // every block malloc returned, with its capacity
    freed: seq<Block>,                // calls to free, in order
    place: map<Block, Place>)         // bookkeeping for the proof; no transition reads it

  datatype Event =
    | Allocate(tid: Tid, n: Size)
    | Release(tid: Tid, b: Block)     // DeAllocate of a held block with the size it was asked for
    | Proceed(tid: Tid, free: bool)   // one ring operation, malloc, free, or the return
    | Start(size: nat)                // while nothing is pooled

  function Initial(threads: nat): State {
    State(map r | r in Grid(threads) :: [], 0, map[], map[], 1, map[], [], map[])
  }

  /** Names are not reused, so that a block is one result of malloc. */
  function Malloc(st: State, tid: Tid, n: Size): State {
    st.(calls := st.calls - {tid}, held := st.held[st.next := n], next := st.next + 1,
        caps := st.caps[st.next := Capacity(n)], place := st.place[st.next := Held])
  }

  function Take(st: State, tid: Tid, n: Size, r: RingId): State
    requires r in st.pools && st.pools[r] != []
  {
    var top := |st.pools[r]| - 1;
    var b := st.pools[r][top];
    st.(pools := st.pools[r := st.pools[r][..top]], calls := st.calls[tid := Returning(n, b)],
        place := st.place[b := InCall(tid)])
  }

  function Deliver(st: State, tid: Tid, n: Size, b: Block): State {
    st.(calls := st.calls - {tid}, held := st.held[b := n], place := st.place[b := Held])
  }

  function StartRelease(st: State, tid: Tid, b: Block): State
    requires b in st.held
  {
    st.(calls := st.calls[tid := Releasing(st.held[b], b, 0)], held := st.held - {b},
        place := st.place[b := InCall(tid)])
  }

  function Put(st: State, tid: Tid, b: Block, r: RingId): State
    requires r in st.pools
  {
    st.(pools := st.pools[r := st.pools[r] + [b]], calls := st.calls[tid := Finishing],
        place := st.place[b := Pooled(r, |st.pools[r]|)])
  }

  function Free(st: State, tid: Tid, b: Block): State {
    st.(calls := st.calls - {tid}, freed := st.freed + [b], place := st.place[b := Freed])
  }

  predicate NothingPooled(st: State) {
    forall r | r in st.pools :: st.pools[r] == []
  }

  /** Every ring gets a new zeroed array and keeps its count. */
  function Started(st: State, size: nat): State {
    st.(room := size, pools := map r | r in st.pools :: seq(|st.pools[r]|, _ => 0))
  }

  /** The call goes on to the next ring. */
  function Onward(c: Call): Call {
    match c
    case Allocating(n, i) => Allocating(n, i + 1)
    case Releasing(n, b, i) => Releasing(n, b, i + 1)
    case _ => c
  }

  function ProceedOf(st: State, tid: Tid, free: bool): State
    requires tid in st.calls
  {
    match st.calls[tid]
    case Allocating(n, i) =>
      var r := RingId(SlotOf(n), i);
      if r !in st.pools then Malloc(st, tid, n)
      else if free && st.pools[r] != [] then Take(st, tid, n, r)
      else st.(calls := st.calls[tid := Onward(Allocating(n, i))])
    case Returning(n, b) => Deliver(st, tid, n, b)
    case Releasing(n, b, i) =>
      var r := RingId(SlotOf(n), i);
      if r !in st.pools then Free(st, tid, b)
      else if free && |st.pools[r]| < st.room then Put(st, tid, b, r)
      else st.(calls := st.calls[tid := Onward(Releasing(n, b, i))])
    case Finishing => st.(calls := st.calls - {tid})
  }

  function Next(st: State, e: Event): State {
    match e
    case Allocate(tid, n) =>
      if tid in st.calls then st else st.(calls := st.calls[tid := Allocating(n, 0)])
    case Release(tid, b) =>
      if tid in st.calls || b !in st.held then st else StartRelease(st, tid, b)
    case Proceed(tid, free) =>
      if tid !in st.calls then st else ProceedOf(st, tid, free)
    case Start(size) =>
      if NothingPooled(st) then Started(st, size) else st
  }

  function Run(st: State, es: seq<Event>): State
    decreases |es|
  {
    if es == [] then st else Run(Next(st, es[0]), es[1..])
  }

  // ----- What a call does next, case by case -----

  lemma ProceedTakes(st: State, tid: Tid, n: Size, i: nat)
    requires tid in st.calls && st.calls[tid] == Allocating(n, i)
    requires RingId(SlotOf(n), i) in st.pools && st.pools[RingId(SlotOf(n), i)] != []
    ensures Next(st, Proceed(tid, true)) == Take(st, tid, n, RingId(SlotOf(n), i))
  {
  }

  /** Past the last ring, or with a size no ring is for. */
  lemma ProceedToHeap(st: State, tid: Tid)
    requires tid in st.calls && (st.calls[tid].Allocating? || st.calls[tid].Releasing?)
    requires RingId(SlotOf(st.calls[tid].n), st.calls[tid].i) !in st.pools
    ensures Next(st, Proceed(tid, true))
         == if st.calls[tid].Allocating? then Malloc(st, tid, st.calls[tid].n) else Free(st, tid, st.calls[tid].b)
  {
  }

  lemma ProceedPuts(st: State, tid: Tid, n: Size, b: Block, i: nat)
    requires tid in st.calls && st.calls[tid] == Releasing(n, b, i)
    requires RingId(SlotOf(n), i) in st.pools && |st.pools[RingId(SlotOf(n), i)]| < st.room
    ensures Next(st, Proceed(tid, true)) == Put(st, tid, b, RingId(SlotOf(n), i))
  {
  }

  lemma ProceedEnds(st: State, tid: Tid)
    requires tid in st.calls && (st.calls[tid].Finishing? || st.calls[tid].Returning?)
    ensures Next(st, Proceed(tid, false))
         == if st.calls[tid].Finishing? then st.(calls := st.calls - {tid})
            else Deliver(st, tid, st.calls[tid].n, st.calls[tid].b)
  {
  }

  lemma ProceedSkips(st: State, tid: Tid)
    requires tid in st.calls && (st.calls[tid].Allocating? || st.calls[tid].Releasing?)
    requires RingId(SlotOf(st.calls[tid].n), st.calls[tid].i) in st.pools
    ensures Next(st, Proceed(tid, false)) == st.(calls := st.calls[tid := Onward(st.calls[tid])])
  {
  }

  // ----- Every block is in one place -----

  predicate Carries(c: Call, b: Block) {
    (c.Returning? || c.Releasing?) && c.b == b
  }

  predicate IsAt(st: State, b: Block, w: Place) {
    match w
    case Held => b in st.held
    case InCall(tid) => tid in st.calls && Carries(st.calls[tid], b)
    case Pooled(r, p) => r in st.pools && p < |st.pools[r]| && st.pools[r][p] == b
    case Freed => b in st.freed
  }

  /** The bookkeeping says where every block is. */
  ghost predicate Placed(st: State) {
    forall b: Block, w: Place :: IsAt(st, b, w) <==> b in st.place && st.place[b] == w
  }

  /** The names handed out so far. */
  ghost predicate Named(st: State) {
    && st.next >= 1
    && (forall b: Block :: b in st.place <==> 1 <= b < st.next)
    && st.caps.Keys == st.place.Keys
  }

  predicate HeldSized(st: State) {
    forall b | b in st.held :: b in st.caps && st.caps[b] == Capacity(st.held[b])
  }

  predicate CallsSized(st: State) {
    forall tid | tid in st.calls && (st.calls[tid].Returning? || st.calls[tid].Releasing?) ::
      st.calls[tid].b in st.caps && st.caps[st.calls[tid].b] == Capacity(st.calls[tid].n)
  }

  predicate PoolsSized(st: State) {
    forall r, p | r in st.pools && 0 <= p < |st.pools[r]| ::
      r.slot < MAX_SLOT && st.pools[r][p] in st.caps && st.caps[st.pools[r][p]] == Pow2(r.slot)
  }

  predicate Roomy(st: State) {
    forall r | r in st.pools :: |st.pools[r]| <= st.room
  }

  predicate Slotted(st: State) {
    forall r | r in st.pools :: r.slot < MAX_SLOT
  }

  ghost predicate Inv(st: State) {
    && Placed(st)
    && Named(st)
    && HeldSized(st) && CallsSized(st) && PoolsSized(st)
    && Roomy(st) && Slotted(st)
    && Distinct(st.freed)
  }

  /** Only `b` has moved, to `w`. */
  ghost predicate Moves(st: State, st': State, b: Block, w: Place) {
    && st'.place == st.place[b := w]
    && (forall v: Place :: IsAt(st', b, v) <==> v == w)
    && forall a: Block, v: Place | a != b :: IsAt(st', a, v) <==> IsAt(st, a, v)
  }

  lemma MovePlaces(st: State, st': State, b: Block, w: Place)
    requires Placed(st) && Moves(st, st', b, w)
    ensures Placed(st')
  {
    forall a: Block, v: Place ensures IsAt(st', a, v) <==> a in st'.place && st'.place[a] == v {
      assert a != b ==> (IsAt(st, a, v) <==> a in st.place && st.place[a] == v);
    }
  }

  /** Nothing has moved. */
  lemma StayPlaces(st: State, st': State)
    requires Placed(st) && st'.place == st.place
    requires forall b: Block, w: Place :: IsAt(st', b, w) <==> IsAt(st, b, w)
    ensures Placed(st')
  {
    forall b: Block, w: Place ensures IsAt(st', b, w) <==> b in st'.place && st'.place[b] == w {
      assert IsAt(st, b, w) <==> b in st.place && st.place[b] == w;
    }
  }

  /** A block that is placed is nowhere else. */
  lemma OnlyAt(st: State, b: Block, w: Place, v: Place)
    requires Placed(st) && IsAt(st, b, w) && IsAt(st, b, v)
    ensures v == w
  {
  }

  /** A name not handed out is nowhere. */
  lemma NextNowhere(st: State, w: Place)
    requires Placed(st) && Named(st)
    ensures !IsAt(st, st.next, w)
  {
  }

  lemma NullNowhere(st: State, w: Place)
    requires Placed(st) && Named(st)
    ensures !IsAt(st, 0, w)
  {
  }

  lemma MallocMoves(st: State, tid: Tid, n: Size)
    requires Placed(st) && Named(st) && tid in st.calls && st.calls[tid].Allocating?
    ensures Moves(st, Malloc(st, tid, n), st.next, Held)
  {
    var st' := Malloc(st, tid, n);
    forall v: Place ensures IsAt(st', st.next, v) <==> v == Held {
      NextNowhere(st, v);
    }
  }

  lemma TakeMoves(st: State, tid: Tid, n: Size, r: RingId)
    requires Placed(st) && tid in st.calls && st.calls[tid].Allocating?
    requires r in st.pools && st.pools[r] != []
    ensures Moves(st, Take(st, tid, n, r), st.pools[r][|st.pools[r]| - 1], InCall(tid))
  {
    var top := |st.pools[r]| - 1;
    var b := st.pools[r][top];
    var st' := Take(st, tid, n, r);
    assert IsAt(st, b, Pooled(r, top));
    forall v: Place ensures IsAt(st', b, v) <==> v == InCall(tid) {
      if IsAt(st, b, v) {
        OnlyAt(st, b, Pooled(r, top), v);
      }
    }
  }

  lemma DeliverMoves(st: State, tid: Tid)
    requires Placed(st) && tid in st.calls && st.calls[tid].Returning?
    ensures Moves(st, Deliver(st, tid, st.calls[tid].n, st.calls[tid].b), st.calls[tid].b, Held)
  {
    var b := st.calls[tid].b;
    var st' := Deliver(st, tid, st.calls[tid].n, b);
    assert IsAt(st, b, InCall(tid));
    forall v: Place ensures IsAt(st', b, v) <==> v == Held {
      if IsAt(st, b, v) {
        OnlyAt(st, b, InCall(tid), v);
      }
    }
  }

  lemma StartReleaseMoves(st: State, tid: Tid, b: Block)
    requires Placed(st) && tid !in st.calls && b in st.held
    ensures Moves(st, StartRelease(st, tid, b), b, InCall(tid))
  {
    var st' := StartRelease(st, tid, b);
    assert IsAt(st, b, Held);
    forall v: Place ensures IsAt(st', b, v) <==> v == InCall(tid) {
      if IsAt(st, b, v) {
        OnlyAt(st, b, Held, v);
      }
    }
  }

  lemma PutMoves(st: State, tid: Tid, r: RingId)
    requires Placed(st) && tid in st.calls && st.calls[tid].Releasing? && r in st.pools
    ensures Moves(st, Put(st, tid, st.calls[tid].b, r), st.calls[tid].b, Pooled(r, |st.pools[r]|))
  {
    var b := st.calls[tid].b;
    var st' := Put(st, tid, b, r);
    assert IsAt(st, b, InCall(tid));
    forall v: Place ensures IsAt(st', b, v) <==> v == Pooled(r, |st.pools[r]|) {
      if IsAt(st, b, v) {
        OnlyAt(st, b, InCall(tid), v);
      }
    }
  }

  lemma FreeMoves(st: State, tid: Tid)
    requires Placed(st) && tid in st.calls && st.calls[tid].Releasing?
    ensures Moves(st, Free(st, tid, st.calls[tid].b), st.calls[tid].b, Freed)
  {
    var b := st.calls[tid].b;
    var st' := Free(st, tid, b);
    assert IsAt(st, b, InCall(tid));
    forall v: Place ensures IsAt(st', b, v) <==> v == Freed {
      if IsAt(st, b, v) {
        OnlyAt(st, b, InCall(tid), v);
      }
    }
  }

  // ----- The invariant -----

  lemma PlacedIsNamed(st: State, b: Block, w: Place)
    requires Placed(st) && Named(st) && IsAt(st, b, w)
    ensures 1 <= b < st.next && b in st.caps
  {
  }

  lemma MallocKeepsInv(st: State, tid: Tid, n: Size)
    requires Inv(st) && tid in st.calls && st.calls[tid].Allocating?
    ensures Inv(Malloc(st, tid, n))
  {
    MallocMoves(st, tid, n);
    MovePlaces(st, Malloc(st, tid, n), st.next, Held);
  }

  lemma TakeKeepsInv(st: State, tid: Tid, n: Size, i: nat)
    requires Inv(st) && tid in st.calls && st.calls[tid].Allocating?
    requires RingId(SlotOf(n), i) in st.pools && st.pools[RingId(SlotOf(n), i)] != []
    ensures Inv(Take(st, tid, n, RingId(SlotOf(n), i)))
  {
    var r := RingId(SlotOf(n), i);
    var b := st.pools[r][|st.pools[r]| - 1];
    TakeMoves(st, tid, n, r);
    MovePlaces(st, Take(st, tid, n, r), b, InCall(tid));
    PlacedIsNamed(st, b, Pooled(r, |st.pools[r]| - 1));
  }

  lemma DeliverKeepsInv(st: State, tid: Tid)
    requires Inv(st) && tid in st.calls && st.calls[tid].Returning?
    ensures Inv(Deliver(st, tid, st.calls[tid].n, st.calls[tid].b))
  {
    var c := st.calls[tid];
    DeliverMoves(st, tid);
    MovePlaces(st, Deliver(st, tid, c.n, c.b), c.b, Held);
    PlacedIsNamed(st, c.b, InCall(tid));
  }

  lemma StartReleaseKeepsInv(st: State, tid: Tid, b: Block)
    requires Inv(st) && tid !in st.calls && b in st.held
    ensures Inv(StartRelease(st, tid, b))
  {
    StartReleaseMoves(st, tid, b);
    MovePlaces(st, StartRelease(st, tid, b), b, InCall(tid));
    PlacedIsNamed(st, b, Held);
  }

  lemma PutKeepsInv(st: State, tid: Tid, i: nat)
    requires Inv(st) && tid in st.calls && st.calls[tid].Releasing?
    requires RingId(SlotOf(st.calls[tid].n), i) in st.pools
    requires |st.pools[RingId(SlotOf(st.calls[tid].n), i)]| < st.room
    ensures Inv(Put(st, tid, st.calls[tid].b, RingId(SlotOf(st.calls[tid].n), i)))
  {
    var c := st.calls[tid];
    var r := RingId(SlotOf(c.n), i);
    PutMoves(st, tid, r);
    MovePlaces(st, Put(st, tid, c.b, r), c.b, Pooled(r, |st.pools[r]|));
    PlacedIsNamed(st, c.b, InCall(tid));
  }

  lemma FreeKeepsInv(st: State, tid: Tid)
    requires Inv(st) && tid in st.calls && st.calls[tid].Releasing?
    ensures Inv(Free(st, tid, st.calls[tid].b))
  {
    var b := st.calls[tid].b;
    FreeMoves(st, tid);
    MovePlaces(st, Free(st, tid, b), b, Freed);
    PlacedIsNamed(st, b, InCall(tid));
    if IsAt(st, b, Freed) {
      OnlyAt(st, b, InCall(tid), Freed);
    }
    DistinctAppend(st.freed, [b]);
  }

  /** A call that carries no block goes on without one. */
  lemma AdvanceKeepsInv(st: State, tid: Tid, n: Size, i: nat)
    requires Inv(st) && (tid in st.calls ==> st.calls[tid].Allocating?)
    ensures Inv(st.(calls := st.calls[tid := Allocating(n, i)]))
  {
    StayPlaces(st, st.(calls := st.calls[tid := Allocating(n, i)]));
  }

  /** A call that carries a block goes on with it. */
  lemma RetryKeepsInv(st: State, tid: Tid, n: Size, b: Block, i: nat, j: nat)
    requires Inv(st) && tid in st.calls && st.calls[tid] == Releasing(n, b, i)
    ensures Inv(st.(calls := st.calls[tid := Releasing(n, b, j)]))
  {
    StayPlaces(st, st.(calls := st.calls[tid := Releasing(n, b, j)]));
  }

  lemma FinishKeepsInv(st: State, tid: Tid)
    requires Inv(st) && tid in st.calls && st.calls[tid].Finishing?
    ensures Inv(st.(calls := st.calls - {tid}))
  {
    StayPlaces(st, st.(calls := st.calls - {tid}));
  }

  lemma StartKeepsInv(st: State, size: nat)
    requires Inv(st) && NothingPooled(st)
    ensures Inv(Started(st, size))
  {
    StayPlaces(st, Started(st, size));
  }

  lemma AllocatingKeepsInv(st: State, tid: Tid, free: bool)
    requires Inv(st) && tid in st.calls && st.calls[tid].Allocating?
    ensures Inv(ProceedOf(st, tid, free))
  {
    var c := st.calls[tid];
    var r := RingId(SlotOf(c.n), c.i);
    if r !in st.pools {
      MallocKeepsInv(st, tid, c.n);
    } else if free && st.pools[r] != [] {
      TakeKeepsInv(st, tid, c.n, c.i);
    } else {
      AdvanceKeepsInv(st, tid, c.n, c.i + 1);
    }
  }

  lemma ReleasingKeepsInv(st: State, tid: Tid, free: bool)
    requires Inv(st) && tid in st.calls && st.calls[tid].Releasing?
    ensures Inv(ProceedOf(st, tid, free))
  {
    var c := st.calls[tid];
    var r := RingId(SlotOf(c.n), c.i);
    if r !in st.pools {
      FreeKeepsInv(st, tid);
    } else if free && |st.pools[r]| < st.room {
      PutKeepsInv(st, tid, c.i);
    } else {
      RetryKeepsInv(st, tid, c.n, c.b, c.i, c.i + 1);
    }
  }

  lemma StepKeepsInv(st: State, e: Event)
    requires Inv(st)
    ensures Inv(Next(st, e))
  {
    match e
    case Allocate(tid, n) => if tid !in st.calls { AdvanceKeepsInv(st, tid, n, 0); }
    case Release(tid, b) => if tid !in st.calls && b in st.held { StartReleaseKeepsInv(st, tid, b); }
    case Proceed(tid, free) =>
      if tid in st.calls {
        match st.calls[tid]
        case Allocating(n, i) => AllocatingKeepsInv(st, tid, free);
        case Returning(n, b) => DeliverKeepsInv(st, tid);
        case Releasing(n, b, i) => ReleasingKeepsInv(st, tid, free);
        case Finishing => FinishKeepsInv(st, tid);
      }
    case Start(size) => if NothingPooled(st) { StartKeepsInv(st, size); }
  }

  lemma InitialInv(threads: nat)
    ensures Inv(Initial(threads))
  {
  }

  // ----- What the invariant says -----

  ghost predicate Somewhere(st: State, b: Block) {
    exists w: Place :: IsAt(st, b, w)
  }

  /** Every block malloc returned is in exactly one place, and nothing else is anywhere:
      with one client, in one unfinished call, at one position of one ring, or freed once. */
  ghost predicate Conserved(st: State) {
    && (forall b: Block, w: Place, v: Place :: IsAt(st, b, w) && IsAt(st, b, v) ==> w == v)
    && (forall b: Block :: Somewhere(st, b) <==> 1 <= b < st.next)
    && Distinct(st.freed)
  }

  lemma InvConserves(st: State)
    requires Inv(st)
    ensures Conserved(st)
  {
    forall b: Block ensures Somewhere(st, b) <==> 1 <= b < st.next {
      if b in st.place {
        assert IsAt(st, b, st.place[b]);
      }
    }
  }

  /** Size classes: held blocks are as large as was asked for, exactly so above 2^15 bytes,
      and pooled blocks have the size of their slot. */
  predicate Fitting(st: State) {
    && (forall b | b in st.held ::
         b in st.caps && st.held[b] <= st.caps[b]
         && st.caps[b] == if st.held[b] <= 0x8000 then Pow2(SlotOf(st.held[b])) else st.held[b])
    && PoolsSized(st)
  }

  lemma InvFits(st: State)
    requires Inv(st)
    ensures Fitting(st)
  {
    forall b | b in st.held
      ensures st.held[b] <= st.caps[b]
      ensures st.caps[b] == if st.held[b] <= 0x8000 then Pow2(SlotOf(st.held[b])) else st.held[b]
    {
      CapacityEnough(st.held[b]);
    }
  }

  lemma PooledNotNull(st: State, r: RingId)
    requires Inv(st) && r in st.pools
    ensures 0 !in st.pools[r]
  {
    forall p | 0 <= p < |st.pools[r]| ensures st.pools[r][p] != 0 {
      PlacedIsNamed(st, st.pools[r][p], Pooled(r, p));
    }
  }

  // ----- Start on a manager in use -----

  /** A block in a ring that gets a new array is nowhere. */
  lemma StartLoses(st: State, size: nat, r: RingId, p: nat)
    requires Inv(st) && r in st.pools && p < |st.pools[r]|
    ensures 1 <= st.pools[r][p] < st.next && !Somewhere(Started(st, size), st.pools[r][p])
  {
    var b := st.pools[r][p];
    PlacedIsNamed(st, b, Pooled(r, p));
    if Somewhere(Started(st, size), b) {
      var w: Place :| IsAt(Started(st, size), b, w);
      assert IsAt(st, b, w);
      OnlyAt(st, b, Pooled(r, p), w);
    }
  }

  /** Start keeps every block exactly when nothing is pooled. */
  lemma StartConservesIff(st: State, size: nat)
    requires Inv(st)
    ensures Conserved(Started(st, size)) <==> NothingPooled(st)
  {
    if NothingPooled(st) {
      StartKeepsInv(st, size);
      InvConserves(Started(st, size));
    } else {
      var r :| r in st.pools && st.pools[r] != [];
      StartLoses(st, size, r, 0);
    }
  }

  // ----- Stop -----

  function PoolOf(pools: map<RingId, seq<Block>>, r: RingId): seq<Block> {
    if r in pools then pools[r] else []
  }

  /** The contents of the first `i` rings of a slot. */
  function RingsUpTo(pools: map<RingId, seq<Block>>, s: nat, i: nat): seq<Block>
    decreases i
  {
    if i == 0 then [] else RingsUpTo(pools, s, i - 1) + PoolOf(pools, RingId(s, i - 1))
  }

  /** The contents of the first `s` slots, in the order in which Stop visits them. */
  function SlotsUpTo(pools: map<RingId, seq<Block>>, threads: nat, s: nat): seq<Block>
    decreases s
  {
    if s == 0 then [] else SlotsUpTo(pools, threads, s - 1) + RingsUpTo(pools, s - 1, threads)
  }

  function AllPooled(st: State, threads: nat): seq<Block> {
    SlotsUpTo(st.pools, threads, MAX_SLOT)
  }

  /** Stop frees what is pooled. The rings keep their contents and counts. */
  function Stopped(st: State, threads: nat): State {
    st.(freed := st.freed + AllPooled(st, threads))
  }

  /** The block is pooled, in a slot before `s`, or in slot `s` and a ring before `i`. */
  predicate PooledBefore(st: State, s: nat, i: nat, b: Block) {
    && b in st.place && st.place[b].Pooled?
    && (st.place[b].r.slot < s || (st.place[b].r.slot == s && st.place[b].r.i < i))
  }

  lemma RingDistinct(st: State, r: RingId)
    requires Placed(st) && r in st.pools
    ensures Distinct(st.pools[r])
    ensures forall p | 0 <= p < |st.pools[r]| :: st.pools[r][p] in st.place && st.place[st.pools[r][p]] == Pooled(r, p)
  {
    forall p | 0 <= p < |st.pools[r]|
      ensures st.pools[r][p] in st.place && st.place[st.pools[r][p]] == Pooled(r, p)
    {
      assert IsAt(st, st.pools[r][p], Pooled(r, p));
    }
  }

  lemma {:induction false} RingsDistinct(st: State, s: nat, i: nat)
    requires Placed(st)
    ensures Distinct(RingsUpTo(st.pools, s, i))
    ensures forall b | b in RingsUpTo(st.pools, s, i) :: PooledBefore(st, s, i, b) && st.place[b].r.slot == s
    ensures forall r | r in st.pools && r.slot == s && r.i < i ::
              forall b | b in st.pools[r] :: b in RingsUpTo(st.pools, s, i)
    decreases i
  {
    if i > 0 {
      RingsDistinct(st, s, i - 1);
      var r := RingId(s, i - 1);
      if r in st.pools {
        RingDistinct(st, r);
      }
      DistinctAppend(RingsUpTo(st.pools, s, i - 1), PoolOf(st.pools, r));
    }
  }

  lemma {:induction false} SlotsDistinct(st: State, threads: nat, s: nat)
    requires Placed(st)
    ensures Distinct(SlotsUpTo(st.pools, threads, s))
    ensures forall b | b in SlotsUpTo(st.pools, threads, s) :: PooledBefore(st, s, 0, b)
    ensures forall r | r in st.pools && r.slot < s && r.i < threads ::
              forall b | b in st.pools[r] :: b in SlotsUpTo(st.pools, threads, s)
    decreases s
  {
    if s > 0 {
      SlotsDistinct(st, threads, s - 1);
      RingsDistinct(st, s - 1, threads);
      DistinctAppend(SlotsUpTo(st.pools, threads, s - 1), RingsUpTo(st.pools, s - 1, threads));
    }
  }

  /** What Stop frees is what is pooled, each block once. */
  lemma AllPooledIff(st: State, threads: nat, b: Block)
    requires Placed(st) && st.pools.Keys == Grid(threads)
    ensures Distinct(AllPooled(st, threads))
    ensures b in AllPooled(st, threads) <==> b in st.place && st.place[b].Pooled?
  {
    SlotsDistinct(st, threads, MAX_SLOT);
    if b in st.place && st.place[b].Pooled? {
      var w := st.place[b];
      assert IsAt(st, b, w);
      assert b in st.pools[w.r];
    }
  }

  /** With no call in progress a block is held, pooled or freed, as the bookkeeping says. */
  lemma WhereIs(st: State, b: Block)
    requires Placed(st) && Named(st) && st.calls == map[]
    ensures b in st.held <==> b in st.place && st.place[b] == Held
    ensures b in st.freed <==> b in st.place && st.place[b] == Freed
    ensures b in st.place ==> !st.place[b].InCall?
    ensures b in st.place <==> 1 <= b < st.next
  {
    assert IsAt(st, b, Held) <==> b in st.place && st.place[b] == Held;
    assert IsAt(st, b, Freed) <==> b in st.place && st.place[b] == Freed;
    if b in st.place {
      assert IsAt(st, b, st.place[b]);
    }
  }

  /** A Stop with no call in progress leaves every block freed once or held. */
  lemma StopFreesOnce(st: State, threads: nat)
    requires Inv(st) && st.pools.Keys == Grid(threads) && st.calls == map[]
    ensures Distinct(Stopped(st, threads).freed)
    ensures forall b: Block :: b in Stopped(st, threads).freed || b in st.held <==> 1 <= b < st.next
    ensures forall b | b in st.held :: b !in Stopped(st, threads).freed
  {
    forall b: Block
      ensures b in Stopped(st, threads).freed || b in st.held <==> 1 <= b < st.next
      ensures !(b in st.held && b in Stopped(st, threads).freed)
      ensures !(b in st.freed && b in AllPooled(st, threads))
    {
      AllPooledIff(st, threads, b);
      WhereIs(st, b);
    }
    AllPooledIff(st, threads, 0);
    DistinctAppend(st.freed, AllPooled(st, threads));
  }

  /** Freeing the same blocks twice is no repetition exactly when there are none. */
  lemma FreedTwice(freed: seq<Block>, pooled: seq<Block>)
    requires Distinct(freed)
    ensures Distinct((freed + pooled) + pooled) <==> pooled == []
  {
    var f := (freed + pooled) + pooled;
    if pooled != [] {
      assert f[|freed|] == pooled[0] == f[|freed| + |pooled|];
    } else {
      assert f == freed;
    }
  }
}
