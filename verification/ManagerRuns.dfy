/** Calls of AllocateManager, one after the other, as runs of the interleaved machine by one
    thread. The rings of the object, its heap and what its clients hold are the state of that
    machine in another shape; the lemmas here carry each call from one state the machine
    reaches to another, so that what is proved of every run holds of the object. */
module ManagerRuns {
  import opened SizeClasses
  import opened Words
  import opened InterleavedAllocator
  import opened OneClient
  import Ring = RingBuffer
  import Spec = Allocator
  import PoolSafety

  type Container = seq<seq<Ring.State>>

  predicate Shaped(c: Container, threads: nat) {
    |c| == MAX_SLOT && forall s | 0 <= s < |c| :: |c[s]| == threads
  }

  function RingMap(c: Container, threads: nat): map<RingId, Ring.State>
    requires Shaped(c, threads)
  {
    map r | r in Grid(threads) :: c[r.slot][r.i]
  }

  predicate AllIdle(c: Container) {
    forall s, i | 0 <= s < |c| && 0 <= i < |c[s]| :: Idle(c[s][i])
  }

  lemma SetRing(c: Container, threads: nat, s: nat, i: nat, ring: Ring.State)
    requires Shaped(c, threads) && AllIdle(c) && s < MAX_SLOT && i < threads && Idle(ring)
    ensures Shaped(c[s := c[s][i := ring]], threads) && AllIdle(c[s := c[s][i := ring]])
    ensures RingMap(c[s := c[s][i := ring]], threads) == RingMap(c, threads)[RingId(s, i) := ring]
  {
  }

  /** The ring can be taken and has room. */
  predicate Takes(ring: Ring.State) {
    ring.signal == 1 && ring.cur < |ring.data|
  }

  /** The first ring from `i` on that takes a block, or the number of rings. */
  function FirstTaker(rings: seq<Ring.State>, i: nat): (r: nat)
    requires i <= |rings|
    ensures i <= r <= |rings| && (forall j | i <= j < r :: !Takes(rings[j])) && (r < |rings| ==> Takes(rings[r]))
    decreases |rings| - i
  {
    if i == |rings| || Takes(rings[i]) then i else FirstTaker(rings, i + 1)
  }

  /** The first ring of the slot for `n` bytes that takes a block. */
  function TakerOf(c: Container, n: Size): nat {
    if SlotOf(n) < |c| then FirstTaker(c[SlotOf(n)], 0) else 0
  }

  /** Ring `i` of slot `s` has taken `b` on top; nothing else has changed. */
  predicate StoredAt(c: Container, d: Container, s: nat, i: nat, b: Block) {
    && s < |c| && i < |c[s]| && s < |d| && i < |d[s]|
    && d == c[s := c[s][i := d[s][i]]]
    && Ring.Contents(d[s][i]) == Ring.Contents(c[s][i]) + [b]
  }

  lemma StoresAt(c: Container, s: nat, i: nat, b: Block)
    requires s < |c| && i < |c[s]| && Takes(c[s][i])
    ensures StoredAt(c, c[s := c[s][i := Ring.PushOf(Ring.AsWritten, c[s][i], b).0]], s, i, b)
  {
  }

  lemma SameContainer(c: Container, s: nat, i: nat)
    requires s < |c| && i < |c[s]|
    ensures c[s := c[s][i := c[s][i]]] == c
  {
    assert c[s][i := c[s][i]] == c[s];
  }

  lemma InitialContainer(threads: nat, size: nat)
    ensures var c := seq(MAX_SLOT, _ => seq(threads, _ => Ring.Initial(1, 0)));
            Shaped(c, threads) && AllIdle(c) && RingMap(c, threads) == Initial(threads, size).rings
  {
    var c := seq(MAX_SLOT, _ => seq(threads, _ => Ring.Initial(1, 0)));
    forall s, i | 0 <= s < |c| && 0 <= i < |c[s]| ensures c[s][i] == Ring.Initial(1, 0) {
    }
  }

  // ----- What thread 0 alone does -----

  function Reach(threads: nat, size: nat, es: seq<Event>): State {
    Run(Ring.AsWritten, Initial(threads, size), es)
  }

  lemma ReachMore(threads: nat, size: nat, es: seq<Event>, more: seq<Event>)
    ensures Reach(threads, size, es + more) == Run(Ring.AsWritten, Reach(threads, size, es), more)
  {
    RunAppend(Ring.AsWritten, Initial(threads, size), es, more);
  }

  lemma ReachNext(threads: nat, size: nat, es: seq<Event>, e: Event)
    ensures Reach(threads, size, es + [e]) == Next(Ring.AsWritten, Reach(threads, size, es), e)
  {
    ReachMore(threads, size, es, [e]);
    RunOne(Ring.AsWritten, Reach(threads, size, es), e);
  }

  lemma StoredNotNull(threads: nat, size: nat, es: seq<Event>, r: RingId)
    requires r in Reach(threads, size, es).rings
    ensures 0 !in Ring.Contents(Reach(threads, size, es).rings[r])
  {
    var st := Reach(threads, size, es);
    Linearises(Ring.AsWritten, threads, size, es);
    Spec.PooledNotNull(Abs(st), r);
    assert Abs(st).pools[r] == Ring.Contents(st.rings[r]);
  }

  /** Names handed out are not null, and the next one is new. */
  lemma HeldNames(threads: nat, size: nat, es: seq<Event>, st: State)
    requires st == Reach(threads, size, es)
    ensures 0 !in st.held && st.next != 0 && st.next !in st.held && st.next !in st.caps
    ensures st.next == |st.given| + 1
  {
    Linearises(Ring.AsWritten, threads, size, es);
    Spec.NextNowhere(Abs(st), Spec.Held);
    Spec.NullNowhere(Abs(st), Spec.Held);
    PoolSafety.NothingIsReused(threads, size, es);
  }

  lemma AsksIsRun(threads: nat, size: nat, es: seq<Event>, n: Size)
    requires Reach(threads, size, es).calls == map[]
    ensures Reach(threads, size, es + [Event.Allocate(0, n)])
         == Reach(threads, size, es).(calls := map[0 := Get(n, 0)])
  {
    ReachNext(threads, size, es, Event.Allocate(0, n));
    assert map[][0 := Get(n, 0)] == map[0 := Get(n, 0)];
  }

  lemma ReleasesIsRun(threads: nat, size: nat, es: seq<Event>, b: Block)
    requires Reach(threads, size, es).calls == map[] && b in Reach(threads, size, es).held
    ensures var st := Reach(threads, size, es);
            Reach(threads, size, es + [Release(0, b)])
            == st.(calls := map[0 := Put(st.held[b], b, 0)], held := st.held - {b},
                   place := st.place[b := Spec.InCall(0)])
  {
    var c := Put(Reach(threads, size, es).held[b], b, 0);
    ReachNext(threads, size, es, Release(0, b));
    assert map[][0 := c] == map[0 := c];
  }

  lemma MallocIsRun(threads: nat, size: nat, es: seq<Event>, n: Size, i: nat, bytes: nat, st: State)
    requires st == Reach(threads, size, es) && bytes == Capacity(n)
    requires st.calls == map[0 := Get(n, i)] && RingId(SlotOf(n), i) !in st.rings
    ensures Reach(threads, size, es + [Step(0)])
         == State(st.size, st.rings, st.room, map[], st.held[st.next := n], st.next + 1, st.caps[st.next := bytes],
                  st.freed, st.given + [st.next], st.place[st.next := Spec.Held])
  {
    ReachNext(threads, size, es, Step(0));
    assert map[0 := Get(n, i)] - {0} == map[];
  }

  lemma FreeIsRun(threads: nat, size: nat, es: seq<Event>, n: Size, b: Block, i: nat)
    requires var st := Reach(threads, size, es);
             st.calls == map[0 := Put(n, b, i)] && RingId(SlotOf(n), i) !in st.rings
    ensures var st := Reach(threads, size, es);
            Reach(threads, size, es + [Step(0)])
            == st.(calls := map[], freed := st.freed + [b], place := st.place[b := Spec.Freed])
  {
    ReachNext(threads, size, es, Step(0));
    assert map[0 := Put(n, b, i)] - {0} == map[];
  }

  /** The container is that of the state thread 0 has reached, and thread 0 is at a ring. */
  predicate AtRing(threads: nat, size: nat, es: seq<Event>, c: Container, req: Request) {
    && Shaped(c, threads) && AllIdle(c)
    && Reach(threads, size, es).rings == RingMap(c, threads)
    && Reach(threads, size, es).calls == map[0 := req]
    && SlotOf(req.n) < MAX_SLOT && req.i < threads
  }

  lemma AtItsRing(threads: nat, size: nat, es: seq<Event>, c: Container, req: Request)
    requires AtRing(threads, size, es, c, req)
    ensures At(Reach(threads, size, es), req)
    ensures Reach(threads, size, es).rings[RingOf(req)] == c[SlotOf(req.n)][req.i]
  {
  }

  lemma PopReaches(threads: nat, size: nat, es: seq<Event>, req: Request)
    requires req.Get? && At(Reach(threads, size, es), req)
    ensures var st := Reach(threads, size, es);
            Reach(threads, size, es + Steps(PopSteps(st.rings[RingOf(req)]))) == AfterPop(st, req)
  {
    var st := Reach(threads, size, es);
    StoredNotNull(threads, size, es, RingOf(req));
    SoloPop(Ring.AsWritten, st, req);
    ReachMore(threads, size, es, Steps(PopSteps(st.rings[RingOf(req)])));
  }

  lemma PushReaches(threads: nat, size: nat, es: seq<Event>, req: Request)
    requires req.Put? && At(Reach(threads, size, es), req)
    ensures var st := Reach(threads, size, es);
            Reach(threads, size, es + Steps(PushSteps(st.rings[RingOf(req)]))) == AfterPush(Ring.AsWritten, st, req)
  {
    var st := Reach(threads, size, es);
    SoloPush(Ring.AsWritten, st, req);
    ReachMore(threads, size, es, Steps(PushSteps(st.rings[RingOf(req)])));
  }

  lemma AfterPopIs(st: State, c: Container, threads: nat, n: Size, i: nat)
    requires Shaped(c, threads) && AllIdle(c) && st.rings == RingMap(c, threads)
    requires SlotOf(n) < MAX_SLOT && i < threads && At(st, Get(n, i))
    ensures var s := SlotOf(n);
            var (ring', p) := Ring.PopOf(c[s][i]);
            var d := c[s := c[s][i := ring']];
            && Shaped(d, threads) && AllIdle(d)
            && AfterPop(st, Get(n, i))
               == if p != 0 then st.(rings := RingMap(d, threads), calls := map[], held := st.held[p := n],
                                     given := st.given + [p], place := st.place[p := Spec.Held])
                  else st.(rings := RingMap(d, threads), calls := map[0 := Get(n, i + 1)])
  {
    SetRing(c, threads, SlotOf(n), i, Ring.PopOf(c[SlotOf(n)][i]).0);
  }

  lemma PopIsRun(threads: nat, size: nat, es: seq<Event>, c: Container, n: Size, i: nat)
    requires AtRing(threads, size, es, c, Get(n, i))
    ensures var s := SlotOf(n);
            var (ring', p) := Ring.PopOf(c[s][i]);
            var d := c[s := c[s][i := ring']];
            var st := Reach(threads, size, es);
            && Shaped(d, threads) && AllIdle(d)
            && Reach(threads, size, es + Steps(PopSteps(c[s][i])))
               == if p != 0 then st.(rings := RingMap(d, threads), calls := map[], held := st.held[p := n],
                                     given := st.given + [p], place := st.place[p := Spec.Held])
                  else st.(rings := RingMap(d, threads), calls := map[0 := Get(n, i + 1)])
  {
    AtItsRing(threads, size, es, c, Get(n, i));
    PopReaches(threads, size, es, Get(n, i));
    AfterPopIs(Reach(threads, size, es), c, threads, n, i);
  }

  /** A pop that gives nothing changes nothing. */
  lemma PopInVain(threads: nat, size: nat, es: seq<Event>, c: Container, n: Size, i: nat)
    requires AtRing(threads, size, es, c, Get(n, i))
    ensures var (ring', p) := Ring.PopOf(c[SlotOf(n)][i]); p == 0 ==> ring' == c[SlotOf(n)][i]
  {
    var ring := c[SlotOf(n)][i];
    assert Reach(threads, size, es).rings[RingOf(Get(n, i))] == ring && Idle(ring);
    StoredNotNull(threads, size, es, RingOf(Get(n, i)));
    assert ring.cur > 0 ==> Ring.Contents(ring)[ring.cur - 1] == ring.data[ring.cur - 1];
  }

  lemma AfterPushIs(st: State, c: Container, threads: nat, n: Size, b: Block, i: nat)
    requires Shaped(c, threads) && AllIdle(c) && st.rings == RingMap(c, threads)
    requires SlotOf(n) < MAX_SLOT && i < threads && At(st, Put(n, b, i))
    ensures var s := SlotOf(n);
            var (ring', ok) := Ring.PushOf(Ring.AsWritten, c[s][i], b);
            var d := c[s := c[s][i := ring']];
            && Shaped(d, threads) && AllIdle(d)
            && AfterPush(Ring.AsWritten, st, Put(n, b, i))
               == if ok then st.(rings := RingMap(d, threads), calls := map[],
                                 place := st.place[b := Spec.Pooled(RingId(s, i), c[s][i].cur)])
                  else st.(rings := RingMap(d, threads), calls := map[0 := Put(n, b, i + 1)])
  {
    SetRing(c, threads, SlotOf(n), i, Ring.PushOf(Ring.AsWritten, c[SlotOf(n)][i], b).0);
  }

  lemma PushIsRun(threads: nat, size: nat, es: seq<Event>, c: Container, n: Size, b: Block, i: nat)
    requires AtRing(threads, size, es, c, Put(n, b, i))
    ensures var s := SlotOf(n);
            var (ring', ok) := Ring.PushOf(Ring.AsWritten, c[s][i], b);
            var d := c[s := c[s][i := ring']];
            var st := Reach(threads, size, es);
            && Shaped(d, threads) && AllIdle(d)
            && Reach(threads, size, es + Steps(PushSteps(c[s][i])))
               == if ok then st.(rings := RingMap(d, threads), calls := map[],
                                 place := st.place[b := Spec.Pooled(RingId(s, i), c[s][i].cur)])
                  else st.(rings := RingMap(d, threads), calls := map[0 := Put(n, b, i + 1)])
  {
    AtItsRing(threads, size, es, c, Put(n, b, i));
    PushReaches(threads, size, es, Put(n, b, i));
    AfterPushIs(Reach(threads, size, es), c, threads, n, b, i);
  }

  /** The block handed out last is the one malloc named last, and large enough. */
  lemma LastIsNew(threads: nat, size: nat, es: seq<Event>, st: State, given: seq<Block>, b: Block)
    requires st == Reach(threads, size, es) && st.given == given + [b] && b in st.held
    ensures b == |given| + 1 && st.next == b + 1
    ensures b in st.caps && st.held[b] <= st.caps[b]
    ensures st.caps[b] == if st.held[b] <= 0x8000 then Pow2(SlotOf(st.held[b])) else st.held[b]
  {
    PoolSafety.NothingIsReused(threads, size, es);
    PoolSafety.SizesFit(Ring.AsWritten, threads, size, es);
    assert (given + [b])[|given|] == b;
  }

  /** The rings with fresh arrays of the given size. */
  function Arrays(rings: seq<Ring.State>, size: nat): (r: seq<Ring.State>)
    ensures |r| == |rings|
    ensures forall i | 0 <= i < |rings| :: r[i] == rings[i].(data := seq(size, _ => 0))
  {
    seq(|rings|, i requires 0 <= i < |rings| => rings[i].(data := seq(size, _ => 0)))
  }

  /** A new zeroed array under the same counts, if there is a size. */
  predicate Renewed(before: Ring.State, after: Ring.State, size: nat) {
    && after.cur == before.cur && after.signal == before.signal
    && if size > 0 then |after.data| == size && (forall k | 0 <= k < size :: after.data[k] == 0)
       else after.data == before.data
  }

  lemma ArraysEverywhere(c: Container, d: Container, threads: nat, st: State)
    requires Shaped(c, threads) && |d| == |c| && st.rings == RingMap(c, threads)
    requires forall s | 0 <= s < |c| :: d[s] == Arrays(c[s], st.size)
    requires AllIdle(c) && RoomForAll(st)
    ensures Shaped(d, threads) && AllIdle(d) && RingMap(d, threads) == Started(st).rings
  {
    forall s, i | 0 <= s < |d| && 0 <= i < |d[s]| ensures Idle(d[s][i]) {
      assert st.rings[RingId(s, i)] == c[s][i];
    }
  }

  lemma StoredFits(threads: nat, size: nat, es: seq<Event>, st: State)
    requires size > 0 && st == Reach(threads, size, es)
    ensures RoomForAll(st)
  {
    Linearises(Ring.AsWritten, threads, size, es);
    StartSound(Ring.AsWritten, st);
  }

  lemma StartIsRun(threads: nat, size: nat, es: seq<Event>, st: State)
    requires size > 0 && st == Reach(threads, size, es)
    ensures NothingPooled(st) ==> Reach(threads, size, es + [Event.Start]) == Started(st)
  {
    Linearises(Ring.AsWritten, threads, size, es);
    ReachNext(threads, size, es, Event.Start);
  }

  lemma RingsNext(base: seq<Block>, pools: map<RingId, seq<Block>>, s: nat, i: nat)
    requires RingId(s, i) in pools
    ensures base + Spec.RingsUpTo(pools, s, i + 1) == (base + Spec.RingsUpTo(pools, s, i)) + pools[RingId(s, i)]
  {
  }

  lemma SlotsNext(base: seq<Block>, pools: map<RingId, seq<Block>>, threads: nat, s: nat)
    ensures base + Spec.SlotsUpTo(pools, threads, s + 1)
         == (base + Spec.SlotsUpTo(pools, threads, s)) + Spec.RingsUpTo(pools, s, threads)
  {
  }
}
