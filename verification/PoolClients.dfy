/** The clients of the allocator, any number of them on one manager: handler allocators with
    their inline block, and simple buffers. Their calls interleave at every step. */
module PoolClients {
  import opened SizeClasses
  import Ring = RingBuffer
  import Pool = InterleavedAllocator
  import PoolSafety

  type Tid = nat
  type Cid = nat

  /** The address of the inline storage, or a block of the pool. */
  datatype Pointer = Inline | Pooled(b: Block)

  datatype Client =
    | Handler(in_use_: bool, live: map<Pointer, Size>, storage: nat)  // live requests; size of the inline memory
    | Buffer(data_: Block, len_: Size)                                // data_ is null until it is constructed

  datatype State = State(
    pool: Pool.State,
    clients: map<Cid, Client>,
    waiting: map<Tid, Cid>)      // for whom a thread is in Allocate

  datatype Event =
    | NewHandler(c: Cid)
    | HandlerAllocate(c: Cid, tid: Tid, n: Size)
    | HandlerDeallocate(c: Cid, tid: Tid, p: Pointer)
    | Construct(c: Cid, tid: Tid, l: Size)
    | Destroy(c: Cid, tid: Tid)
    | Step(tid: Tid)
    | Start

  function Initial(threads: nat, size: nat): State {
    State(Pool.Initial(threads, size), map[], map[])
  }

  /** A handler allocator as it is constructed, with aligned_storage<1024>. */
  function NewClient(): Client {
    Handler(false, map[], 1024)
  }

  function Ask(w: Ring.Leaving, st: State, c: Cid, tid: Tid, n: Size): State {
    st.(pool := Pool.Next(w, st.pool, Pool.Allocate(tid, n)), waiting := st.waiting[tid := c])
  }

  /** The client gives a block back with the size it has noted. */
  function GiveBack(w: Ring.Leaving, st: State, tid: Tid, b: Block): State {
    st.(pool := Pool.Next(w, st.pool, Pool.Release(tid, b)))
  }

  function SetClient(st: State, c: Cid, client: Client): State {
    st.(clients := st.clients[c := client])
  }

  /** The result of Allocate reaches the client. */
  function Receive(client: Client, b: Block, n: Size): Client {
    match client
    case Handler(in_use_, live, storage) => Handler(in_use_, live[Pooled(b) := n], storage)
    case Buffer(_, _) => Buffer(b, n)
  }

  function StepOf(w: Ring.Leaving, st: State, tid: Tid): State {
    var stepped := st.(pool := Pool.Next(w, st.pool, Pool.Step(tid)));
    if Pool.Gives(st.pool, tid) && tid in st.waiting && st.waiting[tid] in st.clients then
      var c := st.waiting[tid];
      SetClient(stepped, c, Receive(st.clients[c], Pool.GivenBlock(st.pool, tid), st.pool.calls[tid].n))
        .(waiting := st.waiting - {tid})
    else stepped
  }

  function Next(w: Ring.Leaving, st: State, e: Event): State {
    match e
    case NewHandler(c) =>
      if c in st.clients then st else SetClient(st, c, NewClient())
    case HandlerAllocate(c, tid, n) =>
      if c !in st.clients || !st.clients[c].Handler? then st
      else if !st.clients[c].in_use_ && n < st.clients[c].storage then
        SetClient(st, c, st.clients[c].(in_use_ := true, live := st.clients[c].live[Inline := n]))
      else if tid in st.pool.calls then st
      else Ask(w, st, c, tid, n)
    case HandlerDeallocate(c, tid, p) =>
      if c !in st.clients || !st.clients[c].Handler? || p !in st.clients[c].live then st
      else if p == Inline then SetClient(st, c, st.clients[c].(in_use_ := false, live := st.clients[c].live - {p}))
      else if tid in st.pool.calls then st
      else SetClient(GiveBack(w, st, tid, p.b), c, st.clients[c].(live := st.clients[c].live - {p}))
    case Construct(c, tid, l) =>
      if c in st.clients || tid in st.pool.calls || l == 0 then st
      else SetClient(Ask(w, st, c, tid, l), c, Buffer(0, l))
    case Destroy(c, tid) =>
      if c !in st.clients || !st.clients[c].Buffer? || st.clients[c].data_ == 0 || tid in st.pool.calls then st
      else GiveBack(w, st, tid, st.clients[c].data_).(clients := st.clients - {c})
    case Step(tid) => StepOf(w, st, tid)
    case Start => st.(pool := Pool.Next(w, st.pool, Pool.Start))
  }

  function Run(w: Ring.Leaving, st: State, es: seq<Event>): State
    decreases |es|
  {
    if es == [] then st else Run(w, Next(w, st, es[0]), es[1..])
  }

  // ----- The invariant -----

  /** The block is the client's, for a request of `n` bytes. */
  predicate Has(client: Client, b: Block, n: Size) {
    match client
    case Handler(_, live, _) => Pooled(b) in live && live[Pooled(b)] == n
    case Buffer(data_, len_) => b != 0 && data_ == b && len_ == n
  }

  predicate Owns(client: Client, b: Block) {
    match client
    case Handler(_, live, _) => Pooled(b) in live
    case Buffer(data_, _) => b != 0 && data_ == b
  }

  /** What a client has it may give back, with the size it has noted. */
  ghost predicate Entitled(st: State) {
    forall c, b | c in st.clients && Owns(st.clients[c], b) ::
      b in st.pool.held && Has(st.clients[c], b, st.pool.held[b])
  }

  ghost predicate Disjoint(st: State) {
    forall c, d, b | c in st.clients && d in st.clients && Owns(st.clients[c], b) && Owns(st.clients[d], b) :: c == d
  }

  ghost predicate OwnedBy(st: State, b: Block) {
    exists c :: c in st.clients && Owns(st.clients[c], b)
  }

  ghost predicate NoneLost(st: State) {
    forall b | b in st.pool.held :: OwnedBy(st, b)
  }

  /** The inline storage is in use exactly for its one live request, which fits it. */
  predicate InlineFits(client: Client) {
    client.Handler? ==>
      && (client.in_use_ <==> Inline in client.live)
      && client.storage == 1024
      && (Inline in client.live ==> client.live[Inline] < client.storage)
  }

  predicate InlineOnce(st: State) {
    forall c | c in st.clients :: InlineFits(st.clients[c])
  }

  /** Threads in Allocate wait for a client, and those for a buffer for one that has no block
      yet and that nobody else constructs. */
  predicate Waiting(st: State) {
    && (forall tid | tid in st.pool.calls && st.pool.calls[tid].Get? ::
         && tid in st.waiting && st.waiting[tid] in st.clients
         && (st.clients[st.waiting[tid]].Buffer? ==> st.clients[st.waiting[tid]] == Buffer(0, st.pool.calls[tid].n)))
    && (forall tid | tid in st.waiting :: tid in st.pool.calls && st.pool.calls[tid].Get?)
    && (forall t, u | t in st.waiting && u in st.waiting && st.waiting[t] == st.waiting[u]
                      && st.waiting[t] in st.clients && st.clients[st.waiting[t]].Buffer? :: t == u)
  }

  ghost predicate Inv(st: State) {
    Entitled(st) && Disjoint(st) && NoneLost(st) && InlineOnce(st) && Waiting(st)
  }

  // ----- Steps of the clients alone -----

  /** The client has the same blocks as before, if it was there. */
  ghost predicate SameBlocks(st: State, c: Cid, client: Client) {
    && (forall b :: Owns(client, b) <==> c in st.clients && Owns(st.clients[c], b))
    && (forall b, n :: Has(client, b, n) <==> c in st.clients && Has(st.clients[c], b, n))
  }

  lemma SetClientKeepsInv(st: State, c: Cid, client: Client)
    requires Inv(st) && SameBlocks(st, c, client)
    requires client.Handler? && (c in st.clients ==> st.clients[c].Handler?)
    requires InlineFits(client)
    ensures Inv(SetClient(st, c, client))
  {
    var st' := SetClient(st, c, client);
    forall b | b in st'.pool.held ensures OwnedBy(st', b) {
      assert OwnedBy(st, b);
      var d :| d in st.clients && Owns(st.clients[d], b);
      assert d in st'.clients && Owns(st'.clients[d], b);
    }
  }

  // ----- Asking for a block -----

  /** A thread enters Allocate for a client. */
  ghost predicate Asked(pool: Pool.State, pool': Pool.State, tid: Tid, n: Size) {
    tid !in pool.calls && pool'.held == pool.held && pool'.calls == pool.calls[tid := Pool.Get(n, 0)]
  }

  lemma HandlerAskKeepsInv(st: State, st': State, c: Cid, tid: Tid, n: Size)
    requires Inv(st) && c in st.clients && st.clients[c].Handler?
    requires Asked(st.pool, st'.pool, tid, n)
    requires st'.clients == st.clients && st'.waiting == st.waiting[tid := c]
    ensures Inv(st')
  {
    forall b | b in st'.pool.held ensures OwnedBy(st', b) {
      assert OwnedBy(st, b);
    }
  }

  lemma ConstructKeepsInv(st: State, st': State, c: Cid, tid: Tid, n: Size)
    requires Inv(st) && c !in st.clients
    requires Asked(st.pool, st'.pool, tid, n)
    requires st'.clients == st.clients[c := Buffer(0, n)] && st'.waiting == st.waiting[tid := c]
    ensures Inv(st')
  {
    forall b | b in st'.pool.held ensures OwnedBy(st', b) {
      assert OwnedBy(st, b);
      var d :| d in st.clients && Owns(st.clients[d], b);
      assert d in st'.clients && Owns(st'.clients[d], b);
    }
    forall t | t in st.waiting ensures st.waiting[t] != c {
      assert st.waiting[t] in st.clients;
    }
  }

  // ----- Giving a block back -----

  ghost predicate Released(pool: Pool.State, pool': Pool.State, tid: Tid, b: Block) {
    && tid !in pool.calls && b in pool.held
    && pool'.held == pool.held - {b}
    && pool'.calls.Keys == pool.calls.Keys + {tid} && pool'.calls[tid].Put?
    && forall u | u in pool.calls :: pool'.calls[u] == pool.calls[u]
  }

  /** Client `c` has lost `b` and nothing else, or is gone with it. */
  ghost predicate Loses(st: State, st': State, c: Cid, b: Block) {
    && c in st.clients && Owns(st.clients[c], b)
    && (forall d | d != c ::
         (d in st'.clients <==> d in st.clients) && (d in st.clients ==> st'.clients[d] == st.clients[d]))
    && (c in st'.clients ==>
         && (forall a :: Owns(st'.clients[c], a) <==> a != b && Owns(st.clients[c], a))
         && (forall a, n | a != b :: Has(st'.clients[c], a, n) <==> Has(st.clients[c], a, n)))
    && (c !in st'.clients ==> forall a :: Owns(st.clients[c], a) <==> a == b)
  }

  lemma LosesKeepsEntitled(st: State, st': State, c: Cid, b: Block)
    requires Entitled(st) && Disjoint(st) && Loses(st, st', c, b)
    requires st'.pool.held == st.pool.held - {b}
    ensures Entitled(st') && Disjoint(st')
  {
    forall d, a | d in st'.clients && Owns(st'.clients[d], a)
      ensures d in st.clients && Owns(st.clients[d], a) && a != b && Has(st'.clients[d], a, st.pool.held[a])
    {
      assert Owns(st.clients[d], a);
    }
  }

  lemma LosesKeepsOthers(st: State, st': State, c: Cid, b: Block)
    requires NoneLost(st) && Loses(st, st', c, b)
    requires st'.pool.held == st.pool.held - {b}
    ensures NoneLost(st')
  {
    forall a | a in st'.pool.held ensures OwnedBy(st', a) {
      assert OwnedBy(st, a);
      var d :| d in st.clients && Owns(st.clients[d], a);
      assert d in st'.clients && Owns(st'.clients[d], a);
    }
  }

  lemma LosesKeepsWaiting(st: State, st': State, tid: Tid, c: Cid, b: Block)
    requires Waiting(st) && Released(st.pool, st'.pool, tid, b) && st'.waiting == st.waiting
    requires Loses(st, st', c, b) && (st.clients[c].Buffer? ==> c !in st'.clients)
    requires st.clients[c].Handler? ==> c in st'.clients && st'.clients[c].Handler?
    ensures Waiting(st')
  {
    if st.clients[c].Buffer? {
      assert st.clients[c].data_ != 0;
      forall t | t in st.waiting ensures st.waiting[t] != c {
        assert st.pool.calls[t].Get?;
      }
    }
  }

  // ----- Receiving a block -----

  lemma ReceiveOwns(client: Client, b: Block, n: Size, a: Block)
    requires b != 0 && (client.Buffer? ==> client.data_ == 0)
    ensures Owns(Receive(client, b, n), a) <==> a == b || Owns(client, a)
    ensures forall k :: Has(Receive(client, b, n), a, k) <==> if a == b then k == n else Has(client, a, k)
  {
  }

  /** Thread `tid` brings `b` to the client that waits for it. */
  ghost predicate Receives(st: State, st': State, c: Cid, b: Block, n: Size) {
    && b != 0 && b !in st.pool.held && st'.pool.held == st.pool.held[b := n]
    && c in st.clients && (st.clients[c].Buffer? ==> st.clients[c].data_ == 0)
    && st'.clients == st.clients[c := Receive(st.clients[c], b, n)]
  }

  lemma ReceiveKeepsEntitled(st: State, st': State, c: Cid, b: Block, n: Size)
    requires Entitled(st) && Receives(st, st', c, b, n)
    ensures Entitled(st')
  {
    forall d, a | d in st'.clients && Owns(st'.clients[d], a)
      ensures a in st'.pool.held && Has(st'.clients[d], a, st'.pool.held[a])
    {
      ReceiveOwns(st.clients[c], b, n, a);
    }
  }

  lemma ReceiveKeepsDisjoint(st: State, st': State, c: Cid, b: Block, n: Size)
    requires Entitled(st) && Disjoint(st) && Receives(st, st', c, b, n)
    ensures Disjoint(st')
  {
    forall d, e, a | d in st'.clients && e in st'.clients && Owns(st'.clients[d], a) && Owns(st'.clients[e], a)
      ensures d == e
    {
      ReceiveOwns(st.clients[c], b, n, a);
    }
  }

  lemma ReceiveKeepsOthers(st: State, st': State, c: Cid, b: Block, n: Size)
    requires NoneLost(st) && Receives(st, st', c, b, n)
    ensures NoneLost(st')
  {
    forall a | a in st'.pool.held ensures OwnedBy(st', a) {
      ReceiveOwns(st.clients[c], b, n, a);
      if a == b {
        assert c in st'.clients && Owns(st'.clients[c], b);
      } else {
        assert OwnedBy(st, a);
        var d :| d in st.clients && Owns(st.clients[d], a);
        assert d in st'.clients && Owns(st'.clients[d], a);
      }
    }
  }

  /** The call of `tid` goes on, or ends. */
  ghost predicate Advances(pool: Pool.State, pool': Pool.State, tid: Tid) {
    && tid in pool.calls
    && (forall u | u != tid ::
         (u in pool'.calls <==> u in pool.calls) && (u in pool.calls ==> pool'.calls[u] == pool.calls[u]))
    && (tid in pool'.calls ==> pool'.calls[tid].Get? == pool.calls[tid].Get? && pool'.calls[tid].n == pool.calls[tid].n)
  }

  lemma ReceiveKeepsWaiting(st: State, st': State, tid: Tid, c: Cid, b: Block, n: Size)
    requires Waiting(st) && Receives(st, st', c, b, n)
    requires Advances(st.pool, st'.pool, tid) && tid !in st'.pool.calls
    requires tid in st.waiting && st.waiting[tid] == c && st'.waiting == st.waiting - {tid}
    ensures Waiting(st')
  {
  }

  lemma AdvanceKeepsInv(st: State, st': State, tid: Tid)
    requires Inv(st) && Advances(st.pool, st'.pool, tid)
    requires st'.pool.held == st.pool.held && st'.clients == st.clients && st'.waiting == st.waiting
    requires st.pool.calls[tid].Get? ==> tid in st'.pool.calls
    ensures Inv(st')
  {
    forall b | b in st'.pool.held ensures OwnedBy(st', b) {
      assert OwnedBy(st, b);
    }
  }

  // ----- Every step keeps the invariant -----

  ghost predicate Reached(w: Ring.Leaving, threads: nat, size: nat, pool: Pool.State) {
    exists es :: pool == Pool.Run(w, Pool.Initial(threads, size), es)
  }

  lemma ReachesNext(w: Ring.Leaving, threads: nat, size: nat, pool: Pool.State, e: Pool.Event)
    requires Reached(w, threads, size, pool)
    ensures Reached(w, threads, size, Pool.Next(w, pool, e))
  {
    var es :| pool == Pool.Run(w, Pool.Initial(threads, size), es);
    Pool.RunOne(w, pool, e);
    Pool.RunAppend(w, Pool.Initial(threads, size), es, [e]);
    assert Pool.Next(w, pool, e) == Pool.Run(w, Pool.Initial(threads, size), es + [e]);
  }

  /** What a client sees of a step of the manager. */
  lemma PoolStep(w: Ring.Leaving, threads: nat, size: nat, pool: Pool.State, tid: Tid)
    requires Reached(w, threads, size, pool) && tid in pool.calls
    ensures var pool' := Pool.Next(w, pool, Pool.Step(tid));
            && Advances(pool, pool', tid)
            && if Pool.Gives(pool, tid) then
                 var b := Pool.GivenBlock(pool, tid);
                 && b != 0 && b !in pool.held && pool'.held == pool.held[b := pool.calls[tid].n]
                 && tid !in pool'.calls
               else pool'.held == pool.held && (pool.calls[tid].Get? ==> tid in pool'.calls)
  {
    var es :| pool == Pool.Run(w, Pool.Initial(threads, size), es);
    Pool.Linearises(w, threads, size, es);
    Pool.StepGives(w, pool, tid);
    Pool.StepOtherCalls(w, pool, tid);
    if Pool.Gives(pool, tid) {
      Pool.GivenUnheld(pool, tid);
    }
  }

  lemma StepKeepsInv(w: Ring.Leaving, threads: nat, size: nat, st: State, tid: Tid)
    requires Inv(st) && Reached(w, threads, size, st.pool)
    ensures Inv(StepOf(w, st, tid))
  {
    if tid in st.pool.calls {
      var st' := StepOf(w, st, tid);
      PoolStep(w, threads, size, st.pool, tid);
      if Pool.Gives(st.pool, tid) {
        var c, b, n := st.waiting[tid], Pool.GivenBlock(st.pool, tid), st.pool.calls[tid].n;
        assert Receives(st, st', c, b, n);
        ReceiveKeepsEntitled(st, st', c, b, n);
        ReceiveKeepsDisjoint(st, st', c, b, n);
        ReceiveKeepsOthers(st, st', c, b, n);
        ReceiveKeepsWaiting(st, st', tid, c, b, n);
      } else {
        AdvanceKeepsInv(st, st', tid);
      }
    }
  }

  lemma GiveBackKeepsInv(w: Ring.Leaving, st: State, st': State, c: Cid, tid: Tid, b: Block)
    requires Inv(st) && tid !in st.pool.calls && Loses(st, st', c, b)
    requires st'.pool == GiveBack(w, st, tid, b).pool && st'.waiting == st.waiting
    requires st.clients[c].Buffer? ==> c !in st'.clients
    requires st.clients[c].Handler? ==> c in st'.clients && st'.clients[c].Handler?
                                        && InlineFits(st'.clients[c])
    ensures Inv(st')
  {
    assert b in st.pool.held;
    LosesKeepsEntitled(st, st', c, b);
    LosesKeepsOthers(st, st', c, b);
    LosesKeepsWaiting(st, st', tid, c, b);
  }

  lemma HandlerAllocateKeepsInv(w: Ring.Leaving, st: State, c: Cid, tid: Tid, n: Size)
    requires Inv(st)
    ensures Inv(Next(w, st, HandlerAllocate(c, tid, n)))
  {
    if c in st.clients && st.clients[c].Handler? {
      if !st.clients[c].in_use_ && n < st.clients[c].storage {
        SetClientKeepsInv(st, c, st.clients[c].(in_use_ := true, live := st.clients[c].live[Inline := n]));
      } else if tid !in st.pool.calls {
        HandlerAskKeepsInv(st, Next(w, st, HandlerAllocate(c, tid, n)), c, tid, n);
      }
    }
  }

  lemma HandlerDeallocateKeepsInv(w: Ring.Leaving, st: State, c: Cid, tid: Tid, p: Pointer)
    requires Inv(st)
    ensures Inv(Next(w, st, HandlerDeallocate(c, tid, p)))
  {
    if c in st.clients && st.clients[c].Handler? && p in st.clients[c].live {
      var client := st.clients[c];
      if p == Inline {
        SetClientKeepsInv(st, c, client.(in_use_ := false, live := client.live - {p}));
      } else if tid !in st.pool.calls {
        GiveBackKeepsInv(w, st, Next(w, st, HandlerDeallocate(c, tid, p)), c, tid, p.b);
      }
    }
  }

  lemma DestroyKeepsInv(w: Ring.Leaving, st: State, c: Cid, tid: Tid)
    requires Inv(st)
    ensures Inv(Next(w, st, Destroy(c, tid)))
  {
    if c in st.clients && st.clients[c].Buffer? && st.clients[c].data_ != 0 && tid !in st.pool.calls {
      GiveBackKeepsInv(w, st, Next(w, st, Destroy(c, tid)), c, tid, st.clients[c].data_);
    }
  }

  lemma StartKeepsInv(w: Ring.Leaving, st: State)
    requires Inv(st)
    ensures Inv(Next(w, st, Start))
  {
    var st' := Next(w, st, Start);
    forall b | b in st'.pool.held ensures OwnedBy(st', b) {
      assert OwnedBy(st, b);
    }
  }

  lemma NextReaches(w: Ring.Leaving, threads: nat, size: nat, st: State, e: Event)
    requires Reached(w, threads, size, st.pool)
    ensures Reached(w, threads, size, Next(w, st, e).pool)
  {
    match e
    case NewHandler(c) =>
    case HandlerAllocate(c, tid, n) => ReachesNext(w, threads, size, st.pool, Pool.Allocate(tid, n));
    case HandlerDeallocate(c, tid, p) =>
      if p.Pooled? {
        ReachesNext(w, threads, size, st.pool, Pool.Release(tid, p.b));
      }
    case Construct(c, tid, l) => ReachesNext(w, threads, size, st.pool, Pool.Allocate(tid, l));
    case Destroy(c, tid) =>
      if c in st.clients && st.clients[c].Buffer? {
        ReachesNext(w, threads, size, st.pool, Pool.Release(tid, st.clients[c].data_));
      }
    case Step(tid) => ReachesNext(w, threads, size, st.pool, Pool.Step(tid));
    case Start => ReachesNext(w, threads, size, st.pool, Pool.Start);
  }

  lemma NewHandlerKeepsInv(w: Ring.Leaving, st: State, c: Cid)
    requires Inv(st)
    ensures Inv(Next(w, st, NewHandler(c)))
  {
    if c !in st.clients {
      SetClientKeepsInv(st, c, NewClient());
    }
  }

  lemma NextKeepsInv(w: Ring.Leaving, threads: nat, size: nat, st: State, e: Event)
    requires Inv(st) && Reached(w, threads, size, st.pool)
    ensures Inv(Next(w, st, e))
  {
    match e
    case NewHandler(c) => NewHandlerKeepsInv(w, st, c);
    case HandlerAllocate(c, tid, n) => HandlerAllocateKeepsInv(w, st, c, tid, n);
    case HandlerDeallocate(c, tid, p) => HandlerDeallocateKeepsInv(w, st, c, tid, p);
    case Construct(c, tid, l) =>
      if c !in st.clients && tid !in st.pool.calls && l != 0 {
        ConstructKeepsInv(st, Next(w, st, e), c, tid, l);
      }
    case Destroy(c, tid) => DestroyKeepsInv(w, st, c, tid);
    case Step(tid) => StepKeepsInv(w, threads, size, st, tid);
    case Start => StartKeepsInv(w, st);
  }

  lemma {:induction false} RunKeepsInv(w: Ring.Leaving, threads: nat, size: nat, st: State, es: seq<Event>)
    requires Inv(st) && Reached(w, threads, size, st.pool)
    ensures Inv(Run(w, st, es)) && Reached(w, threads, size, Run(w, st, es).pool)
    decreases |es|
  {
    if es != [] {
      NextKeepsInv(w, threads, size, st, es[0]);
      NextReaches(w, threads, size, st, es[0]);
      RunKeepsInv(w, threads, size, Next(w, st, es[0]), es[1..]);
    }
  }

  lemma HeldFit(w: Ring.Leaving, threads: nat, size: nat, pool: Pool.State, b: Block)
    requires Reached(w, threads, size, pool) && b in pool.held
    ensures b in pool.caps && pool.held[b] <= pool.caps[b]
  {
    var es :| pool == Pool.Run(w, Pool.Initial(threads, size), es);
    PoolSafety.SizesFit(w, threads, size, es);
  }

  /** In every run of any number of handler allocators and buffers on one manager: no block
      has two owners; each owner's block is one the manager counts as handed out, with exactly
      the size the owner will give it back with, which is what the size classes rely on; every
      block handed out has an owner; and the inline storage is in use for its one request. */
  lemma SharedPool(w: Ring.Leaving, threads: nat, size: nat, es: seq<Event>)
    ensures var st := Run(w, Initial(threads, size), es);
            && Entitled(st) && Disjoint(st) && NoneLost(st) && InlineOnce(st)
            && Waiting(st) && Reached(w, threads, size, st.pool)
  {
    assert Pool.Initial(threads, size) == Pool.Run(w, Pool.Initial(threads, size), []);
    RunKeepsInv(w, threads, size, Initial(threads, size), es);
  }

  /** The size of the memory behind a pointer of client `c`. */
  function MemoryOf(st: State, c: Cid, p: Pointer): nat
    requires c in st.clients
  {
    match p
    case Inline => if st.clients[c].Handler? then st.clients[c].storage else 0
    case Pooled(b) => if b in st.pool.caps then st.pool.caps[b] else 0
  }

  /** In every such run every live request, inline ones included, is at most as large as the
      memory it was given, and the inline memory is the 1024 bytes it was made with. */
  lemma SharedPoolFits(w: Ring.Leaving, threads: nat, size: nat, es: seq<Event>, st: State, c: Cid)
    requires st == Run(w, Initial(threads, size), es) && c in st.clients
    ensures st.clients[c].Handler? ==> MemoryOf(st, c, Inline) == 1024
    ensures st.clients[c].Handler? ==>
              forall p | p in st.clients[c].live :: st.clients[c].live[p] <= MemoryOf(st, c, p)
    ensures st.clients[c].Buffer? && st.clients[c].data_ != 0 ==>
              st.clients[c].len_ <= MemoryOf(st, c, Pooled(st.clients[c].data_))
  {
    SharedPool(w, threads, size, es);
    forall b | Owns(st.clients[c], b)
      ensures b in st.pool.held && Has(st.clients[c], b, st.pool.held[b])
      ensures b in st.pool.caps && st.pool.held[b] <= st.pool.caps[b]
    {
      HeldFit(w, threads, size, st.pool, b);
    }
    assert InlineFits(st.clients[c]);
    if st.clients[c].Handler? {
      forall p | p in st.clients[c].live ensures st.clients[c].live[p] <= MemoryOf(st, c, p) {
        assert p.Pooled? ==> Owns(st.clients[c], p.b);
      }
    } else if st.clients[c].data_ != 0 {
      assert Owns(st.clients[c], st.clients[c].data_);
    }
  }
}
