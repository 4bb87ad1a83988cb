/** What becomes of the requests of the pool's clients, event by event: when memory is asked
    for, handed out, given back, and where it goes. */
module PoolRequests {
  import opened Collections
  import opened PoolClients
  import opened SizeClasses
  import Pool = InterleavedAllocator
  import PoolSafety
  import Ring = RingBuffer
  import Spec = Allocator

  /** A state the clients can reach. */
  ghost predicate Reachable(w: Ring.Leaving, threads: nat, size: nat, st: State) {
    exists es :: st == Run(w, Initial(threads, size), es)
  }

  lemma ReachableInv(w: Ring.Leaving, threads: nat, size: nat, st: State)
    requires Reachable(w, threads, size, st)
    ensures Inv(st) && Reached(w, threads, size, st.pool)
  {
    var es :| st == Run(w, Initial(threads, size), es);
    SharedPool(w, threads, size, es);
  }

  // ----- Asking -----

  /** Thread `tid` is in Allocate for `n` bytes, for client `c`. */
  predicate Asking(st: State, c: Cid, tid: Tid, n: Size) {
    && tid in st.pool.calls && st.pool.calls[tid].Get? && st.pool.calls[tid].n == n
    && tid in st.waiting && st.waiting[tid] == c
  }

  /** The event sends the thread to the pool: a request that is not for the unused inline
      storage of 1024 bytes, or the construction of a buffer that has bytes. */
  predicate AsksNow(st: State, e: Event, c: Cid, tid: Tid, n: Size) {
    && tid !in st.pool.calls
    && (|| (e == HandlerAllocate(c, tid, n) && c in st.clients && st.clients[c].Handler?
            && (st.clients[c].in_use_ || n >= 1024))
        || (e == Construct(c, tid, n) && c !in st.clients && n > 0))
  }

  predicate AnswersNow(st: State, e: Event, tid: Tid) {
    e == Step(tid) && Pool.Gives(st.pool, tid)
  }

  lemma StepAsking(w: Ring.Leaving, threads: nat, size: nat, st: State, u: Tid, c: Cid, tid: Tid, n: Size)
    requires Waiting(st) && Reached(w, threads, size, st.pool)
    ensures Asking(Next(w, st, Step(u)), c, tid, n) <==> Asking(st, c, tid, n) && !AnswersNow(st, Step(u), tid)
  {
    if u in st.pool.calls {
      PoolStep(w, threads, size, st.pool, u);
    }
  }

  lemma CallAsking(w: Ring.Leaving, st: State, e: Event, c: Cid, tid: Tid, n: Size)
    requires Waiting(st) && InlineOnce(st) && (e.HandlerAllocate? || e.Construct?)
    ensures Asking(Next(w, st, e), c, tid, n) <==> AsksNow(st, e, c, tid, n) || Asking(st, c, tid, n)
  {
    if e.HandlerAllocate? && e.c in st.clients {
      assert InlineFits(st.clients[e.c]);
    }
  }

  lemma OtherAsking(w: Ring.Leaving, st: State, e: Event, c: Cid, tid: Tid, n: Size)
    requires Waiting(st) && Entitled(st)
    requires e.NewHandler? || e.HandlerDeallocate? || e.Destroy? || e.Start?
    ensures Asking(Next(w, st, e), c, tid, n) <==> Asking(st, c, tid, n)
  {
  }

  /** A thread asks for a client from the event that sends it until the step that hands it
      a block, and for the same number of bytes all the while. */
  lemma {:induction false} AskingAfter(w: Ring.Leaving, threads: nat, size: nat, st: State, e: Event,
                                       c: Cid, tid: Tid, n: Size)
    requires Reachable(w, threads, size, st)
    ensures Asking(Next(w, st, e), c, tid, n)
       <==> AsksNow(st, e, c, tid, n) || (Asking(st, c, tid, n) && !AnswersNow(st, e, tid))
  {
    ReachableInv(w, threads, size, st);
    if e.Step? {
      StepAsking(w, threads, size, st, e.tid, c, tid, n);
    } else if e.HandlerAllocate? || e.Construct? {
      CallAsking(w, st, e, c, tid, n);
    } else {
      OtherAsking(w, st, e, c, tid, n);
    }
  }

  // ----- New clients, and Start -----

  /** A new handler allocator is there, with unused storage, exactly under a name not in use. */
  lemma NewHandlerIff(w: Ring.Leaving, st: State, c: Cid)
    ensures var st' := Next(w, st, NewHandler(c));
            && (c in st.clients <==> st' == st)
            && (c !in st.clients ==> c in st'.clients && st'.clients[c].Handler? && !st'.clients[c].in_use_
                                     && st'.clients[c].live == map[] && st'.clients[c].storage == 1024)
  {
    assert c !in st.clients ==> Next(w, st, NewHandler(c)).clients != st.clients;
  }

  lemma PoolSize(w: Ring.Leaving, threads: nat, size: nat, pool: Pool.State)
    requires Reached(w, threads, size, pool)
    ensures pool.size == size
  {
    var es :| pool == Pool.Run(w, Pool.Initial(threads, size), es);
    Pool.Linearises(w, threads, size, es);
  }

  lemma PoolStarts(w: Ring.Leaving, pool: Pool.State)
    requires pool.size > 0 && Pool.NothingPooled(pool)
    ensures var pool' := Pool.Next(w, pool, Pool.Start);
            && pool'.calls == pool.calls && pool'.held == pool.held && pool'.rings.Keys == pool.rings.Keys
            && forall r | r in pool'.rings ::
                 && |pool'.rings[r].data| == pool.size && pool'.rings[r].cur == 0
                 && pool'.rings[r].signal == pool.rings[r].signal
  {
  }

  /** Start, while nothing is stored, gives every ring room for `size` blocks and changes
      nothing else; at any other time it is not modelled as a step. */
  lemma {:induction false} StartGivesRoom(w: Ring.Leaving, threads: nat, size: nat, st: State)
    requires Reachable(w, threads, size, st) && size > 0 && Pool.NothingPooled(st.pool)
    ensures var st' := Next(w, st, Start);
            && st'.clients == st.clients && st'.waiting == st.waiting
            && st'.pool.calls == st.pool.calls && st'.pool.held == st.pool.held
            && st'.pool.rings.Keys == st.pool.rings.Keys
            && forall r | r in st'.pool.rings ::
                 && |st'.pool.rings[r].data| == size && st'.pool.rings[r].cur == 0
                 && st'.pool.rings[r].signal == st.pool.rings[r].signal
  {
    ReachableInv(w, threads, size, st);
    PoolSize(w, threads, size, st.pool);
    PoolStarts(w, st.pool);
  }

  // ----- Live requests of a handler allocator -----

  predicate LiveAt(st: State, c: Cid, p: Pointer, n: Size) {
    c in st.clients && st.clients[c].Handler? && p in st.clients[c].live && st.clients[c].live[p] == n
  }

  /** The event gives client `c` this memory: the unused inline storage for a request below
      1024 bytes, or the block its asking thread is handed. */
  predicate GivenNow(st: State, e: Event, c: Cid, p: Pointer, n: Size) {
    && c in st.clients && st.clients[c].Handler?
    && match p
       case Inline => e.HandlerAllocate? && e.c == c && e.n == n && !st.clients[c].in_use_ && n < 1024
       case Pooled(b) => e.Step? && Asking(st, c, e.tid, n) && AnswersNow(st, e, e.tid)
                         && b == Pool.GivenBlock(st.pool, e.tid)
  }

  /** The event gives it back; a thread in another call cannot. */
  predicate GivesBackNow(st: State, e: Event, c: Cid, p: Pointer) {
    e.HandlerDeallocate? && e.c == c && e.p == p && (p == Inline || e.tid !in st.pool.calls)
  }

  lemma OtherLive(st: State, st': State, c: Cid, p: Pointer, n: Size)
    requires c in st.clients <==> c in st'.clients
    requires c in st.clients ==> st'.clients[c] == st.clients[c]
    ensures LiveAt(st', c, p, n) <==> LiveAt(st, c, p, n)
  {
  }

  /** A block that comes is not yet one of the client's. */
  lemma ReceiveLive(client: Client, b: Block, k: Size, p: Pointer, n: Size)
    requires client.Handler? && Pooled(b) !in client.live
    ensures var live := Receive(client, b, k).live;
            p in live && live[p] == n <==> (p == Pooled(b) && n == k) || (p in client.live && client.live[p] == n)
  {
  }

  /** A step of the pool reaches at most the client that waits for it, with a new block. */
  lemma StepClients(w: Ring.Leaving, threads: nat, size: nat, st: State, u: Tid)
    requires Waiting(st) && Reached(w, threads, size, st.pool)
    ensures var clients := Next(w, st, Step(u)).clients;
            if AnswersNow(st, Step(u), u) then
              var b, n := Pool.GivenBlock(st.pool, u), st.pool.calls[u].n;
              && u in st.waiting && st.waiting[u] in st.clients && b != 0 && b !in st.pool.held
              && Asking(st, st.waiting[u], u, n)
              && clients == st.clients[st.waiting[u] := Receive(st.clients[st.waiting[u]], b, n)]
            else clients == st.clients
  {
    if u in st.pool.calls {
      PoolStep(w, threads, size, st.pool, u);
    }
  }

  lemma UnheldIsNotLive(st: State, c: Cid, b: Block)
    requires Entitled(st) && c in st.clients && b !in st.pool.held
    ensures !Owns(st.clients[c], b)
  {
  }

  lemma AnswerLive(st: State, st': State, u: Tid, c: Cid, p: Pointer, n: Size)
    requires AnswersNow(st, Step(u), u) && Asking(st, c, u, st.pool.calls[u].n) && c in st.clients
    requires !Owns(st.clients[c], Pool.GivenBlock(st.pool, u))
    requires st'.clients == st.clients[c := Receive(st.clients[c], Pool.GivenBlock(st.pool, u), st.pool.calls[u].n)]
    ensures LiveAt(st', c, p, n) <==> GivenNow(st, Step(u), c, p, n) || LiveAt(st, c, p, n)
  {
    if st.clients[c].Handler? {
      ReceiveLive(st.clients[c], Pool.GivenBlock(st.pool, u), st.pool.calls[u].n, p, n);
    }
  }

  lemma StepLive(w: Ring.Leaving, threads: nat, size: nat, st: State, u: Tid, c: Cid, p: Pointer, n: Size)
    requires Entitled(st) && Waiting(st) && Reached(w, threads, size, st.pool)
    ensures LiveAt(Next(w, st, Step(u)), c, p, n) <==> GivenNow(st, Step(u), c, p, n) || LiveAt(st, c, p, n)
  {
    var st' := Next(w, st, Step(u));
    StepClients(w, threads, size, st, u);
    if AnswersNow(st, Step(u), u) && st.waiting[u] == c {
      UnheldIsNotLive(st, c, Pool.GivenBlock(st.pool, u));
      AnswerLive(st, st', u, c, p, n);
    } else {
      OtherLive(st, st', c, p, n);
    }
  }

  lemma AllocateLive(w: Ring.Leaving, st: State, c: Cid, tid: Tid, k: Size, p: Pointer, n: Size)
    requires InlineOnce(st)
    ensures var e := HandlerAllocate(c, tid, k);
            LiveAt(Next(w, st, e), c, p, n) <==> GivenNow(st, e, c, p, n) || LiveAt(st, c, p, n)
  {
    if c in st.clients {
      assert InlineFits(st.clients[c]);
    }
  }

  lemma DeallocateLive(w: Ring.Leaving, st: State, c: Cid, tid: Tid, q: Pointer, p: Pointer, n: Size)
    ensures var e := HandlerDeallocate(c, tid, q);
            LiveAt(Next(w, st, e), c, p, n) <==> LiveAt(st, c, p, n) && !GivesBackNow(st, e, c, p)
  {
  }

  lemma HandlerLive(w: Ring.Leaving, st: State, e: Event, c: Cid, p: Pointer, n: Size)
    requires InlineOnce(st) && (e.HandlerAllocate? || e.HandlerDeallocate?)
    ensures LiveAt(Next(w, st, e), c, p, n)
       <==> GivenNow(st, e, c, p, n) || (LiveAt(st, c, p, n) && !GivesBackNow(st, e, c, p))
  {
    if e.c != c {
      OtherLive(st, Next(w, st, e), c, p, n);
    } else if e.HandlerAllocate? {
      AllocateLive(w, st, c, e.tid, e.n, p, n);
    } else {
      DeallocateLive(w, st, c, e.tid, e.p, p, n);
    }
  }

  lemma CallLive(w: Ring.Leaving, st: State, e: Event, c: Cid, p: Pointer, n: Size)
    requires Inv(st) && !e.Step? && !e.HandlerAllocate? && !e.HandlerDeallocate?
    ensures LiveAt(Next(w, st, e), c, p, n) <==> LiveAt(st, c, p, n)
  {
    if e.Start? || e.c != c {
      OtherLive(st, Next(w, st, e), c, p, n);
    }
  }

  /** A request is live exactly from the event that gives it memory until the one that gives
      the memory back. */
  lemma {:induction false} LiveAfter(w: Ring.Leaving, threads: nat, size: nat, st: State, e: Event,
                                     c: Cid, p: Pointer, n: Size)
    requires Reachable(w, threads, size, st)
    ensures LiveAt(Next(w, st, e), c, p, n)
       <==> GivenNow(st, e, c, p, n) || (LiveAt(st, c, p, n) && !GivesBackNow(st, e, c, p))
  {
    ReachableInv(w, threads, size, st);
    if e.Step? {
      StepLive(w, threads, size, st, e.tid, c, p, n);
    } else if e.HandlerAllocate? || e.HandlerDeallocate? {
      HandlerLive(w, st, e, c, p, n);
    } else {
      CallLive(w, st, e, c, p, n);
    }
  }

  /** On unused storage a request goes inline, at once and without the pool, if and only if
      it is below 1024 bytes; else its thread asks the pool. */
  lemma {:induction false} InlineIff(w: Ring.Leaving, threads: nat, size: nat, st: State, c: Cid, tid: Tid, n: Size)
    requires Reachable(w, threads, size, st)
    requires c in st.clients && st.clients[c].Handler? && !st.clients[c].in_use_ && tid !in st.pool.calls
    ensures var st' := Next(w, st, HandlerAllocate(c, tid, n));
            && (LiveAt(st', c, Inline, n) <==> n < 1024)
            && (Asking(st', c, tid, n) <==> n >= 1024)
            && (n < 1024 ==> st'.pool == st.pool)
  {
    ReachableInv(w, threads, size, st);
    assert InlineFits(st.clients[c]);
  }

  // ----- Buffers -----

  predicate BufferIs(st: State, c: Cid, b: Block, l: Size) {
    c in st.clients && st.clients[c] == Buffer(b, l)
  }

  /** A buffer is made empty, for the length it is constructed with; its block comes with the
      step that answers its thread; it is destroyed only then, and whole. */
  predicate MadeNow(st: State, e: Event, c: Cid, b: Block, l: Size) {
    || (e.Construct? && AsksNow(st, e, c, e.tid, l) && b == 0)
    || (e.Step? && Asking(st, c, e.tid, l) && AnswersNow(st, e, e.tid) && b == Pool.GivenBlock(st.pool, e.tid)
        && BufferIs(st, c, 0, l))
  }

  predicate ChangedNow(st: State, e: Event, c: Cid, b: Block) {
    || (e.Destroy? && e.c == c && b != 0 && e.tid !in st.pool.calls)
    || (e.Step? && e.tid in st.waiting && st.waiting[e.tid] == c && AnswersNow(st, e, e.tid))
  }

  lemma OtherBuffer(st: State, st': State, c: Cid, b: Block, l: Size)
    requires c in st.clients <==> c in st'.clients
    requires c in st.clients ==> st'.clients[c] == st.clients[c]
    ensures BufferIs(st', c, b, l) <==> BufferIs(st, c, b, l)
  {
  }

  lemma AnswerBuffer(st: State, st': State, u: Tid, c: Cid, b: Block, l: Size)
    requires AnswersNow(st, Step(u), u) && Asking(st, c, u, st.pool.calls[u].n) && c in st.clients
    requires st.clients[c].Buffer? ==> st.clients[c] == Buffer(0, st.pool.calls[u].n)
    requires st'.clients == st.clients[c := Receive(st.clients[c], Pool.GivenBlock(st.pool, u), st.pool.calls[u].n)]
    ensures BufferIs(st', c, b, l) <==> MadeNow(st, Step(u), c, b, l)
  {
  }

  lemma StepBuffer(w: Ring.Leaving, threads: nat, size: nat, st: State, u: Tid, c: Cid, b: Block, l: Size)
    requires Waiting(st) && Reached(w, threads, size, st.pool)
    ensures BufferIs(Next(w, st, Step(u)), c, b, l)
       <==> MadeNow(st, Step(u), c, b, l) || (BufferIs(st, c, b, l) && !ChangedNow(st, Step(u), c, b))
  {
    var st' := Next(w, st, Step(u));
    StepClients(w, threads, size, st, u);
    if AnswersNow(st, Step(u), u) && st.waiting[u] == c {
      AnswerBuffer(st, st', u, c, b, l);
    } else {
      OtherBuffer(st, st', c, b, l);
    }
  }

  lemma CallBuffer(w: Ring.Leaving, st: State, e: Event, c: Cid, b: Block, l: Size)
    requires Inv(st) && !e.Step?
    ensures BufferIs(Next(w, st, e), c, b, l)
       <==> MadeNow(st, e, c, b, l) || (BufferIs(st, c, b, l) && !ChangedNow(st, e, c, b))
  {
  }

  /** A buffer has its length from its construction and its block from the answer to it until
      it is destroyed. */
  lemma {:induction false} BufferAfter(w: Ring.Leaving, threads: nat, size: nat, st: State, e: Event,
                                       c: Cid, b: Block, l: Size)
    requires Reachable(w, threads, size, st)
    ensures BufferIs(Next(w, st, e), c, b, l)
       <==> MadeNow(st, e, c, b, l) || (BufferIs(st, c, b, l) && !ChangedNow(st, e, c, b))
  {
    ReachableInv(w, threads, size, st);
    if e.Step? {
      StepBuffer(w, threads, size, st, e.tid, c, b, l);
    } else {
      CallBuffer(w, st, e, c, b, l);
    }
  }

  // ----- What is given back -----

  /** A block given back, by a handler allocator or by a buffer destroyed, is at once in the
      thread's DeAllocate call, with the size it was asked for, and no longer handed out. */
  lemma {:induction false} GivenBackIsCarried(w: Ring.Leaving, threads: nat, size: nat, st: State, e: Event,
                                              c: Cid, b: Block, n: Size)
    requires Reachable(w, threads, size, st) && c in st.clients && b != 0 && Has(st.clients[c], b, n)
    requires GivesBackNow(st, e, c, Pooled(b)) || (e.Destroy? && e.c == c && e.tid !in st.pool.calls)
    requires e.Destroy? <==> st.clients[c].Buffer?
    ensures var st' := Next(w, st, e);
            && e.tid in st'.pool.calls && st'.pool.calls[e.tid] == Pool.Put(n, b, 0)
            && b !in st'.pool.held
            && (c in st'.clients ==> !Owns(st'.clients[c], b))
  {
    ReachableInv(w, threads, size, st);
    assert Owns(st.clients[c], b);
  }

  lemma OwnedIff(st: State, b: Block)
    requires Entitled(st) && NoneLost(st)
    ensures OwnedBy(st, b) <==> b in st.pool.held
  {
    if OwnedBy(st, b) {
      var c :| c in st.clients && Owns(st.clients[c], b);
    }
  }

  lemma QuietPool(w: Ring.Leaving, threads: nat, size: nat, pool: Pool.State, b: Block)
    requires Reached(w, threads, size, pool) && pool.calls == map[]
    ensures 1 <= b < pool.next <==> b in pool.held || b in PoolSafety.Stopped(pool, threads).freed
    ensures !(b in pool.held && b in PoolSafety.Stopped(pool, threads).freed)
    ensures Distinct(PoolSafety.Stopped(pool, threads).freed)
  {
    var es :| pool == Pool.Run(w, Pool.Initial(threads, size), es);
    PoolSafety.StopFreesOnce(w, threads, size, es, pool);
  }

  /** With no call in progress every block malloc ever returned is with a client, stored in a
      ring, or freed, in exactly one of these and once; and nothing else is. */
  lemma {:induction false} AllAccountedFor(w: Ring.Leaving, threads: nat, size: nat, st: State, b: Block)
    requires Reachable(w, threads, size, st) && st.pool.calls == map[]
    ensures var elsewhere := st.pool.freed + PoolSafety.AllStored(st.pool, threads);
            && Distinct(elsewhere)
            && !(OwnedBy(st, b) && b in elsewhere)
            && (1 <= b < st.pool.next <==> OwnedBy(st, b) || b in elsewhere)
  {
    ReachableInv(w, threads, size, st);
    OwnedIff(st, b);
    QuietPool(w, threads, size, st.pool, b);
  }
}
