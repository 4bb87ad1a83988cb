/** The sending side of a session: tasks posted to a strand, a queue of buffers, and at
    most one asynchronous write. The environment decides when tasks run, how many bytes
    a write gets onto the wire, and whether it succeeds. */
module WriteQueue {
  import opened Collections
  import opened Words

  type Buffer = seq<Byte>

  /** The write side of the socket. `Writing`: a write of `buf` is in progress, `sent`
      bytes of it are on the wire. `Ended`: it has ended and its handler has not run yet.
      `Broken`: a failed write has been handled. */
  datatype WriteOp = Idle | Writing(buf: Buffer, sent: nat) | Ended(ok: bool, sent: nat) | Broken(sent: nat)

  datatype State = State(posted: seq<Buffer>, queue: seq<Buffer>, op: WriteOp, wire: seq<Byte>)

  datatype Event =
    | Send(buf: Buffer)     // send_buffer
    | RunTask               // the strand runs the first posted do_write
    | Transmit(n: nat)      // up to `n` more bytes of the current write reach the peer
    | WriteEnds(ok: bool)   // async_write ends: in full, or with an error
    | RunHandler            // handle_write

  const FRESH := State([], [], Idle, [])

  function DoWrite(st: State, buf: Buffer): State {
    if st.queue == [] then st.(queue := [buf], op := Writing(buf, 0)) else st.(queue := st.queue + [buf])
  }

  function HandleWrite(st: State, ok: bool, sent: nat): State
    requires st.queue != []
  {
    if !ok then st.(op := Broken(sent))
    else if |st.queue| > 1 then st.(queue := st.queue[1..], op := Writing(st.queue[1], 0))
    else st.(queue := [], op := Idle)
  }

  /** Events that cannot happen in a state leave it unchanged. */
  function Next(st: State, e: Event): State {
    match e
    case Send(buf) => if buf == [] then st else st.(posted := st.posted + [buf])
    case RunTask => if st.posted == [] then st else DoWrite(st.(posted := st.posted[1..]), st.posted[0])
    case Transmit(n) =>
      if st.op.Writing? && st.op.sent <= |st.op.buf| then
        var m := st.op.sent + Min(n, |st.op.buf| - st.op.sent);
        st.(op := Writing(st.op.buf, m), wire := st.wire + st.op.buf[st.op.sent..m])
      else st
    case WriteEnds(ok) =>
      if st.op.Writing? && (ok ==> st.op.sent == |st.op.buf|) then st.(op := Ended(ok, st.op.sent)) else st
    case RunHandler =>
      if st.op.Ended? && st.queue != [] then HandleWrite(st, st.op.ok, st.op.sent) else st
  }

  function Concat(bs: seq<Buffer>): seq<Byte> {
    if bs == [] then [] else bs[0] + Concat(bs[1..])
  }

  lemma {:induction false} ConcatAppend(a: seq<Buffer>, b: seq<Buffer>)
    ensures Concat(a + b) == Concat(a) + Concat(b)
  {
    if a == [] {
      assert a + b == b;
    } else {
      assert (a + b)[1..] == a[1..] + b;
      ConcatAppend(a[1..], b);
    }
  }

  lemma ConcatOne(b: Buffer)
    ensures Concat([b]) == b
  {
    assert b + [] == b;
  }

  /** The buffers handed to send_buffer, in order; empty ones are not valid. */
  function Sent(es: seq<Event>): seq<Buffer> {
    if es == [] then []
    else (if es[0].Send? && es[0].buf != [] then [es[0].buf] else []) + Sent(es[1..])
  }

  /** A write is outstanding: started, and its completion not yet handled. */
  predicate Outstanding(st: State) {
    st.op.Writing? || st.op.Ended?
  }

  /** How much of the front buffer is on the wire. */
  function Progress(op: WriteOp): nat {
    if op.Idle? then 0 else op.sent
  }

  /** Nothing is lost, duplicated or reordered: with `done` the buffers written in full
      and `history` those sent, the state is determined up to its position. */
  ghost predicate Inv(st: State, done: seq<Buffer>, history: seq<Buffer>) {
    && history == done + st.queue + st.posted
    && (Outstanding(st) || st.op.Broken? <==> st.queue != [])
    && (st.queue != [] ==> Progress(st.op) <= |st.queue[0]|)
    && (st.op.Writing? ==> st.op.buf == st.queue[0])
    && (st.op.Ended? && st.op.ok ==> st.op.sent == |st.queue[0]|)
    && st.wire == Concat(done) + (if st.queue == [] then [] else st.queue[0][..Progress(st.op)])
  }

  function Recorded(history: seq<Buffer>, e: Event): seq<Buffer> {
    history + if e.Send? && e.buf != [] then [e.buf] else []
  }

  lemma PrefixGrows(b: Buffer, i: nat, j: nat)
    requires i <= j <= |b|
    ensures b[..i] + b[i..j] == b[..j]
  {
  }

  lemma TaskKeepsInv(st: State, done: seq<Buffer>, history: seq<Buffer>)
    requires Inv(st, done, history)
    ensures Inv(Next(st, RunTask), done, history)
  {
    if st.posted != [] {
      var b := st.posted[0];
      assert st.queue + st.posted == (st.queue + [b]) + st.posted[1..];
      if st.queue == [] {
        assert b[..0] == [];
      }
    }
  }

  lemma TransmitKeepsInv(st: State, done: seq<Buffer>, history: seq<Buffer>, n: nat)
    requires Inv(st, done, history)
    ensures Inv(Next(st, Transmit(n)), done, history)
  {
    if st.op.Writing? {
      PrefixGrows(st.op.buf, st.op.sent, Next(st, Transmit(n)).op.sent);
    }
  }

  lemma HandlerKeepsInv(st: State, done: seq<Buffer>, history: seq<Buffer>) returns (done': seq<Buffer>)
    requires Inv(st, done, history)
    ensures Inv(Next(st, RunHandler), done', history)
    ensures done' == if st.op.Ended? && st.op.ok then done + [st.queue[0]] else done
  {
    done' := done;
    if st.op.Ended? && st.op.ok {
      var b := st.queue[0];
      done' := done + [b];
      ConcatAppend(done, [b]);
      ConcatOne(b);
      assert b[..|b|] == b;
      assert done + st.queue == done' + st.queue[1..];
    }
  }

  lemma StepKeepsInv(st: State, done: seq<Buffer>, history: seq<Buffer>, e: Event) returns (done': seq<Buffer>)
    requires Inv(st, done, history)
    ensures Inv(Next(st, e), done', Recorded(history, e))
    ensures !e.RunHandler? ==> done' == done
  {
    done' := done;
    match e
    case Send(buf) =>
    case RunTask => TaskKeepsInv(st, done, history);
    case Transmit(n) => TransmitKeepsInv(st, done, history, n);
    case WriteEnds(ok) =>
    case RunHandler => done' := HandlerKeepsInv(st, done, history);
  }

  function Run(st: State, es: seq<Event>): State
    decreases |es|
  {
    if es == [] then st else Run(Next(st, es[0]), es[1..])
  }

  lemma RunCons(st: State, e: Event, es: seq<Event>)
    ensures Run(st, [e] + es) == Run(Next(st, e), es)
  {
    assert ([e] + es)[1..] == es;
  }

  lemma RecordedSent(history: seq<Buffer>, es: seq<Event>)
    requires es != []
    ensures Recorded(history, es[0]) + Sent(es[1..]) == history + Sent(es)
  {
  }

  lemma {:induction false} RunKeepsInv(st: State, done: seq<Buffer>, history: seq<Buffer>, es: seq<Event>)
    returns (done': seq<Buffer>)
    requires Inv(st, done, history)
    ensures Inv(Run(st, es), done', history + Sent(es))
    decreases |es|
  {
    if es == [] {
      done' := done;
      assert history + [] == history;
    } else {
      var d := StepKeepsInv(st, done, history, es[0]);
      done' := RunKeepsInv(Next(st, es[0]), d, Recorded(history, es[0]), es[1..]);
      RecordedSent(history, es);
    }
  }

  lemma ConcatFront(bs: seq<Buffer>, p: nat)
    requires bs != [] && p <= |bs[0]|
    ensures bs[0][..p] <= Concat(bs)
  {
  }

  lemma WirePrefix(st: State, done: seq<Buffer>, history: seq<Buffer>)
    requires Inv(st, done, history)
    ensures Concat(done) <= st.wire <= Concat(history)
  {
    var rest := st.queue + st.posted;
    assert history == done + rest;
    ConcatAppend(done, rest);
    if st.queue != [] {
      assert rest[0] == st.queue[0];
      ConcatFront(rest, Progress(st.op));
    }
  }

  /** Write-queue safety, in every reachable state. */
  lemma Safe(es: seq<Event>)
    ensures var st := Run(FRESH, es);
            && (Outstanding(st) <==> st.queue != [] && !st.op.Broken?)
            && (st.op.Writing? ==> st.queue != [] && st.op.buf == st.queue[0])
            && st.wire <= Concat(Sent(es))
            && exists done :: Sent(es) == done + st.queue + st.posted && Concat(done) <= st.wire
  {
    var done := RunKeepsInv(FRESH, [], [], es);
    assert [] + Sent(es) == Sent(es);
    WirePrefix(Run(FRESH, es), done, Sent(es));
  }

  /** After a failed write nothing more reaches the wire, whatever is sent. */
  lemma {:induction false} BrokenIsSilent(st: State, es: seq<Event>)
    requires st.op.Broken? && st.queue != []
    ensures Run(st, es).op == st.op && Run(st, es).wire == st.wire && st.queue <= Run(st, es).queue
    decreases |es|
  {
    if es != [] {
      BrokenIsSilent(Next(st, es[0]), es[1..]);
    }
  }

  // ----- A write fails -----

  /** The write that was in progress has failed, and nothing has moved since. */
  predicate Stopped(st: State, st': State) {
    && st'.wire == st.wire && st.queue <= st'.queue && st'.queue != []
    && !st'.op.Writing? && !st'.op.Idle? && (st'.op.Ended? ==> !st'.op.ok)
  }

  lemma StoppedStays(st: State, st': State, e: Event)
    requires Stopped(st, st')
    ensures Stopped(st, Next(st', e))
    ensures e.RunHandler? || !Outstanding(st') ==> !Outstanding(Next(st', e))
  {
  }

  lemma {:induction false} StoppedRun(st: State, st': State, es: seq<Event>)
    requires Stopped(st, st')
    ensures Stopped(st, Run(st', es))
    ensures RunHandler in es || !Outstanding(st') ==> !Outstanding(Run(st', es))
    decreases |es|
  {
    if es != [] {
      StoppedStays(st, st', es[0]);
      StoppedRun(st, Next(st', es[0]), es[1..]);
    }
  }

  lemma {:induction false} RunSplit(st: State, a: seq<Event>, e: Event, b: seq<Event>)
    ensures Run(st, a + [e] + b) == Run(Next(Run(st, a), e), b)
    decreases |a|
  {
    if a == [] {
      assert a + [e] + b == [e] + b;
      RunCons(st, e, b);
    } else {
      assert (a + [e] + b)[1..] == a[1..] + [e] + b;
      RunSplit(Next(st, a[0]), a[1..], e, b);
    }
  }

  /** A failed write stops the queue for good: whatever is sent, run or transmitted after the
      failure of the write in progress, the wire is what it was, no buffer leaves the queue,
      and once the handler has run no write is outstanding again. */
  lemma FailureStopsQueue(es: seq<Event>, more: seq<Event>)
    requires Run(FRESH, es).op.Writing?
    ensures var st, r := Run(FRESH, es), Run(FRESH, es + [WriteEnds(false)] + more);
            && r.wire == st.wire
            && st.queue <= r.queue
            && (RunHandler in more ==> !Outstanding(r))
  {
    var st := Run(FRESH, es);
    Safe(es);
    StoppedRun(st, Next(st, WriteEnds(false)), more);
    RunSplit(FRESH, es, WriteEnds(false), more);
  }

  // ----- Without failure everything is written -----

  /** No write has failed. */
  predicate Healthy(st: State) {
    !st.op.Broken? && (st.op.Ended? ==> st.op.ok)
  }

  function Tasks(n: nat): seq<Event> {
    if n == 0 then [] else [RunTask] + Tasks(n - 1)
  }

  /** `n` successful completions; a write puts at most `m` bytes on the wire. */
  function Completions(n: nat, m: nat): seq<Event> {
    if n == 0 then [] else [Transmit(m)] + ([WriteEnds(true)] + ([RunHandler] + Completions(n - 1, m)))
  }

  predicate Fits(bs: seq<Buffer>, m: nat) {
    forall b | b in bs :: |b| <= m
  }

  lemma {:induction false} TasksRun(st: State, done: seq<Buffer>, history: seq<Buffer>)
    requires Inv(st, done, history) && Healthy(st)
    ensures var r := Run(st, Tasks(|st.posted|));
            Inv(r, done, history) && Healthy(r) && r.posted == [] && |r.queue| == |st.queue| + |st.posted|
    decreases |st.posted|
  {
    if st.posted != [] {
      var d := StepKeepsInv(st, done, history, RunTask);
      var r := Next(st, RunTask);
      assert history + [] == history;
      TasksRun(r, done, history);
    }
  }

  /** The state after one successful completion. */
  function Complete(st: State, m: nat): State {
    Next(Next(Next(st, Transmit(m)), WriteEnds(true)), RunHandler)
  }

  lemma CompletionsRun(st: State, n: nat, m: nat)
    ensures Run(st, Completions(n + 1, m)) == Run(Complete(st, m), Completions(n, m))
  {
    var rest := Completions(n, m);
    var s1 := Next(st, Transmit(m));
    RunCons(st, Transmit(m), [WriteEnds(true)] + ([RunHandler] + rest));
    RunCons(s1, WriteEnds(true), [RunHandler] + rest);
    RunCons(Next(s1, WriteEnds(true)), RunHandler, rest);
  }

  /** One successful completion takes the front buffer off the queue. */
  lemma CompleteFront(st: State, m: nat)
    requires Outstanding(st) && Healthy(st) && st.queue != [] && |st.queue[0]| <= m
    requires Progress(st.op) <= |st.queue[0]| && (st.op.Writing? ==> st.op.buf == st.queue[0])
    ensures var r := Complete(st, m);
            Healthy(r) && r.queue == st.queue[1..] && r.posted == st.posted
  {
  }

  lemma CompleteKeepsInv(st: State, done: seq<Buffer>, history: seq<Buffer>, m: nat) returns (done': seq<Buffer>)
    requires Inv(st, done, history)
    ensures Inv(Complete(st, m), done', history)
  {
    assert history + [] == history;
    var s1 := Next(st, Transmit(m));
    var s2 := Next(s1, WriteEnds(true));
    done' := StepKeepsInv(st, done, history, Transmit(m));
    done' := StepKeepsInv(s1, done', history, WriteEnds(true));
    done' := StepKeepsInv(s2, done', history, RunHandler);
  }

  lemma {:induction false} QueueDrains(st: State, done: seq<Buffer>, history: seq<Buffer>, m: nat)
    requires Inv(st, done, history) && Healthy(st) && st.posted == [] && Fits(history, m)
    ensures var r := Run(st, Completions(|st.queue|, m));
            r.queue == [] && r.op == Idle && r.wire == Concat(history)
    decreases |st.queue|
  {
    if st.queue == [] {
      assert history == done;
    } else {
      assert st.queue[0] in history;
      CompleteFront(st, m);
      var d := CompleteKeepsInv(st, done, history, m);
      CompletionsRun(st, |st.queue| - 1, m);
      QueueDrains(Complete(st, m), d, history, m);
    }
  }

  function AfterTasks(st: State): State {
    Run(st, Tasks(|st.posted|))
  }

  /** Run the posted tasks, then complete every queued write. */
  function Finish(st: State, m: nat): State {
    Run(AfterTasks(st), Completions(|AfterTasks(st).queue|, m))
  }

  /** From every reachable state in which no write has failed, running the posted tasks
      and completing each queued write once puts on the wire exactly what was sent. */
  lemma AllIsWritten(es: seq<Event>, m: nat)
    requires Healthy(Run(FRESH, es)) && Fits(Sent(es), m)
    ensures Finish(Run(FRESH, es), m).wire == Concat(Sent(es))
    ensures Finish(Run(FRESH, es), m).queue == []
    ensures |AfterTasks(Run(FRESH, es)).queue| == |Run(FRESH, es).queue| + |Run(FRESH, es).posted|
  {
    var done := RunKeepsInv(FRESH, [], [], es);
    assert [] + Sent(es) == Sent(es);
    TasksRun(Run(FRESH, es), done, Sent(es));
    QueueDrains(AfterTasks(Run(FRESH, es)), done, Sent(es), m);
  }
}
