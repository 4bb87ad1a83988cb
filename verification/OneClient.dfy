/** Thread 0 alone on the manager: what one push or pop comes to, and the runs that show what
    the counter of the rings does to reuse. */
module OneClient {
  import opened SizeClasses
  import opened InterleavedAllocator
  import Ring = RingBuffer
  import Spec = Allocator

  function Steps(k: nat): seq<Event> {
    if k == 0 then [] else [Step(0)] + Steps(k - 1)
  }

  /** The ring is not in use. */
  predicate Idle(ring: Ring.State) {
    ring.callers == map[] && ring.cur <= |ring.data|
  }

  /** Thread 0 has come to ring `r`, and nobody is in it. */
  predicate At(st: State, c: Request) {
    st.calls == map[0 := c] && RingOf(c) in st.rings && Idle(st.rings[RingOf(c)])
  }

  /** The ring with thread 0 inside. */
  function Entered(ring: Ring.State, pc: Ring.Pc): Ring.State {
    ring.(signal := ring.signal - 1, callers := map[0 := pc])
  }

  function With(st: State, r: RingId, ring: Ring.State): State {
    st.(rings := st.rings[r := ring])
  }

  lemma Leaves(pc: Ring.Pc)
    ensures map[0 := pc] - {0} == map[]
  {
  }

  lemma Same(st: State, r: RingId)
    requires r in st.rings
    ensures With(st, r, st.rings[r]) == st
  {
  }

  /** Thread 0 inside the ring, which is otherwise `ring`. */
  predicate In(st: State, c: Request, ring: Ring.State, pc: Ring.Pc) {
    && st.calls == map[0 := c] && RingOf(c) in st.rings
    && st.rings[RingOf(c)] == Entered(ring, pc) && Idle(ring)
  }

  lemma Enter(w: Ring.Leaving, st: State, c: Request)
    requires At(st, c)
    ensures var r := RingOf(c);
            var ring := st.rings[r];
            var pc := if ring.signal == 1 then (if c.Get? then Ring.PopTest else Ring.PushTest(c.b))
                      else if c.Get? then Ring.PopRelease(0) else Ring.PushRelease;
            Next(w, st, Step(0)) == With(st, r, Entered(ring, pc)) && In(Next(w, st, Step(0)), c, ring, pc)
  {
  }

  lemma Look(w: Ring.Leaving, st: State, c: Request, ring: Ring.State, pc: Ring.Pc)
    requires In(st, c, ring, pc) && (pc.PushTest? || pc.PopTest?)
    ensures var pc' := if pc.PopTest? then (if ring.cur > 0 then Ring.PopBody else Ring.PopRelease(0))
                       else if ring.cur < |ring.data| then Ring.PushBody(pc.t) else Ring.PushRelease;
            && Next(w, st, Step(0)) == With(st, RingOf(c), Entered(ring, pc'))
            && In(Next(w, st, Step(0)), c, ring, pc')
  {
    assert map[0 := pc][0 := Ring.PopBody] == map[0 := Ring.PopBody];
    assert map[0 := pc][0 := Ring.PopRelease(0)] == map[0 := Ring.PopRelease(0)];
    assert map[0 := pc][0 := Ring.PushRelease] == map[0 := Ring.PushRelease];
    if pc.PushTest? {
      assert map[0 := pc][0 := Ring.PushBody(pc.t)] == map[0 := Ring.PushBody(pc.t)];
    }
  }

  /** A push or pop that fails sends thread 0 to the next ring. */
  lemma Fail(w: Ring.Leaving, st: State, c: Request, ring: Ring.State, pc: Ring.Pc)
    requires In(st, c, ring, pc) && Ring.Failing(pc)
    ensures Next(w, st, Step(0)) == With(st, RingOf(c), ring).(calls := map[0 := c.(i := c.i + 1)])
  {
    Leaves(pc);
    assert map[0 := c][0 := c.(i := c.i + 1)] == map[0 := c.(i := c.i + 1)];
  }

  lemma PopTakes(w: Ring.Leaving, st: State, c: Request, ring: Ring.State)
    requires In(st, c, ring, Ring.PopBody) && ring.cur > 0
    ensures var t := ring.data[ring.cur - 1];
            var ring' := ring.(cur := ring.cur - 1);
            && Next(w, st, Step(0))
               == With(st, RingOf(c), Entered(ring', Ring.PopRelease(t))).(place := st.place[t := Spec.InCall(0)])
            && In(Next(w, st, Step(0)), c, ring', Ring.PopRelease(t))
  {
    var t := ring.data[ring.cur - 1];
    assert map[0 := Ring.PopBody][0 := Ring.PopRelease(t)] == map[0 := Ring.PopRelease(t)];
  }

  lemma PopGives(w: Ring.Leaving, st: State, c: Request, ring: Ring.State, t: Block)
    requires In(st, c, ring, Ring.PopRelease(t)) && t != 0
    ensures Next(w, st, Step(0)) == Deliver(With(st, RingOf(c), ring), 0, c.n, t)
    ensures Next(w, st, Step(0)).calls == map[]
  {
    Leaves(Ring.PopRelease(t));
    assert map[0 := c] - {0} == map[];
  }

  lemma PushStores(w: Ring.Leaving, st: State, c: Request, ring: Ring.State)
    requires c.Put? && In(st, c, ring, Ring.PushBody(c.b)) && ring.cur < |ring.data|
    ensures var ring' := ring.(data := ring.data[ring.cur := c.b], cur := ring.cur + 1);
            && Next(w, st, Step(0))
               == With(st, RingOf(c), Entered(ring', Ring.PushLeave(c.b)))
                    .(place := st.place[c.b := Spec.Pooled(RingOf(c), ring.cur)])
            && In(Next(w, st, Step(0)), c, ring', Ring.PushLeave(c.b))
  {
    assert map[0 := Ring.PushBody(c.b)][0 := Ring.PushLeave(c.b)] == map[0 := Ring.PushLeave(c.b)];
  }

  lemma PushEnds(w: Ring.Leaving, st: State, c: Request, ring: Ring.State)
    requires c.Put? && In(st, c, ring, Ring.PushLeave(c.b))
    ensures var left := if w.AsWritten? then ring.signal - 2 else ring.signal;
            Next(w, st, Step(0))
            == With(st, RingOf(c), ring.(signal := left, pushed := ring.pushed + 1)).(calls := map[])
  {
    Leaves(Ring.PushLeave(c.b));
    assert map[0 := c] - {0} == map[];
  }

  // ----- A pop or push from call to return -----

  function PopSteps(ring: Ring.State): nat {
    if ring.signal != 1 then 2 else if ring.cur == 0 then 3 else 4
  }

  function AfterPop(st: State, c: Request): State
    requires At(st, c)
  {
    var (ring', t) := Ring.PopOf(st.rings[RingOf(c)]);
    var st' := With(st, RingOf(c), ring');
    if t != 0 then Deliver(st', 0, c.n, t).(calls := map[]) else st'.(calls := map[0 := c.(i := c.i + 1)])
  }

  lemma RunSteps(w: Ring.Leaving, st: State, k: nat)
    ensures Run(w, st, Steps(k + 1)) == Run(w, Next(w, st, Step(0)), Steps(k))
    ensures Run(w, st, Steps(0)) == st
  {
    assert Steps(k + 1)[1..] == Steps(k);
  }

  lemma Rewritten(st: State, r: RingId, a: Ring.State, b: Ring.State)
    ensures st.rings[r := a][r := b] == st.rings[r := b]
  {
  }

  /** Through the counter and the look inside. */
  lemma GetsIn(w: Ring.Leaving, st: State, c: Request, k: nat) returns (s2: State)
    requires At(st, c) && st.rings[RingOf(c)].signal == 1
    requires var ring := st.rings[RingOf(c)]; if c.Get? then ring.cur > 0 else ring.cur < |ring.data|
    ensures var ring := st.rings[RingOf(c)];
            var pc := if c.Get? then Ring.PopBody else Ring.PushBody(c.b);
            s2 == With(st, RingOf(c), Entered(ring, pc)) && In(s2, c, ring, pc)
    ensures Run(w, st, Steps(k + 2)) == Run(w, s2, Steps(k))
  {
    var ring := st.rings[RingOf(c)];
    var pc := if c.Get? then Ring.PopTest else Ring.PushTest(c.b);
    Enter(w, st, c);
    var s1 := Next(w, st, Step(0));
    Look(w, s1, c, ring, pc);
    s2 := Next(w, s1, Step(0));
    RunSteps(w, st, k + 1);
    RunSteps(w, s1, k);
    Rewritten(st, RingOf(c), Entered(ring, pc), s2.rings[RingOf(c)]);
  }

  lemma RunTwo(w: Ring.Leaving, st: State, s1: State)
    requires s1 == Next(w, st, Step(0))
    ensures Run(w, st, Steps(2)) == Next(w, s1, Step(0))
  {
    RunSteps(w, st, 1);
    RunSteps(w, s1, 0);
    RunSteps(w, Next(w, s1, Step(0)), 0);
  }

  /** Taking and leaving. */
  lemma PopComesOut(w: Ring.Leaving, st: State, c: Request, ring: Ring.State)
    requires c.Get? && In(st, c, ring, Ring.PopBody) && ring.cur > 0 && ring.data[ring.cur - 1] != 0
    ensures var t := ring.data[ring.cur - 1];
            Run(w, st, Steps(2)) == Deliver(With(st, RingOf(c), ring.(cur := ring.cur - 1)), 0, c.n, t).(calls := map[])
  {
    var t := ring.data[ring.cur - 1];
    var ring' := ring.(cur := ring.cur - 1);
    PopTakes(w, st, c, ring);
    var s1 := Next(w, st, Step(0));
    PopGives(w, s1, c, ring', t);
    RunTwo(w, st, s1);
    Rewritten(st, RingOf(c), s1.rings[RingOf(c)], ring');
    assert st.place[t := Spec.InCall(0)][t := Spec.Held] == st.place[t := Spec.Held];
  }

  /** The pop finds a block. */
  lemma PopSucceeds(w: Ring.Leaving, st: State, c: Request)
    requires c.Get? && At(st, c) && st.rings[RingOf(c)].signal == 1 && st.rings[RingOf(c)].cur > 0
    requires 0 !in Ring.Contents(st.rings[RingOf(c)])
    ensures Run(w, st, Steps(4)) == AfterPop(st, c)
  {
    var ring := st.rings[RingOf(c)];
    assert Ring.Contents(ring)[ring.cur - 1] == ring.data[ring.cur - 1];
    var s2 := GetsIn(w, st, c, 2);
    PopComesOut(w, s2, c, ring);
    Rewritten(st, RingOf(c), Entered(ring, Ring.PopBody), ring.(cur := ring.cur - 1));
  }

  /** The pop finds the ring taken, or nothing in it. */
  lemma PopFails(w: Ring.Leaving, st: State, c: Request)
    requires c.Get? && At(st, c) && (st.rings[RingOf(c)].signal != 1 || st.rings[RingOf(c)].cur == 0)
    ensures Run(w, st, Steps(PopSteps(st.rings[RingOf(c)]))) == AfterPop(st, c)
  {
    var r := RingOf(c);
    var ring := st.rings[r];
    Enter(w, st, c);
    var s1 := Next(w, st, Step(0));
    var s2 := s1;
    if ring.signal == 1 {
      Look(w, s1, c, ring, Ring.PopTest);
      s2 := Next(w, s1, Step(0));
      RunSteps(w, s1, 1);
    }
    Fail(w, s2, c, ring, Ring.PopRelease(0));
    RunSteps(w, st, PopSteps(ring) - 1);
    RunSteps(w, s2, 0);
    Rewritten(st, r, s1.rings[r], s2.rings[r]);
    Rewritten(st, r, s2.rings[r], ring);
  }

  lemma SoloPop(w: Ring.Leaving, st: State, c: Request)
    requires c.Get? && At(st, c) && 0 !in Ring.Contents(st.rings[RingOf(c)])
    ensures Run(w, st, Steps(PopSteps(st.rings[RingOf(c)]))) == AfterPop(st, c)
  {
    var ring := st.rings[RingOf(c)];
    if ring.signal == 1 && ring.cur > 0 {
      PopSucceeds(w, st, c);
    } else {
      PopFails(w, st, c);
    }
  }

  function PushSteps(ring: Ring.State): nat {
    if ring.signal != 1 then 2 else if ring.cur < |ring.data| then 4 else 3
  }

  function AfterPush(w: Ring.Leaving, st: State, c: Request): State
    requires c.Put? && At(st, c)
  {
    var ring := st.rings[RingOf(c)];
    var (ring', ok) := Ring.PushOf(w, ring, c.b);
    var st' := With(st, RingOf(c), ring');
    if ok then st'.(calls := map[], place := st.place[c.b := Spec.Pooled(RingOf(c), ring.cur)])
    else st'.(calls := map[0 := c.(i := c.i + 1)])
  }

  /** Storing and leaving. */
  lemma PushGoesIn(w: Ring.Leaving, st: State, c: Request, ring: Ring.State)
    requires c.Put? && In(st, c, ring, Ring.PushBody(c.b)) && ring.cur < |ring.data| && ring.signal == 1
    ensures Run(w, st, Steps(2))
         == With(st, RingOf(c), Ring.PushOf(w, ring, c.b).0)
              .(calls := map[], place := st.place[c.b := Spec.Pooled(RingOf(c), ring.cur)])
  {
    var ring' := ring.(data := ring.data[ring.cur := c.b], cur := ring.cur + 1);
    PushStores(w, st, c, ring);
    var s1 := Next(w, st, Step(0));
    PushEnds(w, s1, c, ring');
    RunTwo(w, st, s1);
    Rewritten(st, RingOf(c), s1.rings[RingOf(c)], Ring.PushOf(w, ring, c.b).0);
  }

  lemma PushSucceeds(w: Ring.Leaving, st: State, c: Request)
    requires c.Put? && At(st, c)
    requires st.rings[RingOf(c)].signal == 1 && st.rings[RingOf(c)].cur < |st.rings[RingOf(c)].data|
    ensures Run(w, st, Steps(4)) == AfterPush(w, st, c)
  {
    var ring := st.rings[RingOf(c)];
    var s2 := GetsIn(w, st, c, 2);
    PushGoesIn(w, s2, c, ring);
    Rewritten(st, RingOf(c), Entered(ring, Ring.PushBody(c.b)), Ring.PushOf(w, ring, c.b).0);
  }

  lemma PushFails(w: Ring.Leaving, st: State, c: Request)
    requires c.Put? && At(st, c)
    requires st.rings[RingOf(c)].signal != 1 || st.rings[RingOf(c)].cur == |st.rings[RingOf(c)].data|
    ensures Run(w, st, Steps(PushSteps(st.rings[RingOf(c)]))) == AfterPush(w, st, c)
  {
    var r := RingOf(c);
    var ring := st.rings[r];
    Enter(w, st, c);
    var s1 := Next(w, st, Step(0));
    var s2 := s1;
    if ring.signal == 1 {
      Look(w, s1, c, ring, Ring.PushTest(c.b));
      s2 := Next(w, s1, Step(0));
      RunSteps(w, s1, 1);
    }
    Fail(w, s2, c, ring, Ring.PushRelease);
    RunSteps(w, st, PushSteps(ring) - 1);
    RunSteps(w, s2, 0);
    Rewritten(st, r, s1.rings[r], s2.rings[r]);
    Rewritten(st, r, s2.rings[r], ring);
  }

  lemma SoloPush(w: Ring.Leaving, st: State, c: Request)
    requires c.Put? && At(st, c)
    ensures Run(w, st, Steps(PushSteps(st.rings[RingOf(c)]))) == AfterPush(w, st, c)
  {
    var ring := st.rings[RingOf(c)];
    if ring.signal == 1 && ring.cur < |ring.data| {
      PushSucceeds(w, st, c);
    } else {
      PushFails(w, st, c);
    }
  }
}
