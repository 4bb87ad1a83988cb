/** Runs of one client that show what the second decrement in push costs, and what a second
    Stop does. */
module Reuse {
  import opened Collections
  import opened SizeClasses
  import opened Words
  import opened InterleavedAllocator
  import opened OneClient
  import Ring = RingBuffer
  import Spec = Allocator
  import PoolSafety

  /** Nobody is in the ring, nothing is in it, and it can be taken. */
  predicate Ready(ring: Ring.State, size: nat) {
    ring.callers == map[] && ring.signal == 1 && ring.cur == 0 && |ring.data| == size
  }

  predicate AllReady(st: State, threads: nat, size: nat) {
    st.rings.Keys == Grid(threads) && forall r | r in st.rings :: Ready(st.rings[r], size)
  }

  /** One byte is of slot 0. */
  lemma SlotOfOne()
    ensures SlotOf(1) == 0
  {
    assert Pow2(0) == 1;
  }

  /** Past one ring that has nothing. */
  lemma PassAt(w: Ring.Leaving, st: State, n: Size, i: nat)
    requires At(st, Get(n, i))
    requires st.rings[RingOf(Get(n, i))].signal == 1 && st.rings[RingOf(Get(n, i))].cur == 0
    ensures Run(w, st, Steps(PopSteps(st.rings[RingOf(Get(n, i))]))) == st.(calls := map[0 := Get(n, i + 1)])
  {
    SoloPop(w, st, Get(n, i));
    Same(st, RingOf(Get(n, i)));
  }

  lemma Pass(w: Ring.Leaving, st: State, threads: nat, size: nat, i: nat) returns (es: seq<Event>)
    requires AllReady(st, threads, size) && st.calls == map[0 := Get(1, i)] && i < threads
    ensures Run(w, st, es) == st.(calls := map[0 := Get(1, i + 1)])
  {
    SlotOfOne();
    assert RingOf(Get(1, i)) in Grid(threads);
    PassAt(w, st, 1, i);
    es := Steps(PopSteps(st.rings[RingOf(Get(1, i))]));
  }

  /** Past all the rings that have nothing, to malloc. */
  lemma {:induction false} Scan(w: Ring.Leaving, st: State, threads: nat, size: nat, i: nat) returns (es: seq<Event>)
    requires AllReady(st, threads, size) && st.calls == map[0 := Get(1, i)] && i <= threads
    ensures Run(w, st, es) == st.(calls := map[0 := Get(1, threads)])
    decreases threads - i
  {
    es := [];
    if i < threads {
      var front := Pass(w, st, threads, size, i);
      var rest := Scan(w, Run(w, st, front), threads, size, i + 1);
      RunAppend(w, st, front, rest);
      es := front + rest;
    }
  }

  /** A first request for one byte ends in malloc. */
  lemma FirstAllocate(w: Ring.Leaving, st: State, threads: nat, size: nat) returns (es: seq<Event>)
    requires AllReady(st, threads, size) && st.calls == map[]
    ensures Run(w, st, es) == Malloc(st, 0, 1)
  {
    var asked := Next(w, st, Allocate(0, 1));
    assert asked.calls == map[0 := Get(1, 0)];
    var scan := Scan(w, asked, threads, size, 0);
    var last := Run(w, asked, scan);
    SlotOfOne();
    assert RingOf(Get(1, threads)) !in last.rings;
    assert map[0 := Get(1, threads)] - {0} == map[] == st.calls - {0};
    RunOne(w, st, Allocate(0, 1));
    RunOne(w, last, Step(0));
    RunAppend(w, st, [Allocate(0, 1)], scan + [Step(0)]);
    RunAppend(w, asked, scan, [Step(0)]);
    es := [Allocate(0, 1)] + (scan + [Step(0)]);
  }

  /** The block of the release is at the first ring. */
  lemma ReleaseArrives(w: Ring.Leaving, st: State, threads: nat, size: nat, b: Block)
    requires AllReady(st, threads, size) && threads > 0
    requires st.calls == map[] && b in st.held && st.held[b] == 1
    ensures var asked := Next(w, st, Release(0, b));
            var c := Put(1, b, 0);
            && RingOf(c) == RingId(0, 0) && At(asked, c) && asked.rings == st.rings && asked.given == st.given
            && asked.place == st.place[b := Spec.InCall(0)]
  {
    SlotOfOne();
    assert map[][0 := Put(1, b, 0)] == map[0 := Put(1, b, 0)];
    assert RingId(0, 0) in Grid(threads);
  }

  /** A release of one byte goes into the first ring. */
  lemma FirstRelease(w: Ring.Leaving, st: State, threads: nat, size: nat, b: Block) returns (es: seq<Event>)
    requires AllReady(st, threads, size) && threads > 0 && size > 0
    requires st.calls == map[] && b in st.held && st.held[b] == 1
    ensures var st' := Run(w, st, es);
            var r := RingId(0, 0);
            && r in st.rings
            && st'.rings == st.rings[r := Ring.PushOf(w, st.rings[r], b).0]
            && st'.calls == map[] && st'.given == st.given && st'.place == st.place[b := Spec.Pooled(r, 0)]
  {
    var asked := Next(w, st, Release(0, b));
    var c := Put(1, b, 0);
    ReleaseArrives(w, st, threads, size, b);
    SoloPush(w, asked, c);
    var push := Steps(PushSteps(asked.rings[RingOf(c)]));
    RunOne(w, st, Release(0, b));
    RunAppend(w, st, [Release(0, b)], push);
    es := [Release(0, b)] + push;
    var w0 := Spec.Pooled(RingId(0, 0), 0);
    assert st.place[b := Spec.InCall(0)][b := w0] == st.place[b := w0];
  }

  /** Start, one request and its release: the block is stored. */
  lemma StoreOne(w: Ring.Leaving, threads: nat, size: nat) returns (es: seq<Event>)
    requires threads > 0 && size > 0
    ensures var st := Run(w, Initial(threads, size), es);
            var r := RingId(0, 0);
            && st.calls == map[] && st.given == [1] && r in st.rings
            && st.rings[r] == Ring.PushOf(w, Ring.Initial(1, size), 1).0
            && 1 in st.place && st.place[1] == Spec.Pooled(r, 0)
  {
    var st := Initial(threads, size);
    var started := Next(w, st, Start);
    assert started == Started(st);
    forall r | r in started.rings ensures started.rings[r] == Ring.Initial(1, size) {
    }
    var first := FirstAllocate(w, started, threads, size);
    var held := Run(w, started, first);
    assert held.calls == map[];
    var second := FirstRelease(w, held, threads, size, 1);
    assert [] + [1] == [1];
    RunOne(w, st, Start);
    RunAppend(w, st, [Start], first + second);
    RunAppend(w, started, first, second);
    es := [Start] + (first + second);
  }

  /** Two requests of one client, with a release in between, get the same block from rings
      whose push gives the counter back. */
  lemma IntendedReuses(threads: nat, size: nat) returns (es: seq<Event>)
    requires threads > 0 && size > 0
    ensures Run(Ring.AsIntended, Initial(threads, size), es).given == [1, 1]
  {
    var w := Ring.AsIntended;
    var front := StoreOne(w, threads, size);
    var st := Run(w, Initial(threads, size), front);
    var c := Get(1, 0);
    var asked := Next(w, st, Allocate(0, 1));
    SlotOfOne();
    assert asked.calls == map[0 := c];
    var ring := asked.rings[RingOf(c)];
    assert Ring.Contents(ring) == [1];
    SoloPop(w, asked, c);
    var pop := Steps(PopSteps(ring));
    assert [1] + [1] == [1, 1];
    RunOne(w, st, Allocate(0, 1));
    RunAppend(w, st, [Allocate(0, 1)], pop);
    RunAppend(w, Initial(threads, size), front, [Allocate(0, 1)] + pop);
    es := front + ([Allocate(0, 1)] + pop);
  }

  ghost predicate NeverReuses(w: Ring.Leaving, threads: nat, size: nat) {
    forall es :: Distinct(Run(w, Initial(threads, size), es).given)
  }

  /** The pool never hands out a block again exactly because of the second decrement. */
  lemma NeverReusesIff(w: Ring.Leaving, threads: nat, size: nat)
    requires threads > 0 && size > 0
    ensures NeverReuses(w, threads, size) <==> w.AsWritten?
  {
    if w.AsWritten? {
      forall es ensures Distinct(Run(w, Initial(threads, size), es).given) {
        PoolSafety.NothingIsReused(threads, size, es);
      }
    } else {
      var es := IntendedReuses(threads, size);
      var given := Run(w, Initial(threads, size), es).given;
      assert given[0] == given[1];
    }
  }

  ghost predicate StopTwiceIsSafe(w: Ring.Leaving, threads: nat, size: nat) {
    forall es :: var st := Run(w, Initial(threads, size), es);
                 Distinct(PoolSafety.Stopped(PoolSafety.Stopped(st, threads), threads).freed)
  }

  /** Some run ends with something stored, so that a second Stop frees it again. */
  lemma StopTwiceFreesTwice(w: Ring.Leaving, threads: nat, size: nat)
    requires threads > 0 && size > 0
    ensures !StopTwiceIsSafe(w, threads, size)
  {
    var es := StoreOne(w, threads, size);
    var st := Run(w, Initial(threads, size), es);
    Linearises(w, threads, size, es);
    Spec.AllPooledIff(Abs(st), threads, 1);
    assert 1 in PoolSafety.AllStored(st, threads);
    PoolSafety.SecondStopIff(w, threads, size, es, st);
  }
}
