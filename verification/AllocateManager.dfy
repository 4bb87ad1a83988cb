/** AllocateManager as its methods run one after the other, each call a run of the interleaved
    machine. */
module AllocateManager {
  import opened SizeClasses
  import opened Words
  import opened InterleavedAllocator
  import opened OneClient
  import opened ManagerRuns
  import Ring = RingBuffer
  import Spec = Allocator
  import PoolSafety

  /** The sizes of the blocks in memory. */
  function Sizes(memory: map<Block, seq<Byte>>): map<Block, nat> {
    map b | b in memory :: |memory[b]|
  }

  /** No block in memory has changed or gone. */
  predicate Extends(memory: map<Block, seq<Byte>>, memory': map<Block, seq<Byte>>) {
    forall b | b in memory :: b in memory' && memory'[b] == memory[b]
  }

  lemma SizesUpdate(memory: map<Block, seq<Byte>>, b: Block, bytes: seq<Byte>)
    ensures Sizes(memory[b := bytes]) == Sizes(memory)[b := |bytes|]
  {
  }

  class AllocateManager {
    /** m_Container[slot][thread]: the rings, embedded by value. */
    var m_Container: Container
    const threads: nat               // max_thread
    const size: nat                  // DEFAULT_SIZE_POOL / max_thread

    // The C heap: the name for the next block, the bytes of all blocks, calls to free.
    var next: Block
    var memory: map<Block, seq<Byte>>
    var freed: seq<Block>

    ghost var room: nat
    ghost var held: map<Block, Size>
    ghost var given: seq<Block>
    ghost var place: map<Block, Spec.Place>
    ghost var history: seq<Event>

    /** The manager's state with the given calls in progress. */
    ghost function View(calls: map<Tid, Request>): State
      requires Shaped(m_Container, threads)
      reads this
    {
      State(size, RingMap(m_Container, threads), room, calls, held, next, Sizes(memory), freed, given, place)
    }

    /** The state is one the machine reaches, with these calls in progress. */
    ghost predicate During(calls: map<Tid, Request>)
      reads this
    {
      && Shaped(m_Container, threads) && AllIdle(m_Container)
      && View(calls) == Reach(threads, size, history)
    }

    ghost predicate Valid()
      reads this
    {
      During(map[])
    }

    constructor (max_thread: nat, default_size: nat)
      ensures Valid() && threads == max_thread && size == default_size
      ensures View(map[]) == Initial(max_thread, default_size)
    {
      m_Container := seq(MAX_SLOT, _ => seq(max_thread, _ => Ring.Initial(1, 0)));
      threads, size := max_thread, default_size;
      next, memory, freed := 1, map[], [];
      room, held, given, place, history := 0, map[], [], map[], [];
      new;
      InitialContainer(max_thread, default_size);
    }

    method FindSlot(nSize: nat) returns (slot: nat)
      requires nSize <= 0x8000_0000
      ensures forall s: nat :: slot <= s <==> nSize <= Pow2(s)
      ensures nSize >= 1 ==> Pow2(slot) < 2 * nSize
      ensures slot == SlotOf(nSize)
    {
      slot := 0;
      Pow2Values();
      while Pow2(slot) < nSize
        invariant slot <= 31
        invariant slot > 0 ==> Pow2(slot - 1) < nSize
        decreases 31 - slot
      {
        slot := slot + 1;
      }
      forall s: nat {
        SlotIsLeast(nSize, s);
      }
      SlotIsLeast(nSize, slot);
    }

    /** The C library's part of malloc: whatever bytes are there, under a new name. */
    method NewBlock(bytes: nat) returns (pointer: Block)
      modifies this`next, this`memory
      ensures pointer == old(next) && next == old(next) + 1
      ensures Sizes(memory) == Sizes(old(memory))[pointer := bytes]
      ensures pointer in memory && memory == old(memory)[pointer := memory[pointer]]
    {
      var block := new Byte[bytes];
      SizesUpdate(memory, next, block[..]);
      pointer := next;
      memory := memory[pointer := block[..]];
      next := next + 1;
    }

    /** malloc: a block that was never handed out before. */
    method Malloc(bytes: nat, ghost n: Size, ghost i: nat) returns (pointer: Block)
      requires During(map[0 := Get(n, i)]) && RingId(SlotOf(n), i) !in Grid(threads)
      requires bytes == Capacity(n)
      modifies this`next, this`memory, this`held, this`given, this`place, this`history
      ensures Valid()
      ensures pointer in memory && memory == old(memory)[pointer := memory[pointer]]
      ensures pointer == old(next) && held == old(held)[pointer := n] && given == old(given) + [pointer]
    {
      MallocIsRun(threads, size, history, n, i, bytes, View(map[0 := Get(n, i)]));
      pointer := NewBlock(bytes);
      held, given, place := held[pointer := n], given + [pointer], place[pointer := Spec.Held];
      history := history + [Step(0)];
    }

    /** free, for a block whose release no ring took. */
    method Free(pointer: Block, ghost n: Size, ghost i: nat)
      requires During(map[0 := Put(n, pointer, i)]) && RingId(SlotOf(n), i) !in Grid(threads)
      modifies this`freed, this`place, this`history
      ensures Valid()
      ensures freed == old(freed) + [pointer]
    {
      FreeIsRun(threads, size, history, n, pointer, i);
      freed := freed + [pointer];
      place := place[pointer := Spec.Freed];
      history := history + [Step(0)];
    }

    /** pop on ring `i` of a slot, by a caller that is allocating `nSize` bytes. */
    method PopRing(nSlot: nat, i: nat, nSize: Size) returns (pointer: Ring.Ptr)
      requires During(map[0 := Get(nSize, i)])
      requires nSlot == SlotOf(nSize) < MAX_SLOT && i < threads
      modifies this`m_Container, this`held, this`given, this`place, this`history
      ensures During(if pointer != 0 then map[] else map[0 := Get(nSize, i + 1)])
      ensures if pointer != 0 then held == old(held)[pointer := nSize] && given == old(given) + [pointer]
              else held == old(held) && given == old(given) && m_Container == old(m_Container)
    {
      SameContainer(m_Container, nSlot, i);
      PopInVain(threads, size, history, m_Container, nSize, i);
      PopIsRun(threads, size, history, m_Container, nSize, i);
      var ring := m_Container[nSlot][i];
      var (ring', p) := Ring.PopOf(ring);
      pointer := p;
      m_Container := m_Container[nSlot := m_Container[nSlot][i := ring']];
      if p != 0 {
        held, given, place := held[p := nSize], given + [p], place[p := Spec.Held];
      }
      history := history + Steps(PopSteps(ring));
    }

    /** push on ring `i` of a slot, by a caller that is releasing a block. */
    method PushRing(nSlot: nat, i: nat, pointer: Block, ghost n: Size) returns (ok: bool)
      requires During(map[0 := Put(n, pointer, i)])
      requires nSlot == SlotOf(n) < MAX_SLOT && i < threads
      modifies this`m_Container, this`place, this`history
      ensures During(if ok then map[] else map[0 := Put(n, pointer, i + 1)])
      ensures ok == Takes(old(m_Container)[nSlot][i])
      ensures if ok then StoredAt(old(m_Container), m_Container, nSlot, i, pointer) else m_Container == old(m_Container)
    {
      SameContainer(m_Container, nSlot, i);
      if Takes(m_Container[nSlot][i]) {
        StoresAt(m_Container, nSlot, i, pointer);
      }
      PushIsRun(threads, size, history, m_Container, n, pointer, i);
      var ring := m_Container[nSlot][i];
      var (ring', pushed) := Ring.PushOf(Ring.AsWritten, ring, pointer);
      ok := pushed;
      m_Container := m_Container[nSlot := m_Container[nSlot][i := ring']];
      if ok {
        place := place[pointer := Spec.Pooled(RingId(nSlot, i), ring.cur)];
      }
      history := history + Steps(PushSteps(ring));
    }

    method ScanPop(nSlot: nat, nSize: Size) returns (pointer: Ring.Ptr)
      requires During(map[0 := Get(nSize, 0)])
      requires nSlot == SlotOf(nSize) < MAX_SLOT
      modifies this`m_Container, this`held, this`given, this`place, this`history
      ensures During(if pointer != 0 then map[] else map[0 := Get(nSize, threads)])
      ensures if pointer != 0 then held == old(held)[pointer := nSize] && given == old(given) + [pointer]
              else held == old(held) && given == old(given) && m_Container == old(m_Container)
    {
      var i := 0;
      while i < threads
        invariant i <= threads && During(map[0 := Get(nSize, i)])
        invariant held == old(held) && given == old(given) && m_Container == old(m_Container)
      {
        pointer := PopRing(nSlot, i, nSize);
        if pointer != 0 {
          return;
        }
        i := i + 1;
      }
      pointer := 0;
    }

    method ScanPush(nSlot: nat, pointer: Block, ghost n: Size) returns (taken: bool)
      requires During(map[0 := Put(n, pointer, 0)])
      requires nSlot == SlotOf(n) < MAX_SLOT
      modifies this`m_Container, this`place, this`history
      ensures During(if taken then map[] else map[0 := Put(n, pointer, threads)])
      ensures var i := FirstTaker(old(m_Container)[nSlot], 0);
              && taken == (i < threads)
              && if taken then StoredAt(old(m_Container), m_Container, nSlot, i, pointer)
                 else m_Container == old(m_Container)
    {
      var i := 0;
      while i < threads
        invariant i <= threads && During(map[0 := Put(n, pointer, i)])
        invariant m_Container == old(m_Container)
        invariant FirstTaker(m_Container[nSlot], 0) == FirstTaker(m_Container[nSlot], i)
      {
        taken := PushRing(nSlot, i, pointer, n);
        if taken {
          return;
        }
        i := i + 1;
      }
      taken := false;
    }

    /** The first ring of the slot that gives up a block, else malloc. */
    method Obtain(nSize: Size) returns (pointer: Block)
      requires Valid() && next !in memory && next != 0
      modifies this
      ensures Valid() && Extends(old(memory), memory)
      ensures held == old(held)[pointer := nSize] && given == old(given) + [pointer]
      ensures freed == old(freed) && (next == old(next) || m_Container == old(m_Container))
    {
      var nSlot := FindSlot(nSize);
      pointer := 0;
      AsksIsRun(threads, size, history, nSize);
      history := history + [Event.Allocate(0, nSize)];
      ghost var i := 0;
      if nSlot < MAX_SLOT {
        pointer := ScanPop(nSlot, nSize);
        i := threads;
      }
      if pointer == 0 {
        pointer := Malloc(if nSlot < MAX_SLOT then Pow2(nSlot) else nSize, nSize, i);
      }
    }

    /** A block that is large enough and no other client holds. Because of the second
        decrement in push it is always a new one. */
    method Allocate(nSize: Size) returns (pointer: Block)
      requires Valid()
      modifies this
      ensures Valid()
      ensures pointer == old(next) && next == pointer + 1
      ensures pointer != 0 && pointer !in old(held) && held == old(held)[pointer := nSize]
      ensures pointer in memory && |memory[pointer]| >= nSize
      ensures |memory[pointer]| == if nSize <= 0x8000 then Pow2(SlotOf(nSize)) else nSize
      ensures pointer !in old(memory) && Extends(old(memory), memory)
      ensures m_Container == old(m_Container) && freed == old(freed)
    {
      HeldNames(threads, size, history, View(map[]));
      assert next !in Sizes(memory);
      pointer := Obtain(nSize);
      LastIsNew(threads, size, history, View(map[]), old(given), pointer);
      assert Sizes(memory)[pointer] == |memory[pointer]|;
    }

    /** The first ring of the slot that takes the block, else free. */
    method GiveBack(pointer: Block, nSize: Size)
      requires Valid() && pointer in held && held[pointer] == nSize
      modifies this
      ensures Valid()
      ensures held == old(held) - {pointer} && memory == old(memory)
      ensures var i := TakerOf(old(m_Container), nSize);
              if SlotOf(nSize) < MAX_SLOT && i < threads then
                StoredAt(old(m_Container), m_Container, SlotOf(nSize), i, pointer) && freed == old(freed)
              else m_Container == old(m_Container) && freed == old(freed) + [pointer]
    {
      var nSlot := FindSlot(nSize);
      ReleasesIsRun(threads, size, history, pointer);
      history := history + [Release(0, pointer)];
      held, place := held - {pointer}, place[pointer := Spec.InCall(0)];
      var taken := false;
      ghost var i := 0;
      if nSlot < MAX_SLOT {
        taken := ScanPush(nSlot, pointer, nSize);
        i := threads;
      }
      if !taken {
        Free(pointer, nSize, i);
      }
    }

    /** Null is nothing to give back. Any other block goes into the first ring of its slot
        that can be taken and has room, or to free if there is none or it is larger than 2^15.
        The client gives a block back once, with the size it asked for. */
    method DeAllocate(pointer: Block, nSize: Size)
      requires Valid()
      requires pointer != 0 ==> pointer in held && held[pointer] == nSize
      modifies this
      ensures Valid()
      ensures held == old(held) - {pointer}
      ensures var i := TakerOf(old(m_Container), nSize);
              if pointer == 0 then m_Container == old(m_Container) && freed == old(freed)
              else if nSize <= 0x8000 && i < threads then
                StoredAt(old(m_Container), m_Container, SlotOf(nSize), i, pointer) && freed == old(freed)
              else m_Container == old(m_Container) && freed == old(freed) + [pointer]
      ensures memory == old(memory)
    {
      if pointer != 0 {
        SlotsWithRings(nSize);
        GiveBack(pointer, nSize);
      } else {
        HeldNames(threads, size, history, View(map[]));
      }
    }

    /** memcpy into a block. */
    method MemCpy(pointer: Block, at: nat, src: array<Byte>, n: nat)
      requires Valid() && n <= src.Length
      requires pointer in memory && at + n <= |memory[pointer]|
      modifies this`memory
      ensures Valid()
      ensures memory == old(memory)[pointer := old(memory[pointer][..at]) + src[..n] + old(memory[pointer][at + n..])]
    {
      var bytes := memory[pointer][..at] + src[..n] + memory[pointer][at + n..];
      SizesUpdate(memory, pointer, bytes);
      assert Sizes(memory)[pointer := |bytes|] == Sizes(memory);
      memory := memory[pointer := bytes];
    }

    method GiveSlot(before: seq<Ring.State>) returns (rings: seq<Ring.State>)
      ensures rings == Arrays(before, size)
    {
      rings := before;
      var i := 0;
      while i < |rings|
        invariant i <= |rings| == |before|
        invariant forall j | 0 <= j < i :: rings[j] == before[j].(data := seq(size, _ => 0))
        invariant forall j | i <= j < |rings| :: rings[j] == before[j]
      {
        rings := rings[i := rings[i].(data := seq(size, _ => 0))];
        i := i + 1;
      }
    }

    method GiveArrays()
      modifies this`m_Container
      ensures |m_Container| == |old(m_Container)|
      ensures forall s | 0 <= s < |m_Container| :: m_Container[s] == Arrays(old(m_Container)[s], size)
    {
      var s := 0;
      while s < |m_Container|
        invariant s <= |m_Container| == |old(m_Container)|
        invariant forall t | 0 <= t < s :: m_Container[t] == Arrays(old(m_Container)[t], size)
        invariant forall t | s <= t < |m_Container| :: m_Container[t] == old(m_Container)[t]
      {
        var rings := GiveSlot(m_Container[s]);
        m_Container := m_Container[s := rings];
        s := s + 1;
      }
    }

    /** SafeRingBuffer::size on every ring. */
    method Renew()
      requires Valid() && size > 0
      modifies this`m_Container, this`room
      ensures Shaped(m_Container, threads) && AllIdle(m_Container)
      ensures View(map[]) == Started(old(View(map[])))
      ensures forall s, i | 0 <= s < MAX_SLOT && 0 <= i < threads ::
                Renewed(old(m_Container)[s][i], m_Container[s][i], size)
    {
      ghost var st := View(map[]);
      StoredFits(threads, size, history, st);
      GiveArrays();
      ArraysEverywhere(old(m_Container), m_Container, threads, st);
      room := size;
    }

    /** Gives every ring a new array, whatever it holds. The state stays one the machine
        reaches if nothing was stored. */
    method Start()
      requires Valid()
      modifies this`m_Container, this`room, this`history
      ensures Shaped(m_Container, threads)
      ensures View(map[]) == if size > 0 then Started(old(View(map[]))) else old(View(map[]))
      ensures size == 0 || NothingPooled(old(View(map[]))) ==> Valid()
      ensures forall s, i | 0 <= s < MAX_SLOT && 0 <= i < threads ::
                Renewed(old(m_Container)[s][i], m_Container[s][i], size)
    {
      if size > 0 {
        ghost var st := View(map[]);
        Renew();
        if NothingPooled(st) {
          StartIsRun(threads, size, history, st);
          history := history + [Event.Start];
        }
      }
    }

    method StopSlot(s: nat)
      requires Shaped(m_Container, threads) && s < MAX_SLOT
      modifies this`freed
      ensures freed == old(freed) + Spec.RingsUpTo(Pools(RingMap(m_Container, threads)), s, threads)
    {
      ghost var pools := Pools(RingMap(m_Container, threads));
      var i := 0;
      while i < threads
        invariant i <= threads
        invariant freed == old(freed) + Spec.RingsUpTo(pools, s, i)
      {
        assert pools[RingId(s, i)] == Ring.Contents(m_Container[s][i]);
        freed := freed + Ring.Contents(m_Container[s][i]);
        RingsNext(old(freed), pools, s, i);
        i := i + 1;
      }
    }

    /** Frees everything stored, slot by slot and ring by ring. The rings keep their counts. */
    method Stop()
      requires Shaped(m_Container, threads)
      modifies this`freed
      ensures View(map[]) == PoolSafety.Stopped(old(View(map[])), threads)
    {
      ghost var pools := Pools(RingMap(m_Container, threads));
      var s := 0;
      while s < MAX_SLOT
        invariant s <= MAX_SLOT
        invariant freed == old(freed) + Spec.SlotsUpTo(pools, threads, s)
      {
        StopSlot(s);
        SlotsNext(old(freed), pools, threads, s);
        s := s + 1;
      }
    }
  }
}
