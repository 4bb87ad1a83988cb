/** The power-of-two size classes of AllocateManager. */
module SizeClasses {
  import opened Words

  /** Blocks of memory, named in the order in which malloc returns them; 0 is null. */
  type Block = nat

  const MAX_SLOT := 16
  const MAX_SIZE := 0x8000_0000   // 1 << 31, the last power the slot search can reach

  type Size = n: nat | n <= MAX_SIZE

  function SlotFrom(n: Size, s: nat): (r: nat)
    requires s <= 31
    requires s > 0 ==> Pow2(s - 1) < n
    ensures r <= 31 && Pow2(r) >= n && (r > 0 ==> Pow2(r - 1) < n)
    decreases 31 - s
  {
    Pow2Values();
    if Pow2(s) >= n then s else SlotFrom(n, s + 1)
  }

  /** The size class of `n` bytes. */
  function SlotOf(n: Size): nat {
    SlotFrom(n, 0)
  }

  lemma {:induction false} Pow2Grows(m: nat, n: nat)
    requires m < n
    ensures 2 * Pow2(m) <= Pow2(n)
    decreases n
  {
    if m + 1 < n {
      Pow2Grows(m, n - 1);
    }
  }

  lemma SlotBounds(n: Size, s: nat)
    ensures SlotOf(n) <= s <==> n <= Pow2(s)
    ensures n >= 1 ==> Pow2(SlotOf(n)) < 2 * n
  {
    var r := SlotOf(n);
    if r < s {
      Pow2Grows(r, s);
    } else if s < r - 1 {
      Pow2Grows(s, r - 1);
    }
    if r == 0 {
      assert Pow2(0) == 1;
    }
  }

  /** For every size up to 2^31, the least power of two that is enough, and less than twice as
      much as asked for. */
  lemma SlotIsLeast(n: nat, s: nat)
    requires n <= 0x8000_0000
    ensures SlotOf(n) <= s <==> n <= Pow2(s)
    ensures n >= 1 ==> Pow2(SlotOf(n)) < 2 * n
  {
    SlotBounds(n, s);
  }

  /** Slots 0 to 15 have rings: requests of up to 2^15 bytes. */
  lemma SlotsWithRings(n: Size)
    ensures SlotOf(n) < MAX_SLOT <==> n <= 0x8000
  {
    assert Pow2(15) == 0x8000;
    SlotIsLeast(n, 15);
  }

  /** The capacity of a block obtained from malloc for a request of `n` bytes. */
  function Capacity(n: Size): nat {
    if SlotOf(n) < MAX_SLOT then Pow2(SlotOf(n)) else n
  }

  lemma CapacityEnough(n: Size)
    ensures Capacity(n) >= n
    ensures Capacity(n) == if n <= 0x8000 then Pow2(SlotOf(n)) else n
  {
    SlotsWithRings(n);
  }

  /** The name of a ring: `m_Container[slot][i]`. */
  datatype RingId = RingId(slot: nat, i: nat)

  /** All rings of a manager for `threads` threads. */
  function Grid(threads: nat): (g: set<RingId>)
    ensures forall r :: r in g <==> r.slot < MAX_SLOT && r.i < threads
  {
    set s, i | 0 <= s < MAX_SLOT && 0 <= i < threads :: RingId(s, i)
  }
}
