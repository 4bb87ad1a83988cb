/** The memory of asynchronous handlers: one inline block, the pool behind it. */
module HandlerAllocator {
  import opened PoolClients
  import opened SizeClasses
  import opened Words
  import AllocateManager

  class HandlerAllocator {
    var in_use_: bool
    const storage_: array<Byte>      // aligned_storage<1024>
    const manager: AllocateManager.AllocateManager

    /** Requests not yet given back, with their sizes. */
    ghost var live: map<Pointer, Size>

    ghost function View(): Client
      reads this
    {
      Handler(in_use_, live, storage_.Length)
    }

    ghost predicate Valid()
      reads this, manager
    {
      && manager.Valid()
      && InlineFits(View())
      && (forall b | Owns(View(), b) :: b in manager.held && Has(View(), b, manager.held[b]))
    }

    constructor (manager: AllocateManager.AllocateManager)
      requires manager.Valid()
      ensures Valid() && this.manager == manager
      ensures !in_use_ && live == map[] && storage_.Length == 1024 && fresh(storage_)
    {
      storage_ := new Byte[1024];
      this.manager := manager;
      in_use_, live := false, map[];
    }

    /** Hands out memory no live request has, of this or any other client of the manager:
        the inline storage to at most one request at a time, and only to one that fits. */
    method Allocate(nSize: Size) returns (p: Pointer)
      requires Valid()
      modifies this, manager
      ensures Valid()
      ensures p == Inline <==> !old(in_use_) && nSize < 1024
      ensures p == Inline ==> Inline !in old(live) && nSize <= storage_.Length
      ensures live == old(live)[p := nSize] && in_use_ == (old(in_use_) || p == Inline)
      ensures p == Inline ==> manager.held == old(manager.held)
      ensures p.Pooled? ==> p.b !in old(manager.held)
      ensures p.Pooled? ==> manager.held == old(manager.held)[p.b := nSize]
      ensures p.Pooled? ==> p.b in manager.memory && |manager.memory[p.b]| >= nSize
      ensures AllocateManager.Extends(old(manager.memory), manager.memory)
    {
      if !in_use_ && nSize < storage_.Length {
        in_use_ := true;
        p := Inline;
      } else {
        var b := manager.Allocate(nSize);
        p := Pooled(b);
      }
      live := live[p := nSize];
    }

    /** Takes back a live request. A pooled one returns to the manager with the size it was
        asked for, which is what the size classes rely on. */
    method Deallocate(p: Pointer, nSize: Size)
      requires Valid()
      requires p in live && live[p] == nSize
      modifies this, manager
      ensures Valid()
      ensures in_use_ == (old(in_use_) && p != Inline) && live == old(live) - {p}
      ensures manager.held == if p.Pooled? then old(manager.held) - {p.b} else old(manager.held)
      ensures manager.memory == old(manager.memory)
    {
      if p == Inline {
        in_use_ := false;
      } else {
        assert Owns(View(), p.b);
        manager.DeAllocate(p.b, nSize);
      }
      live := live - {p};
    }
  }
}
