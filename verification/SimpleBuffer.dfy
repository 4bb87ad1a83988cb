/** VSimpleBuffer: a block of the pool with the bytes of one or two sources. */
module SimpleBuffer {
  import opened SizeClasses
  import opened Words
  import AllocateManager

  /** Both parts into a block that is large enough. */
  method Fill(manager: AllocateManager.AllocateManager, block: Block,
              data1: array?<Byte>, l1: nat, data2: array?<Byte>, l2: nat)
    requires manager.Valid() && block in manager.memory && l1 + l2 <= |manager.memory[block]|
    requires data1 != null ==> l1 <= data1.Length
    requires data2 != null ==> l2 <= data2.Length
    modifies manager`memory
    ensures manager.Valid()
    ensures block in manager.memory && |manager.memory[block]| == |old(manager.memory[block])|
    ensures manager.memory == old(manager.memory)[block := manager.memory[block]]
    ensures data1 != null ==> manager.memory[block][..l1] == data1[..l1]
    ensures data2 != null ==> manager.memory[block][l1..l1 + l2] == data2[..l2]
  {
    if data1 != null && l1 > 0 {
      manager.MemCpy(block, 0, data1, l1);
    }
    if data2 != null && l2 > 0 {
      manager.MemCpy(block, l1, data2, l2);
    }
  }

  class SimpleBuffer {
    const manager: AllocateManager.AllocateManager
    var data_: Block
    var len_: Size

    predicate IsValid()
      reads this
    {
      data_ != 0 && len_ > 0
    }

    /** A valid buffer owns its block, asked for with its length. */
    ghost predicate Valid()
      reads this, manager
    {
      && manager.Valid()
      && (IsValid() ==>
           && data_ in manager.held && manager.held[data_] == len_
           && data_ in manager.memory && len_ <= |manager.memory[data_]|)
    }

    /** The bytes of the buffer; none if it is not valid. */
    function Contents(): seq<Byte>
      reads this, manager
    {
      if IsValid() && data_ in manager.memory && len_ <= |manager.memory[data_]| then manager.memory[data_][..len_]
      else []
    }

    constructor One(manager: AllocateManager.AllocateManager, data: array?<Byte>, l: Size)
      requires manager.Valid()
      requires data != null ==> l <= data.Length
      modifies manager
      ensures Valid() && this.manager == manager
      ensures IsValid() <==> data != null && l > 0
      ensures Contents() == if data != null then data[..l] else []
      ensures IsValid() ==> len_ == l && data_ !in old(manager.held)
      ensures manager.held == if IsValid() then old(manager.held)[data_ := l] else old(manager.held)
      ensures AllocateManager.Extends(old(manager.memory), manager.memory)
    {
      this.manager := manager;
      data_, len_ := 0, 0;
      new;
      if l > 0 && data != null {
        data_ := manager.Allocate(l);
        manager.MemCpy(data_, 0, data, l);
        len_ := l;
      }
    }

    /** Two parts, one behind the other. The part of an absent source keeps whatever the
        allocated block held. */
    constructor Two(manager: AllocateManager.AllocateManager, data1: array?<Byte>, l1: nat, data2: array?<Byte>, l2: nat)
      requires manager.Valid() && l1 + l2 <= MAX_SIZE
      requires data1 != null ==> l1 <= data1.Length
      requires data2 != null ==> l2 <= data2.Length
      modifies manager
      ensures Valid() && this.manager == manager
      ensures IsValid() <==> l1 + l2 > 0 && (data1 != null || data2 != null)
      ensures if IsValid() then |Contents()| == len_ == l1 + l2 else Contents() == []
      ensures IsValid() && data1 != null ==> Contents()[..l1] == data1[..l1]
      ensures IsValid() && data2 != null ==> Contents()[l1..] == data2[..l2]
      ensures IsValid() ==> data_ !in old(manager.held)
      ensures manager.held == if IsValid() then old(manager.held)[data_ := len_] else old(manager.held)
      ensures AllocateManager.Extends(old(manager.memory), manager.memory)
    {
      this.manager := manager;
      data_, len_ := 0, 0;
      new;
      var l := l1 + l2;
      if l > 0 && (data1 != null || data2 != null) {
        data_ := manager.Allocate(l);
        Fill(manager, data_, data1, l1, data2, l2);
        len_ := l;
      }
    }

    /** The destructor. Only a buffer that owns its block can be destroyed, so none twice. */
    method Destroy()
      requires Valid()
      modifies manager
      ensures manager.Valid()
      ensures manager.held == if IsValid() then old(manager.held) - {data_} else old(manager.held)
      ensures manager.memory == old(manager.memory)
    {
      if IsValid() {
        manager.DeAllocate(data_, len_);
      }
    }
  }
}
