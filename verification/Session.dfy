/** The session object: callbacks that update the write queue and the receive buffers.
    Methods named after the environment (Arrive, FailRead, Transmit, EndWrite, RunTask,
    RunWriteHandler) are what asio and the network do to a session. */
module Session {
  import opened Collections
  import opened Framing
  import opened SimpleBuffer
  import opened SizeClasses
  import opened Words
  import AllocateManager
  import Writer = WriteQueue
  import Reader = ReadMachine

  datatype Handler = OnFlow | OnPolicy | OnHeader | OnBody

  /** The outstanding asynchronous read: `count` of `length` bytes have been stored, from
      `offset` of the target buffer on. */
  datatype AsyncRead = NoRead | AsyncRead(handler: Handler, offset: nat, length: nat, count: nat)

  class Session {
    const manager: AllocateManager.AllocateManager
    var m_datas: seq<Writer.Buffer>   // contents of the queued, shared and unchanging buffers
    var tasks: seq<Writer.Buffer>     // do_write calls posted to the strand
    var socket: Writer.WriteOp        // the write side of the socket
    var wire: seq<Byte>               // bytes given to the peer of this connection

    const data_: array<Byte>
    const header_: array<Byte>        // memory of the header struct
    var read: AsyncRead
    var dispatched: seq<Frame>        // calls to ReceivePacket on this connection

    ghost predicate Valid()
      reads this, header_
    {
      && data_.Length == MAX_LENGTH && header_.Length == HEADER_SIZE && data_ != header_
      && (read.AsyncRead? ==>
           && read.count < read.length
           && match read.handler
              case OnFlow => read.offset == 0 && read.length == 1
              case OnPolicy => read.offset == 1 && read.length == Reader.POLICY_LENGTH
              case OnHeader => read.offset == 0 && read.length == HEADER_SIZE
              case OnBody => read.offset == 0 && read.length == Unpack(header_[..]).nLen < MAX_LENGTH)
    }

    ghost function WriteView(): Writer.State
      reads this
    {
      Writer.State(tasks, m_datas, socket, wire)
    }

    ghost function ReadView(): Reader.State
      requires Valid()
      reads this, data_, header_
    {
      Reader.State(
        match read
        case NoRead => Reader.Closed
        case AsyncRead(h, offset, length, count) =>
          match h
          case OnFlow => Reader.Reading(Reader.Flow, data_[offset..offset + count])
          case OnPolicy => Reader.Reading(Reader.Policy, data_[offset..offset + count])
          case OnHeader => Reader.Reading(Reader.HeaderOf, header_[..count])
          case OnBody => Reader.Reading(Reader.BodyOf(Unpack(header_[..])), data_[offset..offset + count]),
        dispatched)
    }

    constructor (manager: AllocateManager.AllocateManager)
      ensures Valid() && read == NoRead && this.manager == manager
      ensures WriteView() == Writer.FRESH
      ensures data_.Length == 1024 && header_.Length == 14
      ensures fresh(data_) && fresh(header_)
    {
      this.manager := manager;
      m_datas, tasks, socket, wire := [], [], Writer.Idle, [];
      data_ := new Byte[MAX_LENGTH];
      header_ := new Byte[HEADER_SIZE];
      read, dispatched := NoRead, [];
    }

    method ReadFlow()
      requires Valid()
      modifies this`read
      ensures Valid()
      ensures ReadView() == Reader.State(Reader.Reading(Reader.Flow, []), dispatched)
    {
      read := AsyncRead(OnFlow, 0, 1, 0);
    }

    method ReadHeader()
      requires Valid()
      modifies this`read
      ensures Valid()
      ensures ReadView() == Reader.State(Reader.Reading(Reader.HeaderOf, []), dispatched)
    {
      read := AsyncRead(OnHeader, 0, HEADER_SIZE, 0);
    }

    /** A connection begins. Pending callbacks keep a session alive, so none is pending
        when it is handed to a new connection; setting a socket option may throw. */
    method Start(bflow: bool, optionsSet: bool) returns (ok: bool)
      requires Valid() && read == NoRead && tasks == [] && !Writer.Outstanding(WriteView())
      modifies this
      ensures Valid()
      ensures ok == optionsSet
      ensures ok ==> WriteView() == Writer.FRESH && ReadView() == Reader.Start(bflow)
      ensures !ok ==> unchanged(this)
    {
      if !optionsSet {
        return false;
      }
      while m_datas != []
        invariant Valid() && read == NoRead && tasks == []
        decreases |m_datas|
      {
        m_datas := m_datas[1..];
      }
      socket, wire, dispatched := Writer.Idle, [], [];
      if bflow {
        ReadFlow();
      } else {
        ReadHeader();
      }
      return true;
    }

    // ----- Write side -----

    method SendBuffer(buffer: SimpleBuffer)
      requires buffer.Valid()
      modifies this`tasks
      ensures WriteView() == Writer.Next(old(WriteView()), Writer.Send(buffer.Contents()))
      ensures !buffer.IsValid() ==> tasks == old(tasks)
    {
      if buffer.IsValid() {
        tasks := tasks + [buffer.Contents()];
      }
    }

    /** The two-part write, also send_packet. */
    method Write(data1: array?<Byte>, l1: nat, data2: array?<Byte>, l2: nat) returns (buffer: SimpleBuffer)
      requires manager.Valid() && l1 + l2 <= MAX_SIZE
      requires data1 != null ==> l1 <= data1.Length
      requires data2 != null ==> l2 <= data2.Length
      modifies this`tasks, manager
      ensures fresh(buffer) && buffer.Valid() && buffer.manager == manager
      ensures |buffer.Contents()| == if data1 != null || data2 != null then l1 + l2 else 0
      ensures data1 != null ==> buffer.Contents()[..l1] == data1[..l1]
      ensures data2 != null ==> buffer.Contents()[l1..] == data2[..l2]
      ensures WriteView() == Writer.Next(old(WriteView()), Writer.Send(buffer.Contents()))
    {
      buffer := new SimpleBuffer.Two(manager, data1, l1, data2, l2);
      SendBuffer(buffer);
    }

    /** async_write: the socket takes the buffer and returns at once. */
    method AsyncWrite(buffer: Writer.Buffer)
      modifies this`socket
      ensures socket == Writer.Writing(buffer, 0)
    {
      socket := Writer.Writing(buffer, 0);
    }

    method DoWrite(error: bool, buffer: Writer.Buffer)
      modifies this`m_datas, this`socket
      ensures WriteView() == if error then old(WriteView()) else Writer.DoWrite(old(WriteView()), buffer)
    {
      if !error {
        if m_datas == [] {
          m_datas := m_datas + [buffer];
          AsyncWrite(buffer);
        } else {
          m_datas := m_datas + [buffer];
        }
      }
    }

    method HandleWrite(error: bool, ghost sent: nat)
      requires m_datas != [] && socket == Writer.Ended(!error, sent)
      modifies this`m_datas, this`socket
      ensures WriteView() == Writer.HandleWrite(old(WriteView()), !error, sent)
      ensures error ==> m_datas == old(m_datas) && !Writer.Outstanding(WriteView())
      ensures !error ==> m_datas == old(m_datas)[1..]
      ensures !error ==> socket == if m_datas == [] then Writer.Idle else Writer.Writing(m_datas[0], 0)
    {
      if !error {
        m_datas := m_datas[1..];
        if m_datas != [] {
          AsyncWrite(m_datas[0]);
        } else {
          socket := Writer.Idle;
        }
      } else {
        socket := Writer.Broken(socket.sent);
      }
    }

    method RunTask()
      modifies this`tasks, this`m_datas, this`socket
      ensures WriteView() == Writer.Next(old(WriteView()), Writer.RunTask)
    {
      if tasks != [] {
        var buffer := tasks[0];
        tasks := tasks[1..];
        DoWrite(false, buffer);
      }
    }

    method Transmit(n: nat)
      modifies this`socket, this`wire
      ensures WriteView() == Writer.Next(old(WriteView()), Writer.Transmit(n))
    {
      if socket.Writing? && socket.sent <= |socket.buf| {
        var m := socket.sent + Min(n, |socket.buf| - socket.sent);
        wire := wire + socket.buf[socket.sent..m];
        socket := Writer.Writing(socket.buf, m);
      }
    }

    method EndWrite(ok: bool)
      modifies this`socket
      ensures WriteView() == Writer.Next(old(WriteView()), Writer.WriteEnds(ok))
    {
      if socket.Writing? && (ok ==> socket.sent == |socket.buf|) {
        socket := Writer.Ended(ok, socket.sent);
      }
    }

    method RunWriteHandler()
      modifies this`m_datas, this`socket
      ensures WriteView() == Writer.Next(old(WriteView()), Writer.RunHandler)
    {
      if socket.Ended? && m_datas != [] {
        HandleWrite(!socket.ok, socket.sent);
      }
    }

    // ----- Read side -----

    method HandlerReadFlow(error: bool)
      requires Valid() && read == NoRead
      modifies this`read
      ensures Valid()
      ensures ReadView() == if error then old(ReadView()) else Reader.Completed(old(ReadView()), Reader.Flow, data_[..1])
    {
      if !error {
        assert data_[1..1] == [];
        if data_[0] == Reader.LT {
          read := AsyncRead(OnPolicy, 1, Reader.POLICY_LENGTH, 0);
        } else if data_[0] == Reader.FLOW_A {
          ReadHeader();
        }
      }
    }

    /** Answers a policy request, or not, and in either case starts no further read. */
    method HandlerReadPolicy(error: bool)
      requires Valid() && read == NoRead
      ensures Valid() && ReadView() == old(ReadView())
    {
    }

    method HandleReadBody(error: bool)
      requires Valid() && read == NoRead
      requires Unpack(header_[..]).nLen < MAX_LENGTH
      modifies this`read, this`dispatched
      ensures Valid()
      ensures error ==> read == NoRead && dispatched == old(dispatched)
      ensures !error ==>
        var h := Unpack(header_[..]);
        ReadView() == Reader.State(Reader.Reading(Reader.HeaderOf, []), old(dispatched) + [Frame(h, data_[..h.nLen])])
    {
      if !error {
        var h := Unpack(header_[..]);
        dispatched := dispatched + [Frame(h, data_[..h.nLen])];
        ReadHeader();
      }
    }

    method HandleReadHeader(error: bool)
      requires Valid() && read == NoRead
      modifies this`read, this`dispatched
      ensures Valid()
      ensures ReadView() == if error then old(ReadView())
                            else Reader.Completed(old(ReadView()), Reader.HeaderOf, header_[..])
      ensures var nLen := Unpack(header_[..]).nLen;
              if error || nLen >= 1024 then read == NoRead && dispatched == old(dispatched)
              else if nLen > 0 then read == AsyncRead(OnBody, 0, nLen, 0) && dispatched == old(dispatched)
              else read == AsyncRead(OnHeader, 0, 14, 0) && |dispatched| == |old(dispatched)| + 1
    {
      var nLen := Unpack(header_[..]).nLen;
      if !error && nLen < MAX_LENGTH {
        if nLen > 0 {
          read := AsyncRead(OnBody, 0, nLen, 0);
        } else {
          HandleReadBody(error);
        }
      }
    }

    method ArriveInHeader(b: Byte)
      requires Valid() && read.AsyncRead? && read.handler == OnHeader
      modifies this`read, this`dispatched, header_
      ensures Valid()
      ensures ReadView() == Reader.Next(old(ReadView()), Reader.Arrives(b))
    {
      var n := read.count;
      header_[n] := b;
      assert header_[..n + 1] == old(header_[..n]) + [b];
      if n + 1 < read.length {
        read := AsyncRead(OnHeader, 0, HEADER_SIZE, n + 1);
      } else {
        read := NoRead;
        assert header_[..] == header_[..n + 1];
        HandleReadHeader(false);
      }
    }

    /** The last byte of a read has been stored: its handler runs on the whole. */
    method FinishInData(h: Handler, ghost bytes: seq<Byte>)
      requires Valid() && read == NoRead
      requires match h
               case OnFlow => bytes == data_[0..1]
               case OnPolicy => true
               case OnHeader => false
               case OnBody => Unpack(header_[..]).nLen == |bytes| < MAX_LENGTH && bytes == data_[0..|bytes|]
      modifies this`read, this`dispatched
      ensures Valid()
      ensures match h
              case OnFlow => ReadView() == Reader.Completed(old(ReadView()), Reader.Flow, bytes)
              case OnPolicy => ReadView() == old(ReadView())
              case OnHeader => true
              case OnBody => ReadView() == Reader.State(Reader.Reading(Reader.HeaderOf, []),
                                                        old(dispatched) + [Frame(Unpack(header_[..]), bytes)])
    {
      match h {
        case OnFlow => HandlerReadFlow(false);
        case OnPolicy => HandlerReadPolicy(false);
        case OnBody => HandleReadBody(false);
      }
    }

    method ArriveInData(b: Byte)
      requires Valid() && read.AsyncRead? && read.handler != OnHeader
      modifies this`read, this`dispatched, data_
      ensures Valid()
      ensures ReadView() == Reader.Next(old(ReadView()), Reader.Arrives(b))
    {
      var r := read;
      data_[r.offset + r.count] := b;
      ghost var got := data_[r.offset..r.offset + r.count + 1];
      assert got == old(data_[r.offset..r.offset + r.count]) + [b];
      if r.count + 1 < r.length {
        read := AsyncRead(r.handler, r.offset, r.length, r.count + 1);
      } else {
        read := NoRead;
        FinishInData(r.handler, got);
      }
    }

    /** A byte arrives: it is stored at its place in the target buffer, and the last one
        of a read runs its handler. */
    method Arrive(b: Byte)
      requires Valid()
      modifies this`read, this`dispatched, data_, header_
      ensures Valid()
      ensures ReadView() == Reader.Next(old(ReadView()), Reader.Arrives(b))
    {
      if read.AsyncRead? {
        if read.handler == OnHeader {
          ArriveInHeader(b);
        } else {
          ArriveInData(b);
        }
      }
    }

    method FailRead()
      requires Valid()
      modifies this`read, this`dispatched
      ensures Valid()
      ensures ReadView() == Reader.Next(old(ReadView()), Reader.Fails)
    {
      if read.AsyncRead? {
        var h := read.handler;
        read := NoRead;
        match h {
          case OnFlow => HandlerReadFlow(true);
          case OnPolicy => HandlerReadPolicy(true);
          case OnHeader => HandleReadHeader(true);
          case OnBody => HandleReadBody(true);
        }
      }
    }
  }

  /** The chat user's sending side. */
  class ChatUser {
    var m_Session: Session?

    /** The header's checksum and sequence fields are never assigned and carry whatever the
        stack held. */
    method SendPacket(nPacketType: UInt16, pPacket: array?<Byte>, nLen: UInt32, crc: UInt32, seq_: UInt32)
      returns (ghost f: Frame)
      requires pPacket != null ==> nLen <= pPacket.Length
      requires HEADER_SIZE + nLen <= MAX_SIZE
      requires m_Session != null ==> m_Session.manager.Valid()
      modifies if m_Session != null then {m_Session, m_Session.manager} else {}
      ensures m_Session != null ==> m_Session.manager.Valid()
      ensures f.header == Header(nLen, crc, seq_, nPacketType) && Sized(f)
      ensures pPacket != null ==> f.body == pPacket[..nLen]
      ensures m_Session != null ==>
        m_Session.WriteView() == Writer.Next(old(m_Session.WriteView()), Writer.Send(Print(f)))
    {
      var header := Header(nLen, crc, seq_, nPacketType);
      var bytes := Pack(header);
      f := Frame(header, if pPacket != null then pPacket[..nLen] else seq(nLen, i => 0));
      if m_Session != null {
        var memory := new Byte[HEADER_SIZE](i requires 0 <= i < HEADER_SIZE => bytes[i]);
        assert memory[..HEADER_SIZE] == bytes;
        var buffer := m_Session.Write(memory, HEADER_SIZE, pPacket, nLen);
        ghost var sent := buffer.Contents();
        f := Frame(header, sent[HEADER_SIZE..]);
        assert sent == sent[..HEADER_SIZE] + sent[HEADER_SIZE..];
      }
    }
  }
}
