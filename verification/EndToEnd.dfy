/** From SendPacket to ReceivePacket: the write queue of one session feeding the read
    machine of its peer. */
module EndToEnd {
  import opened Words
  import opened Framing
  import Writer = WriteQueue
  import Reader = ReadMachine

  function Printed(fs: seq<Frame>): (r: seq<Writer.Buffer>)
    ensures |r| == |fs|
  {
    if fs == [] then [] else [Print(fs[0])] + Printed(fs[1..])
  }

  lemma {:induction false} ConcatPrinted(fs: seq<Frame>)
    ensures Writer.Concat(Printed(fs)) == PrintAll(fs)
  {
    if fs != [] {
      ConcatPrinted(fs[1..]);
    }
  }

  lemma ParseOfPrefix(s: seq<Byte>, t: seq<Byte>)
    requires s <= t
    ensures Parse(s) <= Parse(t)
  {
    ParseMonotone(s, t[|s|..]);
    assert s + t[|s|..] == t;
  }

  /** The writer `es` sends the frames `fs`; the reader, started without the flow byte, has
      received any part of what the writer got onto the wire. Whatever failed on either
      side, what is dispatched is a prefix of what was sent, up to the first frame too
      long for the receiver's buffer. */
  lemma DispatchedInOrder(es: seq<Writer.Event>, fs: seq<Frame>, rs: seq<Reader.Event>)
    requires forall f | f in fs :: Sized(f)
    requires Writer.Sent(es) == Printed(fs)
    requires Reader.Received(rs) <= Writer.Run(Writer.FRESH, es).wire
    ensures Reader.Run(Reader.Start(false), rs).frames <= LegalFront(fs) <= fs
    ensures forall f | f in LegalFront(fs) :: |f.body| < 1024
    ensures |LegalFront(fs)| < |fs| ==> |fs[|LegalFront(fs)|].body| >= 1024
  {
    Writer.Safe(es);
    ConcatPrinted(fs);
    Reader.HeaderStartParses(rs);
    ParseOfPrefix(Reader.Received(rs), PrintAll(fs));
    ParseSized(fs);
    LegalFrontIs(fs);
  }

  /** When every byte arrives, everything is dispatched exactly if every body is short
      enough for the receiver. */
  lemma AllDispatchedIff(es: seq<Writer.Event>, fs: seq<Frame>, rs: seq<Reader.Event>, m: nat)
    requires forall f | f in fs :: Sized(f)
    requires Writer.Sent(es) == Printed(fs)
    requires Writer.Healthy(Writer.Run(Writer.FRESH, es)) && Writer.Fits(Printed(fs), m)
    requires Reader.Received(rs) == Writer.Finish(Writer.Run(Writer.FRESH, es), m).wire
    ensures Reader.Run(Reader.Start(false), rs).frames == fs <==> forall f | f in fs :: |f.body| < 1024
  {
    Writer.AllIsWritten(es, m);
    ConcatPrinted(fs);
    Reader.HeaderStartParses(rs);
    ParseSized(fs);
    if LegalFront(fs) == fs {
      assert forall f | f in fs :: Legal(f);
    }
  }

  /** A frame with `n` zero bytes. */
  function Zeroes(n: UInt32): Frame {
    Frame(Header(n, 0, 0, 0), seq(n, _ => 0))
  }

  lemma PrintedOne(f: Frame)
    ensures Printed([f]) == [Print(f)] && PrintAll([f]) == Print(f)
  {
    assert [f][1..] == [];
    assert Print(f) + [] == Print(f);
  }

  lemma SendsOne(b: Writer.Buffer)
    requires b != []
    ensures Writer.Sent([Writer.Send(b)]) == [b]
    ensures Writer.Run(Writer.FRESH, [Writer.Send(b)]) == Writer.Next(Writer.FRESH, Writer.Send(b))
  {
    assert [Writer.Send(b)][1..] == [];
  }

  /** One buffer sent and written. */
  lemma SendsAndWrites(b: Writer.Buffer)
    requires b != []
    ensures var es := [Writer.Send(b)];
            && Writer.Sent(es) == [b] && Writer.Healthy(Writer.Run(Writer.FRESH, es))
            && Writer.Finish(Writer.Run(Writer.FRESH, es), |b|).wire == b
  {
    SendsOne(b);
    Writer.ConcatOne(b);
    Writer.AllIsWritten([Writer.Send(b)], |b|);
  }

  /** Nothing fails and every byte arrives, and yet a body of 1024 bytes or more is not
      dispatched: one such frame sent alone. */
  lemma OversizedIsLost(n: UInt32) returns (es: seq<Writer.Event>, rs: seq<Reader.Event>)
    requires n >= 1024
    ensures Writer.Sent(es) == Printed([Zeroes(n)]) && Writer.Healthy(Writer.Run(Writer.FRESH, es))
    ensures Reader.Received(rs) == Print(Zeroes(n))
         == Writer.Finish(Writer.Run(Writer.FRESH, es), HEADER_SIZE + n).wire
    ensures Reader.Run(Reader.Start(false), rs).frames == []
  {
    var f := Zeroes(n);
    var b := Print(f);
    es, rs := [Writer.Send(b)], Reader.Stream(b);
    PrintedOne(f);
    SendsAndWrites(b);
    Reader.ReceivedStream(b);
    Reader.HeaderStartParses(rs);
    ParseSized([f]);
  }
}
