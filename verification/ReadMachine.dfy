/** The receiving side of a session as a machine fed one byte at a time, so that every
    way the network may cut the stream into pieces is the same run. */
module ReadMachine {
  import opened Collections
  import opened Words
  import opened Framing

  const POLICY_LENGTH := 22
  const LT: Byte := 0x3C
  const FLOW_A: Byte := 0x41

  /** What the outstanding read is for. */
  datatype Want = Flow | Policy | HeaderOf | BodyOf(header: Header)

  /** Bytes the outstanding read still delivers to its handler as one piece. */
  function Need(w: Want): nat {
    match w
    case Flow => 1
    case Policy => POLICY_LENGTH
    case HeaderOf => HEADER_SIZE
    case BodyOf(h) => h.nLen
  }

  /** `Closed`: no read is outstanding and none will be started. */
  datatype Reader = Reading(want: Want, got: seq<Byte>) | Closed

  datatype State = State(reader: Reader, frames: seq<Frame>)

  datatype Event = Arrives(b: Byte) | Fails

  function Start(bflow: bool): State {
    State(Reading(if bflow then Flow else HeaderOf, []), [])
  }

  /** The handler of a completed read. */
  function Completed(st: State, w: Want, bytes: seq<Byte>): State
    requires |bytes| == Need(w) && (w.BodyOf? ==> |bytes| > 0)
  {
    match w
    case Flow =>
      st.(reader := if bytes[0] == LT then Reading(Policy, [])
                    else if bytes[0] == FLOW_A then Reading(HeaderOf, [])
                    else Closed)
    case Policy => st.(reader := Closed)
    case HeaderOf =>
      var h := Unpack(bytes);
      if h.nLen >= MAX_LENGTH then st.(reader := Closed)
      else if h.nLen > 0 then st.(reader := Reading(BodyOf(h), []))
      else State(Reading(HeaderOf, []), st.frames + [Frame(h, [])])
    case BodyOf(h) => State(Reading(HeaderOf, []), st.frames + [Frame(h, bytes)])
  }

  /** Reads are outstanding only while incomplete, and bodies fit the buffer. */
  predicate Valid(st: State) {
    st.reader.Reading? ==>
      && |st.reader.got| < Need(st.reader.want)
      && (st.reader.want.BodyOf? ==> st.reader.want.header.nLen < MAX_LENGTH)
  }

  function Next(st: State, e: Event): (r: State)
    requires Valid(st)
    ensures Valid(r)
  {
    if st.reader.Closed? then st
    else if e.Fails? then st.(reader := Closed)
    else
      var got := st.reader.got + [e.b];
      if |got| < Need(st.reader.want) then st.(reader := Reading(st.reader.want, got))
      else Completed(st, st.reader.want, got)
  }

  function Run(st: State, es: seq<Event>): (r: State)
    requires Valid(st)
    ensures Valid(r)
    decreases |es|
  {
    if es == [] then st else Run(Next(st, es[0]), es[1..])
  }

  /** The bytes received before the first failure. */
  function Received(es: seq<Event>): seq<Byte> {
    if es == [] || es[0].Fails? then [] else [es[0].b] + Received(es[1..])
  }

  lemma {:induction false} ClosedStays(st: State, es: seq<Event>)
    requires st.reader.Closed?
    ensures Run(st, es) == st
  {
    if es != [] {
      ClosedStays(st, es[1..]);
    }
  }

  /** What the machine has consumed of the frame it is in the middle of. */
  function Pending(r: Reader): seq<Byte>
    requires r.Reading? && (r.want.HeaderOf? || r.want.BodyOf?)
  {
    if r.want.HeaderOf? then r.got else Pack(r.want.header) + r.got
  }

  predicate InFrame(st: State) {
    Valid(st) && st.reader.Reading? && (st.reader.want.HeaderOf? || st.reader.want.BodyOf?)
  }

  lemma PendingIncomplete(st: State)
    requires InFrame(st)
    ensures !HasFrame(Pending(st.reader))
  {
    if st.reader.want.BodyOf? {
      UnpackPack(st.reader.want.header);
      assert Pending(st.reader)[..HEADER_SIZE] == Pack(st.reader.want.header);
    }
  }

  /** The frames dispatched so far, then those the rest of the stream will give. */
  function Outlook(st: State, rest: seq<Byte>): seq<Frame> {
    st.frames + if InFrame(st) then Parse(Pending(st.reader) + rest) else []
  }

  /** A complete header without a body is a frame. */
  lemma EmptyFrame(h: Header, rest: seq<Byte>)
    requires h.nLen == 0
    ensures Parse(Pack(h) + rest) == [Frame(h, [])] + Parse(rest)
  {
    assert Print(Frame(h, [])) == Pack(h);
    PrintHasFrame(Frame(h, []), rest);
  }

  /** A header that announces too much ends the parse. */
  lemma OversizedHeader(h: Header, rest: seq<Byte>)
    requires h.nLen >= MAX_LENGTH
    ensures Parse(Pack(h) + rest) == []
  {
    UnpackPack(h);
    assert (Pack(h) + rest)[..HEADER_SIZE] == Pack(h);
  }

  /** Where the machine goes after a header. */
  function AfterHeader(h: Header): Reader {
    if h.nLen >= MAX_LENGTH then Closed
    else if h.nLen > 0 then Reading(BodyOf(h), [])
    else Reading(HeaderOf, [])
  }

  /** At the start of a frame the outlook is the parse of the rest. */
  lemma FreshOutlook(frames: seq<Frame>, rest: seq<Byte>)
    ensures Outlook(State(Reading(HeaderOf, []), frames), rest) == frames + Parse(rest)
  {
    assert [] + rest == rest;
  }

  lemma BodyOutlook(frames: seq<Frame>, h: Header, rest: seq<Byte>)
    requires 0 < h.nLen < MAX_LENGTH
    ensures Outlook(State(Reading(BodyOf(h), []), frames), rest) == frames + Parse(Pack(h) + rest)
  {
    assert Pack(h) + [] == Pack(h);
  }

  lemma EmptyOutlook(frames: seq<Frame>, h: Header, rest: seq<Byte>)
    requires h.nLen == 0
    ensures Outlook(State(Reading(HeaderOf, []), frames + [Frame(h, [])]), rest) == frames + Parse(Pack(h) + rest)
  {
    FreshOutlook(frames + [Frame(h, [])], rest);
    EmptyFrame(h, rest);
    AppendAssoc(frames, [Frame(h, [])], Parse(rest));
  }

  lemma HeaderOutlook(frames: seq<Frame>, h: Header, rest: seq<Byte>)
    ensures var frames' := if h.nLen == 0 then frames + [Frame(h, [])] else frames;
            Outlook(State(AfterHeader(h), frames'), rest) == frames + Parse(Pack(h) + rest)
  {
    if h.nLen == 0 {
      EmptyOutlook(frames, h, rest);
    } else if h.nLen >= MAX_LENGTH {
      OversizedHeader(h, rest);
    } else {
      BodyOutlook(frames, h, rest);
    }
  }

  lemma OutlookBefore(st: State, b: Byte, rest: seq<Byte>)
    requires InFrame(st) && st.reader.want.HeaderOf?
    ensures Outlook(st, [b] + rest) == st.frames + Parse((st.reader.got + [b]) + rest)
  {
    AppendAssoc(st.reader.got, [b], rest);
  }

  lemma HeaderNext(st: State, b: Byte)
    requires InFrame(st) && st.reader.want.HeaderOf? && |st.reader.got| + 1 == HEADER_SIZE
    ensures var h := Unpack(st.reader.got + [b]);
            Next(st, Arrives(b))
            == State(AfterHeader(h), if h.nLen == 0 then st.frames + [Frame(h, [])] else st.frames)
  {
  }

  lemma HeaderDone(st: State, b: Byte, rest: seq<Byte>)
    requires InFrame(st) && st.reader.want.HeaderOf? && |st.reader.got| + 1 == HEADER_SIZE
    ensures Outlook(Next(st, Arrives(b)), rest) == Outlook(st, [b] + rest)
  {
    var h := Unpack(st.reader.got + [b]);
    PackUnpack(st.reader.got + [b]);
    HeaderNext(st, b);
    OutlookBefore(st, b, rest);
    HeaderOutlook(st.frames, h, rest);
  }

  lemma BodyDone(st: State, b: Byte, rest: seq<Byte>)
    requires InFrame(st) && st.reader.want.BodyOf? && |st.reader.got| + 1 == Need(st.reader.want)
    ensures Outlook(Next(st, Arrives(b)), rest) == Outlook(st, [b] + rest)
  {
    var f := Frame(st.reader.want.header, st.reader.got + [b]);
    assert Pending(st.reader) + ([b] + rest) == Print(f) + rest;
    PrintHasFrame(f, rest);
    assert [] + rest == rest;
  }

  lemma PendingGrows(st: State, b: Byte)
    requires InFrame(st) && |st.reader.got| + 1 < Need(st.reader.want)
    ensures InFrame(Next(st, Arrives(b))) && Pending(Next(st, Arrives(b)).reader) == Pending(st.reader) + [b]
  {
  }

  /** One more byte moves from the stream into the machine without changing the outlook. */
  lemma ByteKeepsOutlook(st: State, b: Byte, rest: seq<Byte>)
    requires InFrame(st)
    ensures var r := Next(st, Arrives(b));
            (InFrame(r) || r.reader.Closed?) && Outlook(r, rest) == Outlook(st, [b] + rest)
  {
    if |st.reader.got| + 1 < Need(st.reader.want) {
      AppendAssoc(Pending(st.reader), [b], rest);
      PendingGrows(st, b);
    } else if st.reader.want.HeaderOf? {
      HeaderDone(st, b, rest);
    } else {
      BodyDone(st, b, rest);
    }
  }

  lemma {:induction false} InFrameParses(st: State, es: seq<Event>)
    requires InFrame(st)
    ensures Run(st, es).frames == Outlook(st, Received(es))
    decreases |es|
  {
    if es == [] || es[0].Fails? {
      PendingIncomplete(st);
      assert Pending(st.reader) + [] == Pending(st.reader);
      if es != [] {
        ClosedStays(Next(st, es[0]), es[1..]);
      }
    } else {
      var r := Next(st, es[0]);
      ByteKeepsOutlook(st, es[0].b, Received(es[1..]));
      if InFrame(r) {
        InFrameParses(r, es[1..]);
      } else {
        ClosedStays(r, es[1..]);
      }
    }
  }

  /** A session started without the flow byte dispatches exactly the reference parse of
      what it received, however the stream was cut and wherever it failed. */
  lemma HeaderStartParses(es: seq<Event>)
    ensures Run(Start(false), es).frames == Parse(Received(es))
  {
    InFrameParses(Start(false), es);
    assert [] + Received(es) == Received(es);
  }

  lemma {:induction false} PolicyDispatchesNothing(st: State, es: seq<Event>)
    requires Valid(st) && st.reader.Reading? && st.reader.want.Policy?
    ensures Run(st, es).frames == st.frames
    decreases |es|
  {
    if es != [] {
      var r := Next(st, es[0]);
      if r.reader.Closed? {
        ClosedStays(r, es[1..]);
      } else {
        PolicyDispatchesNothing(r, es[1..]);
      }
    }
  }

  lemma PolicyStart(st: State, es: seq<Event>)
    requires st.reader == Reading(Policy, []) && st.frames == []
    ensures Run(st, es).frames == []
  {
    PolicyDispatchesNothing(st, es);
  }

  lemma FlowStep(e: Event)
    ensures var r := Next(Start(true), e);
            && r.frames == []
            && r.reader == if e.Fails? then Closed
                           else if e.b == LT then Reading(Policy, [])
                           else if e.b == FLOW_A then Reading(HeaderOf, [])
                           else Closed
  {
  }

  /** A session started with the flow byte dispatches frames only after an 'A'. */
  lemma FlowStartParses(es: seq<Event>)
    ensures var s := Received(es);
            Run(Start(true), es).frames == if s != [] && s[0] == 0x41 then Parse(s[1..]) else []
  {
    if es != [] {
      var r := Next(Start(true), es[0]);
      FlowStep(es[0]);
      if r.reader.Closed? {
        ClosedStays(r, es[1..]);
      } else if r.reader.want.Policy? {
        PolicyStart(r, es[1..]);
      } else {
        assert r == Start(false);
        HeaderStartParses(es[1..]);
      }
    }
  }

  // ----- Streams without failure -----

  function Stream(s: seq<Byte>): (es: seq<Event>)
    ensures |es| == |s|
  {
    seq(|s|, i requires 0 <= i < |s| => Arrives(s[i]))
  }

  lemma {:induction false} ReceivedStream(s: seq<Byte>)
    ensures Received(Stream(s)) == s
  {
    if s != [] {
      ReceivedStream(s[1..]);
      assert Stream(s)[1..] == Stream(s[1..]);
    }
  }

  /** Printing any legal frames and reading them back is the identity. */
  lemma ReadPrinted(fs: seq<Frame>)
    requires forall f | f in fs :: Sized(f) && |f.body| < 1024
    ensures Run(Start(false), Stream(PrintAll(fs))).frames == fs
  {
    HeaderStartParses(Stream(PrintAll(fs)));
    ReceivedStream(PrintAll(fs));
    ParsePrintAll(fs, []);
    assert PrintAll(fs) + [] == PrintAll(fs);
  }
}
