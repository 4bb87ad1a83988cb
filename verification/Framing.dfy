/** The wire format: a packed 14-byte header followed by the body it announces. */
module Framing {
  import opened Collections
  import opened Words

  const HEADER_SIZE := 14
  const MAX_LENGTH := 1024

  datatype Header = Header(nLen: UInt32, nCrc: UInt32, nSeq: UInt32, nType: UInt16)

  /** The struct under `#pragma pack(push, 1)` on a little-endian machine. */
  function Pack(h: Header): (r: seq<Byte>)
    ensures |r| == HEADER_SIZE
  {
    LittleEndian(h.nLen, 4) + LittleEndian(h.nCrc, 4) + LittleEndian(h.nSeq, 4) + LittleEndian(h.nType, 2)
  }

  function Field32(s: seq<Byte>): UInt32
    requires |s| == 4
  {
    FromLittleEndianRoundTrip(s);
    Pow2Values();
    FromLittleEndian(s)
  }

  function Field16(s: seq<Byte>): UInt16
    requires |s| == 2
  {
    FromLittleEndianRoundTrip(s);
    Pow2Values();
    Pow2Byte(8);
    FromLittleEndian(s)
  }

  function Unpack(s: seq<Byte>): Header
    requires |s| == HEADER_SIZE
  {
    Header(Field32(s[0..4]), Field32(s[4..8]), Field32(s[8..12]), Field16(s[12..14]))
  }

  /** Four consecutive fields are the slices at their offsets. */
  lemma Slices(a: seq<Byte>, b: seq<Byte>, c: seq<Byte>, d: seq<Byte>)
    requires |a| == |b| == |c| == 4 && |d| == 2
    ensures var s := a + b + c + d;
            |s| == HEADER_SIZE && s[0..4] == a && s[4..8] == b && s[8..12] == c && s[12..14] == d
  {
  }

  /** Byte `i` of a number, counted from the lowest. */
  function ByteOf(v: nat, i: nat): nat {
    if i == 0 then v % 0x100
    else if i == 1 then v / 0x100 % 0x100
    else if i == 2 then v / 0x1_0000 % 0x100
    else v / 0x100_0000 % 0x100
  }

  lemma ByteOfNext(v: nat, i: nat)
    requires 0 < i < 4
    ensures ByteOf(v, i) == ByteOf(v / 0x100, i - 1)
  {
    assert v / 0x100 / 0x100 == v / 0x1_0000;
    assert v / 0x100 / 0x1_0000 == v / 0x100_0000;
  }

  lemma {:induction false} LittleEndianAt(v: nat, n: nat, i: nat)
    requires i < n && i < 4
    ensures LittleEndian(v, n)[i] == ByteOf(v, i)
  {
    var rest := LittleEndian(v / 256, n - 1);
    assert LittleEndian(v, n) == [v % 256] + rest;
    if i > 0 {
      LittleEndianAt(v / 256, n - 1, i - 1);
      ByteOfNext(v, i);
      assert ([v % 256] + rest)[i] == rest[i - 1];
    }
  }

  lemma Field32Reads(v: UInt32)
    ensures Field32(LittleEndian(v, 4)) == v
  {
    Pow2Values();
    LittleEndianRoundTrip(v, 4);
  }

  lemma Field16Reads(v: UInt16)
    ensures Field16(LittleEndian(v, 2)) == v
  {
    Pow2Values();
    Pow2Byte(8);
    LittleEndianRoundTrip(v, 2);
  }

  lemma UnpackPack(h: Header)
    ensures Unpack(Pack(h)) == h
  {
    Slices(LittleEndian(h.nLen, 4), LittleEndian(h.nCrc, 4), LittleEndian(h.nSeq, 4), LittleEndian(h.nType, 2));
    Field32Reads(h.nLen);
    Field32Reads(h.nCrc);
    Field32Reads(h.nSeq);
    Field16Reads(h.nType);
  }

  lemma Joined(s: seq<Byte>)
    requires |s| == HEADER_SIZE
    ensures s == s[0..4] + s[4..8] + s[8..12] + s[12..14]
  {
  }

  lemma PackUnpack(s: seq<Byte>)
    requires |s| == HEADER_SIZE
    ensures Pack(Unpack(s)) == s
  {
    FromLittleEndianRoundTrip(s[0..4]);
    FromLittleEndianRoundTrip(s[4..8]);
    FromLittleEndianRoundTrip(s[8..12]);
    FromLittleEndianRoundTrip(s[12..14]);
    Joined(s);
  }

  datatype Frame = Frame(header: Header, body: seq<Byte>)

  /** The header announces the body. */
  predicate Sized(f: Frame) {
    |f.body| == f.header.nLen
  }

  /** Short enough for the receiver's buffer. */
  predicate Legal(f: Frame) {
    Sized(f) && f.header.nLen < MAX_LENGTH
  }

  function Print(f: Frame): seq<Byte> {
    Pack(f.header) + f.body
  }

  /** The layout of a packet on the wire, byte by byte: nLen at 0, nCrc at 4, nSeq at 8 and
      nType at 12, each lowest byte first, and the body from 14 on. */
  lemma {:induction false} Layout(f: Frame, i: nat)
    requires i < 4
    ensures |Print(f)| == 14 + |f.body|
    ensures Print(f)[i] == ByteOf(f.header.nLen, i)
    ensures Print(f)[4 + i] == ByteOf(f.header.nCrc, i)
    ensures Print(f)[8 + i] == ByteOf(f.header.nSeq, i)
    ensures i < 2 ==> Print(f)[12 + i] == ByteOf(f.header.nType, i)
    ensures Print(f)[14..] == f.body
  {
    var h := f.header;
    LittleEndianAt(h.nLen, 4, i);
    LittleEndianAt(h.nCrc, 4, i);
    LittleEndianAt(h.nSeq, 4, i);
    if i < 2 {
      LittleEndianAt(h.nType, 2, i);
    }
  }

  function PrintAll(fs: seq<Frame>): seq<Byte> {
    if fs == [] then [] else Print(fs[0]) + PrintAll(fs[1..])
  }

  /** A legal frame lies complete at the front of `s`. */
  predicate HasFrame(s: seq<Byte>) {
    && |s| >= HEADER_SIZE
    && var n := Unpack(s[..HEADER_SIZE]).nLen;
       n < MAX_LENGTH && |s| >= HEADER_SIZE + n
  }

  /** The reference parser: legal frames as long as they last. */
  function Parse(s: seq<Byte>): seq<Frame>
    decreases |s|
  {
    if !HasFrame(s) then []
    else
      var h := Unpack(s[..HEADER_SIZE]);
      var n := HEADER_SIZE + h.nLen;
      [Frame(h, s[HEADER_SIZE..n])] + Parse(s[n..])
  }

  lemma PrintHasFrame(f: Frame, rest: seq<Byte>)
    requires Legal(f)
    ensures HasFrame(Print(f) + rest)
    ensures Parse(Print(f) + rest) == [f] + Parse(rest)
  {
    var s := Print(f) + rest;
    UnpackPack(f.header);
    assert s[..HEADER_SIZE] == Pack(f.header);
    var n := HEADER_SIZE + f.header.nLen;
    assert s[HEADER_SIZE..n] == f.body;
    assert s[n..] == rest;
  }

  /** Taking the first frame off a stream. */
  lemma TakeFrame(s: seq<Byte>) returns (f: Frame, rest: seq<Byte>)
    requires HasFrame(s)
    ensures Legal(f) && s == Print(f) + rest
    ensures |rest| < |s| && Parse(s) == [f] + Parse(rest)
  {
    var h := Unpack(s[..HEADER_SIZE]);
    var n := HEADER_SIZE + h.nLen;
    PackUnpack(s[..HEADER_SIZE]);
    f, rest := Frame(h, s[HEADER_SIZE..n]), s[n..];
  }

  /** `HasFrame` means that the stream begins with some printed legal frame. */
  lemma HasFrameIff(s: seq<Byte>)
    ensures HasFrame(s) <==> exists f, rest :: Sized(f) && |f.body| < 1024 && s == Print(f) + rest
  {
    if HasFrame(s) {
      var f, rest := TakeFrame(s);
    }
    if f, rest :| Sized(f) && |f.body| < 1024 && s == Print(f) + rest {
      PrintHasFrame(f, rest);
    }
  }

  lemma PrintAllCons(f: Frame, fs: seq<Frame>, rest: seq<Byte>)
    ensures PrintAll([f] + fs) + rest == Print(f) + (PrintAll(fs) + rest)
  {
    assert ([f] + fs)[1..] == fs;
  }

  lemma ParseCons(f: Frame, fs: seq<Frame>, rest: seq<Byte>)
    requires Legal(f)
    ensures Parse(PrintAll([f] + fs) + rest) == [f] + Parse(PrintAll(fs) + rest)
  {
    PrintAllCons(f, fs, rest);
    PrintHasFrame(f, PrintAll(fs) + rest);
  }

  lemma {:induction false} ParsePrintAll(fs: seq<Frame>, rest: seq<Byte>)
    requires forall f | f in fs :: Legal(f)
    ensures Parse(PrintAll(fs) + rest) == fs + Parse(rest)
  {
    if fs == [] {
      assert PrintAll(fs) + rest == rest;
    } else {
      ParseCons(fs[0], fs[1..], rest);
      ParsePrintAll(fs[1..], rest);
      assert fs == [fs[0]] + fs[1..];
      AppendAssoc([fs[0]], fs[1..], Parse(rest));
    }
  }

  /** Whatever Parse returns was printed at the front of the stream, and what is left
      does not begin with a legal frame. */
  lemma {:induction false} ParseSound(s: seq<Byte>) returns (rest: seq<Byte>)
    ensures forall f | f in Parse(s) :: Legal(f)
    ensures s == PrintAll(Parse(s)) + rest && !HasFrame(rest)
    decreases |s|
  {
    rest := s;
    if HasFrame(s) {
      var f, tail := TakeFrame(s);
      rest := ParseSound(tail);
      PrintAllCons(f, Parse(tail), rest);
    }
  }

  /** The parse of a stream is the only list of legal frames that begins the stream and
      leaves no further legal frame behind it. */
  lemma ParseIff(s: seq<Byte>, fs: seq<Frame>)
    ensures Parse(s) == fs
       <==> (forall f | f in fs :: Sized(f) && |f.body| < 1024)
            && exists rest :: s == PrintAll(fs) + rest && !HasFrame(rest)
  {
    var r := ParseSound(s);
    if (forall f | f in fs :: Sized(f) && |f.body| < 1024)
       && exists rest :: s == PrintAll(fs) + rest && !HasFrame(rest) {
      var rest :| s == PrintAll(fs) + rest && !HasFrame(rest);
      ParsePrintAll(fs, rest);
    }
  }

  lemma HasFrameExtends(s: seq<Byte>, t: seq<Byte>)
    requires HasFrame(s)
    ensures HasFrame(s + t)
    ensures (s + t)[..HEADER_SIZE] == s[..HEADER_SIZE]
  {
    assert (s + t)[..HEADER_SIZE] == s[..HEADER_SIZE];
  }

  /** More input never takes back a frame. */
  lemma {:induction false} ParseMonotone(s: seq<Byte>, t: seq<Byte>)
    ensures Parse(s) <= Parse(s + t)
    decreases |s|
  {
    if HasFrame(s) {
      HasFrameExtends(s, t);
      var n := HEADER_SIZE + Unpack(s[..HEADER_SIZE]).nLen;
      ParseMonotone(s[n..], t);
      assert (s + t)[n..] == s[n..] + t;
      assert (s + t)[HEADER_SIZE..n] == s[HEADER_SIZE..n];
    }
  }

  /** The frames before the first one that is too long. */
  function LegalFront(fs: seq<Frame>): (r: seq<Frame>)
    ensures r <= fs && forall f | f in r :: Legal(f)
    ensures (forall f | f in fs :: Legal(f)) ==> r == fs
  {
    if fs == [] || !Legal(fs[0]) then [] else [fs[0]] + LegalFront(fs[1..])
  }

  /** The bodies in front are shorter than 1024 bytes, and the next one is not. */
  lemma {:induction false} LegalFrontIs(fs: seq<Frame>)
    requires forall f | f in fs :: Sized(f)
    ensures forall f | f in LegalFront(fs) :: |f.body| < 1024
    ensures |LegalFront(fs)| < |fs| ==> |fs[|LegalFront(fs)|].body| >= 1024
  {
    if fs != [] && Legal(fs[0]) {
      LegalFrontIs(fs[1..]);
      assert LegalFront(fs) == [fs[0]] + LegalFront(fs[1..]);
    }
  }

  /** Of a printed list of frames the parser recovers those before the first oversized one. */
  lemma {:induction false} ParseSized(fs: seq<Frame>)
    requires forall f | f in fs :: Sized(f)
    ensures Parse(PrintAll(fs)) == LegalFront(fs)
  {
    if fs != [] {
      if Legal(fs[0]) {
        PrintHasFrame(fs[0], PrintAll(fs[1..]));
        ParseSized(fs[1..]);
      } else {
        UnpackPack(fs[0].header);
        assert PrintAll(fs)[..HEADER_SIZE] == Pack(fs[0].header);
      }
    }
  }
}
