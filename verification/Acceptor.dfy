/** Packet acceptance as a run over values: what VUser accepts, in which order. */
module Acceptor {
  import opened Words
  import opened ShiftRegister
  import opened Checksum

  datatype Packet = Packet(crc: UInt32, seq_: UInt32, body: seq<Byte>)

  /** The acceptance test for the expected sequence number `s`; the key is also the seed. */
  predicate Accepts(key: UInt32, s: UInt32, p: Packet) {
    p.seq_ == s && (p.body == [] || p.crc == Crc(key, key, p.body))
  }

  /** `++m_nSeq` on an unsigned 32-bit counter. */
  function Next(s: UInt32): UInt32 {
    (s + 1) % 0x1_0000_0000
  }

  /** The packets accepted out of `ps`, starting from expected sequence number `s`. */
  function Accepted(key: UInt32, s: UInt32, ps: seq<Packet>): (r: seq<Packet>)
    ensures |r| <= |ps|
    decreases |ps|
  {
    if ps == [] then []
    else if Accepts(key, s, ps[0]) then [ps[0]] + Accepted(key, Next(s), ps[1..])
    else Accepted(key, s, ps[1..])
  }

  lemma NextPlus(s: UInt32, j: nat)
    ensures (Next(s) + j) % 0x1_0000_0000 == (s + (j + 1)) % 0x1_0000_0000
  {
  }

  /** In every run the j-th accepted packet carries the j-th sequence number. */
  lemma {:induction false} AcceptedInOrder(key: UInt32, s: UInt32, ps: seq<Packet>, j: nat)
    requires j < |Accepted(key, s, ps)|
    ensures Accepted(key, s, ps)[j].seq_ == (s + j) % 0x1_0000_0000
    ensures Accepted(key, s, ps)[j] in ps
    decreases |ps|
  {
    if Accepts(key, s, ps[0]) {
      if j > 0 {
        NextPlus(s, j - 1);
        AcceptedInOrder(key, Next(s), ps[1..], j - 1);
      }
    } else {
      AcceptedInOrder(key, s, ps[1..], j);
    }
  }

  /** No sequence number is accepted twice within 2^32 acceptances. */
  lemma NoReplay(key: UInt32, s: UInt32, ps: seq<Packet>, i: nat, j: nat)
    requires i < j < |Accepted(key, s, ps)| && j - i < 0x1_0000_0000
    ensures Accepted(key, s, ps)[i].seq_ != Accepted(key, s, ps)[j].seq_
  {
    AcceptedInOrder(key, s, ps, i);
    AcceptedInOrder(key, s, ps, j);
  }

  // ----- Corruption -----

  function Genuine(key: UInt32, s: UInt32, body: seq<Byte>): Packet {
    Packet(Crc(key, key, body), s, body)
  }

  /** `p` is a packet for `body` whose body was altered within four adjacent bytes. */
  ghost predicate Corrupted(key: UInt32, p: Packet, body: seq<Byte>) {
    p.crc == Crc(key, key, body) && exists i, m :: m <= 4 && Burst(body, p.body, i, m)
  }

  ghost predicate RejectsCorruption(key: UInt32) {
    forall s, p, body | Corrupted(key, p, body) :: !Accepts(key, s, p)
  }

  /** Corrupted packets are rejected for exactly the keys with bit 31 set. */
  lemma RejectsCorruptionIff(key: UInt32)
    ensures RejectsCorruption(key) <==> key >= 0x8000_0000
  {
    if key >= 0x8000_0000 {
      forall s, p, body | Corrupted(key, p, body) ensures !Accepts(key, s, p) {
        var i, m :| m <= 4 && Burst(body, p.body, i, m);
        BurstDetected(key, key, body, p.body, i, m);
      }
    } else {
      var a, b := Collides(key, key);
      var p := Packet(Crc(key, key, a), 0, b);
      assert Burst(a, b, 0, 4);
      assert Corrupted(key, p, a) && Accepts(key, 0, p);
    }
  }

  // ----- An empty body is not checked -----

  /** Every packet with this body that is ever accepted carries the checksum of the body. */
  ghost predicate Enforced(key: UInt32, body: seq<Byte>) {
    forall s: UInt32, crc: UInt32 :: Accepts(key, s, Packet(crc, s, body)) ==> crc == Crc(key, key, body)
  }

  /** The checksum is enforced for exactly the packets that have a body. */
  lemma ChecksumEnforcedIff(key: UInt32, body: seq<Byte>)
    ensures Enforced(key, body) <==> body != []
  {
    if body == [] {
      var crc: UInt32 := if Crc(key, key, body) == 0 then 1 else 0;
      assert Accepts(key, 0, Packet(crc, 0, body)) && crc != Crc(key, key, body);
    }
  }

  // ----- Foreign packets among the sender's -----

  function Sent(key: UInt32, s: UInt32, bodies: seq<seq<Byte>>): (r: seq<Packet>)
    ensures |r| == |bodies|
    decreases |bodies|
  {
    if bodies == [] then [] else [Genuine(key, s, bodies[0])] + Sent(key, Next(s), bodies[1..])
  }

  /** What arrives: the sender's next packet, or one of somebody else. */
  datatype Item = Own | Foreign(p: Packet)

  function Owns(items: seq<Item>): nat {
    if items == [] then 0 else (if items[0].Own? then 1 else 0) + Owns(items[1..])
  }

  /** The stream for `bodies`, in order, with foreign packets anywhere in between. */
  function Stream(key: UInt32, s: UInt32, bodies: seq<seq<Byte>>, items: seq<Item>): seq<Packet>
    requires Owns(items) == |bodies|
    decreases |items|
  {
    if items == [] then []
    else if items[0].Own? then [Genuine(key, s, bodies[0])] + Stream(key, Next(s), bodies[1..], items[1..])
    else [items[0].p] + Stream(key, s, bodies, items[1..])
  }

  /** Every foreign packet fails the acceptance test at its place. */
  predicate Harmless(key: UInt32, s: UInt32, items: seq<Item>)
    decreases |items|
  {
    if items == [] then true
    else if items[0].Own? then Harmless(key, Next(s), items[1..])
    else !Accepts(key, s, items[0].p) && Harmless(key, s, items[1..])
  }

  /** No foreign packet is a copy of one of the sender's. */
  predicate NoCopies(sent: seq<Packet>, items: seq<Item>) {
    forall i | 0 <= i < |items| && items[i].Foreign? :: items[i].p !in sent
  }

  /** Foreign packets that fail the test are invisible. */
  lemma {:induction false} HarmlessIsInvisible(key: UInt32, s: UInt32, bodies: seq<seq<Byte>>, items: seq<Item>)
    requires Owns(items) == |bodies| && Harmless(key, s, items)
    ensures Accepted(key, s, Stream(key, s, bodies, items)) == Sent(key, s, bodies)
    decreases |items|
  {
    if items != [] {
      if items[0].Own? {
        HarmlessIsInvisible(key, Next(s), bodies[1..], items[1..]);
      } else {
        HarmlessIsInvisible(key, s, bodies, items[1..]);
      }
    }
  }

  /** A foreign packet that passes the test is among the accepted ones. */
  lemma {:induction false} HarmIsSeen(key: UInt32, s: UInt32, bodies: seq<seq<Byte>>, items: seq<Item>) returns (i: nat)
    requires Owns(items) == |bodies| && !Harmless(key, s, items)
    ensures i < |items| && items[i].Foreign? && items[i].p in Accepted(key, s, Stream(key, s, bodies, items))
    decreases |items|
  {
    if items[0].Own? {
      i := HarmIsSeen(key, Next(s), bodies[1..], items[1..]);
      i := i + 1;
    } else if Accepts(key, s, items[0].p) {
      i := 0;
    } else {
      i := HarmIsSeen(key, s, bodies, items[1..]);
      i := i + 1;
    }
  }

  /** With foreign packets anywhere, exactly the sender's are accepted, in order, if and only
      if every foreign one fails the test at its place: it has another number, or a body and
      a wrong checksum. */
  lemma {:induction false} AcceptsExactlyTheSenderIff(key: UInt32, s: UInt32, bodies: seq<seq<Byte>>, items: seq<Item>)
    requires Owns(items) == |bodies| && NoCopies(Sent(key, s, bodies), items)
    ensures Accepted(key, s, Stream(key, s, bodies, items)) == Sent(key, s, bodies) <==> Harmless(key, s, items)
  {
    if Harmless(key, s, items) {
      HarmlessIsInvisible(key, s, bodies, items);
    } else {
      var i := HarmIsSeen(key, s, bodies, items);
    }
  }

  /** Each foreign packet has another number than the one expected at its place, or is a
      corrupted one. */
  ghost predicate Noisy(key: UInt32, s: UInt32, items: seq<Item>)
    decreases |items|
  {
    if items == [] then true
    else if items[0].Own? then Noisy(key, Next(s), items[1..])
    else (items[0].p.seq_ != s || exists body :: Corrupted(key, items[0].p, body)) && Noisy(key, s, items[1..])
  }

  lemma {:induction false} NoiseIsHarmless(key: UInt32, s: UInt32, items: seq<Item>)
    requires key >= 0x8000_0000 && Noisy(key, s, items)
    ensures Harmless(key, s, items)
    decreases |items|
  {
    if items != [] {
      if items[0].Own? {
        NoiseIsHarmless(key, Next(s), items[1..]);
      } else {
        RejectsCorruptionIff(key);
        NoiseIsHarmless(key, s, items[1..]);
      }
    }
  }

  /** Corrupted packets and those with other numbers are invisible, wherever they arrive. */
  lemma AcceptsExactlyTheSender(key: UInt32, s: UInt32, bodies: seq<seq<Byte>>, items: seq<Item>)
    requires key >= 0x8000_0000 && Owns(items) == |bodies| && Noisy(key, s, items)
    ensures Accepted(key, s, Stream(key, s, bodies, items)) == Sent(key, s, bodies)
  {
    NoiseIsHarmless(key, s, items);
    HarmlessIsInvisible(key, s, bodies, items);
  }

  // ----- One foreign packet that passes the test -----

  /** `s` after `j` acceptances. */
  function Later(s: UInt32, j: nat): UInt32 {
    (s + j) % 0x1_0000_0000
  }

  lemma {:induction false} AcceptedSent(key: UInt32, s: UInt32, bodies: seq<seq<Byte>>)
    ensures Accepted(key, s, Sent(key, s, bodies)) == Sent(key, s, bodies)
    decreases |bodies|
  {
    if bodies != [] {
      AcceptedSent(key, Next(s), bodies[1..]);
    }
  }

  function Inserted(ps: seq<Packet>, j: nat, p: Packet): seq<Packet>
    requires j <= |ps|
  {
    ps[..j] + [p] + ps[j..]
  }

  /** `p` in the place of the packet at `j`, or behind all of them. */
  function Replaced(ps: seq<Packet>, j: nat, p: Packet): seq<Packet>
    requires j <= |ps|
  {
    ps[..j] + [p] + if j < |ps| then ps[j + 1..] else []
  }

  lemma InsertedCons(g: Packet, ps: seq<Packet>, j: nat, p: Packet)
    requires j <= |ps|
    ensures Inserted([g] + ps, j + 1, p) == [g] + Inserted(ps, j, p)
    ensures Replaced([g] + ps, j + 1, p) == [g] + Replaced(ps, j, p)
  {
    assert ([g] + ps)[..j + 1] == [g] + ps[..j];
    assert ([g] + ps)[j + 1..] == ps[j..];
    assert j < |ps| ==> ([g] + ps)[j + 2..] == ps[j + 1..];
  }

  lemma AcceptedCons(key: UInt32, s: UInt32, p: Packet, ps: seq<Packet>)
    ensures Accepted(key, s, [p] + ps)
         == if Accepts(key, s, p) then [p] + Accepted(key, Next(s), ps) else Accepted(key, s, ps)
  {
    assert ([p] + ps)[1..] == ps;
  }

  /** With the packet further back, the sender's first is accepted as it is. */
  lemma FirstIsAccepted(key: UInt32, s: UInt32, bodies: seq<seq<Byte>>, j: nat, p: Packet)
    requires 0 < j <= |bodies|
    ensures var g, rest := Genuine(key, s, bodies[0]), Sent(key, Next(s), bodies[1..]);
            && Accepted(key, s, Inserted(Sent(key, s, bodies), j, p))
               == [g] + Accepted(key, Next(s), Inserted(rest, j - 1, p))
            && Replaced(Sent(key, s, bodies), j, p) == [g] + Replaced(rest, j - 1, p)
  {
    var g, rest := Genuine(key, s, bodies[0]), Sent(key, Next(s), bodies[1..]);
    InsertedCons(g, rest, j - 1, p);
    AcceptedCons(key, s, g, Inserted(rest, j - 1, p));
  }

  lemma InsertedFirst(ps: seq<Packet>, p: Packet)
    ensures Inserted(ps, 0, p) == [p] + ps
    ensures Replaced(ps, 0, p) == [p] + if ps != [] then ps[1..] else []
  {
  }

  lemma DisplacesFirst(key: UInt32, s: UInt32, bodies: seq<seq<Byte>>, p: Packet)
    requires Accepts(key, s, p)
    ensures Accepted(key, s, Inserted(Sent(key, s, bodies), 0, p)) == Replaced(Sent(key, s, bodies), 0, p)
  {
    var sent := Sent(key, s, bodies);
    InsertedFirst(sent, p);
    AcceptedCons(key, s, p, sent);
    if bodies != [] {
      var rest := Sent(key, Next(s), bodies[1..]);
      AcceptedCons(key, Next(s), sent[0], rest);
      AcceptedSent(key, Next(s), bodies[1..]);
      assert sent[1..] == rest;
    }
  }

  /** It takes the place of the sender's packet with that number, which is then rejected. */
  lemma {:induction false} OneDisplaces(key: UInt32, s: UInt32, bodies: seq<seq<Byte>>, j: nat, p: Packet)
    requires j <= |bodies| && Accepts(key, Later(s, j), p)
    ensures Accepted(key, s, Inserted(Sent(key, s, bodies), j, p)) == Replaced(Sent(key, s, bodies), j, p)
    decreases j
  {
    if j == 0 {
      DisplacesFirst(key, s, bodies, p);
    } else {
      NextPlus(s, j - 1);
      OneDisplaces(key, Next(s), bodies[1..], j - 1, p);
      FirstIsAccepted(key, s, bodies, j, p);
    }
  }

  /** The sender's packet at `j` with its own number is a copy of what is expected there. */
  lemma {:induction false} SentAt(key: UInt32, s: UInt32, bodies: seq<seq<Byte>>, j: nat)
    requires j < |bodies|
    ensures Sent(key, s, bodies)[j] == Genuine(key, Later(s, j), bodies[j])
    decreases j
  {
    if j > 0 {
      NextPlus(s, j - 1);
      SentAt(key, Next(s), bodies[1..], j - 1);
    }
  }

  lemma FirstInvisible(key: UInt32, s: UInt32, bodies: seq<seq<Byte>>, p: Packet)
    requires !Accepts(key, s, p)
    ensures Accepted(key, s, Inserted(Sent(key, s, bodies), 0, p)) == Sent(key, s, bodies)
  {
    InsertedFirst(Sent(key, s, bodies), p);
    AcceptedCons(key, s, p, Sent(key, s, bodies));
    AcceptedSent(key, s, bodies);
  }

  lemma {:induction false} OneInvisible(key: UInt32, s: UInt32, bodies: seq<seq<Byte>>, j: nat, p: Packet)
    requires j <= |bodies| && !Accepts(key, Later(s, j), p)
    ensures Accepted(key, s, Inserted(Sent(key, s, bodies), j, p)) == Sent(key, s, bodies)
    decreases j
  {
    if j == 0 {
      FirstInvisible(key, s, bodies, p);
    } else {
      NextPlus(s, j - 1);
      OneInvisible(key, Next(s), bodies[1..], j - 1, p);
      FirstIsAccepted(key, s, bodies, j, p);
    }
  }

  /** One packet inserted before the j-th of the sender's leaves what is accepted as it was
      exactly when it fails the test there, or is a copy of the j-th. */
  lemma {:induction false} InsertionIff(key: UInt32, s: UInt32, bodies: seq<seq<Byte>>, j: nat, p: Packet)
    requires j <= |bodies|
    ensures Accepted(key, s, Inserted(Sent(key, s, bodies), j, p)) == Sent(key, s, bodies)
       <==> !Accepts(key, Later(s, j), p) || (j < |bodies| && p == Genuine(key, Later(s, j), bodies[j]))
  {
    var sent := Sent(key, s, bodies);
    if Accepts(key, Later(s, j), p) {
      OneDisplaces(key, s, bodies, j, p);
      if j < |bodies| {
        SentAt(key, s, bodies, j);
        assert Replaced(sent, j, p)[j] == p;
        assert sent == sent[..j] + [sent[j]] + sent[j + 1..];
      }
    } else {
      OneInvisible(key, s, bodies, j, p);
    }
  }

  /** The case the code lets through: an empty packet with the expected number, whatever its
      checksum, is accepted in place of the sender's packet with that number. */
  lemma EmptyDisplaces(key: UInt32, s: UInt32, bodies: seq<seq<Byte>>, j: nat, crc: UInt32)
    requires j < |bodies|
    ensures var sent, p := Sent(key, s, bodies), Packet(crc, Later(s, j), []);
            Accepted(key, s, Inserted(sent, j, p)) == sent[..j] + [p] + sent[j + 1..]
  {
    OneDisplaces(key, s, bodies, j, Packet(crc, Later(s, j), []));
  }
}
