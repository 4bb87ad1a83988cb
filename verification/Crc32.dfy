/** The table-driven checksum of crc32.h, and its agreement with the shift register. */
module Crc32 {
  import opened Words
  import opened ShiftRegister

  type Table = t: seq<UInt32> | |t| == 256 witness seq(256, _ => 0)

  /** Entry `n` is `n` clocked eight times. */
  ghost predicate IsTable(k: UInt32, t: Table) {
    forall n | 0 <= n < 256 :: t[n] == Steps(k, n, 8)
  }

  /** One byte through a table: the macro DO1_BYTE. */
  function TableByte(t: Table, crc: UInt32, b: Byte): UInt32 {
    Xor32(t[Xor32(crc, b) % 256], crc / 256)
  }

  function TableRegister(t: Table, crc: UInt32, buf: seq<Byte>): UInt32
    decreases |buf|
  {
    if buf == [] then crc else TableRegister(t, TableByte(t, crc, buf[0]), buf[1..])
  }

  /** For the table of a key, one lookup is eight clocks fed with the byte's bits. */
  lemma TableByteIsSerial(k: UInt32, t: Table, crc: UInt32, b: Byte)
    requires IsTable(k, t)
    ensures TableByte(t, crc, b) == Serial(k, crc, BitsOf(b, 8))
  {
    Pow2Values();
    SerialOfWord(k, crc, b, 8);
    var z := Xor32(crc, b);
    StepsOfByte(k, z);
    XorShiftedOut(crc, b, 8);
    ShiftByte(z);
    ShiftByte(crc);
  }

  /** The table-driven register is the bit-serial one, for every key, seed and buffer. */
  lemma {:induction false} TableIsSerial(k: UInt32, t: Table, crc: UInt32, buf: seq<Byte>)
    requires IsTable(k, t)
    ensures TableRegister(t, crc, buf) == Serial(k, crc, Bits(buf))
    decreases |buf|
  {
    if buf != [] {
      TableByteIsSerial(k, t, crc, buf[0]);
      TableIsSerial(k, t, TableByte(t, crc, buf[0]), buf[1..]);
      SerialAppend(k, crc, BitsOf(buf[0], 8), Bits(buf[1..]));
    }
  }

  /** The step of both loops: the byte at `p` moves from the buffer into the register. */
  lemma TableConsume(t: Table, crc: UInt32, buf: seq<Byte>, p: nat)
    requires p < |buf|
    ensures TableRegister(t, crc, buf[p..]) == TableRegister(t, TableByte(t, crc, buf[p]), buf[p + 1..])
  {
    assert buf[p..][1..] == buf[p + 1..];
  }

  /** DO1_BYTE: fold the byte at the cursor into the register and advance. */
  method Do1Byte(c: UInt32, pBuffer: array<Byte>, ghost nLen: nat, p: nat, CrcTable: array<UInt32>)
    returns (c': UInt32, p': nat)
    requires p < nLen <= pBuffer.Length
    requires CrcTable.Length == 256
    ensures p' == p + 1
    ensures TableRegister(CrcTable[..], c, pBuffer[..nLen][p..])
            == TableRegister(CrcTable[..], c', pBuffer[..nLen][p'..])
  {
    c' := Xor32(CrcTable[Xor32(c, pBuffer[p]) % 256], c / 256);
    p' := p + 1;
    TableConsume(CrcTable[..], c, pBuffer[..nLen], p);
  }

  /** The four-argument GetCRC: eight bytes per round, then the tail. The table is the
      caller's; `nLen` bytes are read from the front of `pBuffer`. */
  method GetCRC(CRC: UInt32, pBuffer: array<Byte>, nLen: UInt32, CrcTable: array<UInt32>) returns (r: UInt32)
    requires nLen <= pBuffer.Length
    requires CrcTable.Length == 256
    ensures r == Not32(TableRegister(CrcTable[..], Not32(CRC), pBuffer[..nLen]))
    ensures forall k: UInt32 | IsTable(k, CrcTable[..]) :: r == Crc(k, CRC, pBuffer[..nLen])
  {
    ghost var buf: seq<Byte> := pBuffer[..nLen];
    ghost var t: Table := CrcTable[..];
    var c := Not32(CRC);
    var p, n := 0, nLen;
    assert buf[0..] == buf;
    while n >= 8
      invariant p + n == nLen
      invariant TableRegister(t, c, buf[p..]) == TableRegister(t, Not32(CRC), buf)
    {
      c, p := Do1Byte(c, pBuffer, nLen, p, CrcTable);
      c, p := Do1Byte(c, pBuffer, nLen, p, CrcTable);
      c, p := Do1Byte(c, pBuffer, nLen, p, CrcTable);
      c, p := Do1Byte(c, pBuffer, nLen, p, CrcTable);
      c, p := Do1Byte(c, pBuffer, nLen, p, CrcTable);
      c, p := Do1Byte(c, pBuffer, nLen, p, CrcTable);
      c, p := Do1Byte(c, pBuffer, nLen, p, CrcTable);
      c, p := Do1Byte(c, pBuffer, nLen, p, CrcTable);
      n := n - 8;
    }
    while n != 0
      invariant p + n == nLen
      invariant TableRegister(t, c, buf[p..]) == TableRegister(t, Not32(CRC), buf)
    {
      n := n - 1;
      c, p := Do1Byte(c, pBuffer, nLen, p, CrcTable);
    }
    r := Not32(c);
    forall k: UInt32 | IsTable(k, t) ensures r == Crc(k, CRC, buf) {
      TableIsSerial(k, t, Not32(CRC), buf);
    }
  }
}
