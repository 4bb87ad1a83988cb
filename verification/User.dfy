/** The security state of VUser: keyed checksum table and expected sequence number. */
module User {
  import opened Words
  import opened ShiftRegister
  import opened Crc32
  import opened Acceptor

  class VUser {
    var m_nKey: UInt32
    var m_nSeq: UInt32
    const m_CrcTable: array<UInt32>

    /** The table belongs to the key: InitSecretKey has been called. */
    ghost predicate Keyed()
      reads this, m_CrcTable
    {
      m_CrcTable.Length == 256 && IsTable(m_nKey, m_CrcTable[..])
    }

    /** Table and key start uninitialised. */
    constructor ()
      ensures m_nSeq == 0 && m_CrcTable.Length == 256 && fresh(m_CrcTable)
    {
      m_nSeq := 0;
      m_CrcTable := new UInt32[256];
    }

    method InitSecretKey(nKey: UInt32)
      requires m_CrcTable.Length == 256
      modifies this, m_CrcTable
      ensures Keyed()
      ensures m_nKey == nKey && m_nSeq == 0
    {
      m_nKey := nKey;
      m_nSeq := 0;
      var n: nat := 0;
      while n < 256
        invariant n <= 256
        invariant m_nKey == nKey && m_nSeq == 0
        invariant forall i | 0 <= i < n :: m_CrcTable[i] == Steps(nKey, i, 8)
      {
        var c: UInt32 := n;
        var k := 0;
        while k < 8
          invariant 0 <= k <= 8
          invariant Steps(nKey, c, 8 - k) == Steps(nKey, n, 8)
        {
          if c % 2 != 0 {
            c := Xor32(nKey, c / 2);
          } else {
            c := c / 2;
          }
          k := k + 1;
        }
        m_CrcTable[n] := c;
        n := n + 1;
      }
    }

    method CheckSecurity(nCRC: UInt32, nSeq: UInt32, pBuff: array<Byte>, nLen: UInt32) returns (ok: bool)
      requires Keyed()
      requires nLen <= pBuff.Length
      modifies this`m_nSeq
      ensures Keyed()
      ensures ok <==> Accepts(m_nKey, old(m_nSeq), Packet(nCRC, nSeq, pBuff[..nLen]))
      ensures m_nSeq == if ok then Next(old(m_nSeq)) else old(m_nSeq)
    {
      if nSeq == m_nSeq {
        var pass := nLen == 0;
        if !pass {
          var crc := GetCRC(m_nKey, pBuff, nLen, m_CrcTable);
          pass := nCRC == crc;
        }
        if pass {
          m_nSeq := (m_nSeq + 1) % 0x1_0000_0000;
          return true;
        }
      }
      return false;
    }
  }
}
