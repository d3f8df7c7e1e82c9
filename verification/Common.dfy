/** Bytes, Ethernet addresses and in-place buffer writes shared by the whole model. */
module Common {

  type Byte = b: int | 0 <= b < 0x100

  type U16 = x: int | 0 <= x < 0x1_0000
  type U32 = x: int | 0 <= x < 0x1_0000_0000

  const ETHER_ADDR_LEN: nat := 6

  type Mac = m: seq<Byte> | |m| == ETHER_ADDR_LEN witness [0, 0, 0, 0, 0, 0]

  const ZERO_MAC: Mac := [0, 0, 0, 0, 0, 0]
  const BROADCAST: Mac := [0xFF, 0xFF, 0xFF, 0xFF, 0xFF, 0xFF]

  datatype Option<+T> = None | Some(value: T)

  function Min(a: nat, b: nat): nat {
    if a <= b then a else b
  }

  /** Six byte comparisons, as the source writes them, decide equality of addresses. */
  predicate EtherAddrCmp(a1: Mac, a2: Mac)
    ensures EtherAddrCmp(a1, a2) <==> a1 == a2
  {
    && a1[0] == a2[0] && a1[1] == a2[1] && a1[2] == a2[2]
    && a1[3] == a2[3] && a1[4] == a2[4] && a1[5] == a2[5]
  }

  /** The buffer `s` after `bytes` were copied to offset `p`, byte by byte. */
  function Splice(s: seq<Byte>, p: nat, bytes: seq<Byte>): (r: seq<Byte>)
    ensures |r| == |s|
    decreases |bytes|
  {
    if bytes == [] || p >= |s| then s else Splice(s[p := bytes[0]], p + 1, bytes[1..])
  }

  /** The three parts of a buffer after a write: the bytes in place, everything outside as before. */
  lemma {:induction false} SpliceParts(s: seq<Byte>, p: nat, bytes: seq<Byte>)
    requires p + |bytes| <= |s|
    ensures Splice(s, p, bytes) == s[..p] + bytes + s[p + |bytes|..]
    decreases |bytes|
  {
    if bytes == [] {
      assert s == s[..p] + s[p..];
    } else {
      var t := s[p := bytes[0]];
      SpliceParts(t, p + 1, bytes[1..]);
      assert t[..p + 1] + bytes[1..] == s[..p] + bytes;
      assert t[p + |bytes|..] == s[p + |bytes|..];
    }
  }

  /** Two adjacent writes are one write of the concatenation: appending keeps what was written before. */
  lemma {:induction false} SpliceAppend(s: seq<Byte>, p: nat, a: seq<Byte>, b: seq<Byte>)
    requires p + |a| + |b| <= |s|
    ensures Splice(Splice(s, p, a), p + |a|, b) == Splice(s, p, a + b)
  {
    var t := s[..p] + a + s[p + |a|..];
    SpliceParts(s, p, a);
    SpliceParts(t, p + |a|, b);
    SpliceParts(s, p, a + b);
    assert t[..p + |a|] == s[..p] + a;
    assert t[p + |a| + |b|..] == s[p + |a| + |b|..];
  }

  /** A write of the same extent hides the earlier one. */
  lemma {:induction false} SpliceOver(s: seq<Byte>, p: nat, a: seq<Byte>, b: seq<Byte>)
    requires |a| == |b| && p + |a| <= |s|
    ensures Splice(Splice(s, p, a), p, b) == Splice(s, p, b)
  {
    var t := s[..p] + a + s[p + |a|..];
    SpliceParts(s, p, a);
    SpliceParts(t, p, b);
    SpliceParts(s, p, b);
    assert t[..p] == s[..p];
    assert t[p + |a|..] == s[p + |a|..];
  }

  lemma {:induction false} SpliceNothing(s: seq<Byte>, p: nat)
    ensures Splice(s, p, []) == s
  {
  }

  /** memcpy into a caller's buffer. */
  method Memcpy(buf: array<Byte>, p: nat, bytes: seq<Byte>)
    requires p + |bytes| <= buf.Length
    modifies buf
    ensures buf[..] == Splice(old(buf[..]), p, bytes)
  {
    forall i | 0 <= i < |bytes| {
      buf[p + i] := bytes[i];
    }
    SpliceParts(old(buf[..]), p, bytes);
  }
}
