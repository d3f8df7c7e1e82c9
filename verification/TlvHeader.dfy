/**
  The two-byte LLDP TLV header of section 8.4 of IEEE 802.1AB-2009: a 7-bit type and
  a 9-bit length split into its top bit and its low byte.
 */
module TlvHeader {
  import opened Common

  type Bit = b: int | 0 <= b < 2
  type TlvType = t: int | 0 <= t < 128

  const TLV_HEADER_LEN: nat := 2
  const MAX_TLV_LEN: nat := 0x1FF

  datatype Header = Header(len1: Bit, typ: TlvType, len2: Byte)

  /** Memory layout of the bit-field structure, the same for both byte orders. */
  function Pack(h: Header): (r: seq<Byte>)
    ensures |r| == TLV_HEADER_LEN
  {
    [h.typ * 2 + h.len1, h.len2]
  }

  function Unpack(b0: Byte, b1: Byte): Header {
    Header(b0 % 2, b0 / 2, b1)
  }

  /** Only the low nine bits of a length survive; a negative int keeps its two's-complement bits. */
  function SetLen(h: Header, len: int): (r: Header)
    ensures r.typ == h.typ
    ensures r.len1 * 256 + r.len2 == len % 512
  {
    h.(len1 := (len / 256) % 2, len2 := len % 256)
  }

  /** Which of two ways the length bits are put together again. */
  datatype Reader = Committed | NineBit {
    /** Bodies shorter than this are read back with their own length. */
    function Limit(): nat {
      match this
      case Committed => 256
      case NineBit => 512
    }

    /** The committed reader shifts the top bit by 7; the nine-bit reader shifts it by 8. */
    function Len(h: Header): nat {
      match this
      case Committed => h.len1 * 128 + h.len2
      case NineBit => h.len1 * 256 + h.len2
    }
  }

  function MakeHeader(typ: TlvType, len: int): Header {
    SetLen(Header(0, typ, 0), len)
  }

  /** On the wire the header is the big-endian 16-bit number type * 512 + len. */
  lemma {:induction false} HeaderIsBigEndianWord(typ: TlvType, len: nat)
    requires len <= MAX_TLV_LEN
    ensures var w := Pack(MakeHeader(typ, len));
            w[0] as int * 256 + w[1] as int == typ as int * 512 + len
  {
  }

  /** Packing is a bijection between headers and all 65536 pairs of bytes. */
  lemma {:induction false} PackUnpack(h: Header, b0: Byte, b1: Byte)
    ensures Unpack(Pack(h)[0], Pack(h)[1]) == h
    ensures Pack(Unpack(b0, b1)) == [b0, b1]
  {
  }

  /** What each reader returns for every length that was stored, and exactly when it is that length. */
  lemma {:induction false} ReadBackLength(r: Reader, typ: TlvType, len: nat)
    ensures r.Len(MakeHeader(typ, len)) ==
            if len % 512 < 256 || r == NineBit then len % 512 else len % 512 - 128
    ensures r.Len(MakeHeader(typ, len)) == len <==> len < r.Limit()
  {
  }

  /** The two readers agree on a header exactly when its top length bit is clear. */
  lemma {:induction false} ReadersAgree(h: Header)
    ensures Committed.Len(h) == NineBit.Len(h) <==> h.len1 == 0
  {
  }
}
