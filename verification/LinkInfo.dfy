/**
  HTIP organizationally specific TLVs: device information, and a link's MAC list split
  over TLVs of at most 83 addresses, with the readers of both.
 */
module LinkInfo {
  import opened Common
  import opened TlvHeader
  import opened Tlv

  const ORGANIZATIONALLY_SPECIFIC_TLV: TlvType := 127
  const HTIP_TLV_HEADER_LEN: nat := 4
  const HTIP_LINK_INFO_HEADER_LEN: nat := 5
  const HTIP_DEVICE_INFO_HEADER_LEN: nat := 2
  const DEVICE_INFO_SUBTYPE: Byte := 1
  const LINK_INFO_SUBTYPE: Byte := 2
  const MAC_ADDRESS_LIST_SUBTYPE: Byte := 3

  /** Addresses per TLV. */
  const MAX_MACADDR_NUM: nat := (MAX_TLV_LEN - HTIP_TLV_HEADER_LEN - HTIP_LINK_INFO_HEADER_LEN) / ETHER_ADDR_LEN

  // ---------------------------------------------------------------- address lists

  function Flatten(macs: seq<Mac>): seq<Byte> {
    if macs == [] then [] else macs[0] + Flatten(macs[1..])
  }

  lemma {:induction false} FlattenAppend(a: seq<Mac>, b: seq<Mac>)
    ensures Flatten(a + b) == Flatten(a) + Flatten(b)
  {
    if a == [] {
      assert a + b == b;
    } else {
      assert (a + b)[1..] == a[1..] + b;
      FlattenAppend(a[1..], b);
    }
  }

  lemma {:induction false} FlattenLength(macs: seq<Mac>)
    ensures |Flatten(macs)| == 6 * |macs|
  {
    if macs != [] {
      FlattenLength(macs[1..]);
    }
  }

  lemma {:induction false} FlattenSnoc(macs: seq<Mac>, m: Mac)
    ensures Flatten(macs + [m]) == Flatten(macs) + m
  {
    FlattenAppend(macs, [m]);
    assert Flatten([m]) == m + Flatten([]);
  }

  /** The addresses read back from consecutive 6-byte slots. */
  function ReadMacs(bytes: seq<Byte>, n: nat): (r: seq<Mac>)
    requires 6 * n <= |bytes|
    ensures |r| == n
  {
    if n == 0 then [] else [bytes[..6]] + ReadMacs(bytes[6..], n - 1)
  }

  lemma {:induction false} ReadMacsFlatten(macs: seq<Mac>, more: seq<Byte>)
    ensures |Flatten(macs)| == 6 * |macs|
    ensures ReadMacs(Flatten(macs) + more, |macs|) == macs
  {
    FlattenLength(macs);
    if macs != [] {
      var bytes := Flatten(macs) + more;
      assert bytes[..6] == macs[0];
      assert bytes[6..] == Flatten(macs[1..]) + more;
      ReadMacsFlatten(macs[1..], more);
    }
  }

  lemma {:induction false} ReadMacsAt(bytes: seq<Byte>, n: nat, i: nat)
    requires 6 * n <= |bytes| && i < n
    ensures ReadMacs(bytes, n)[i] == bytes[6 * i..6 * i + 6]
  {
    if i > 0 {
      ReadMacsAt(bytes[6..], n - 1, i - 1);
      assert bytes[6..][6 * (i - 1)..6 * (i - 1) + 6] == bytes[6 * i..6 * i + 6];
    }
  }

  // ---------------------------------------------------------------- TLV bodies

  function HtipHeader(subtype: Byte): seq<Byte> {
    [0xE0, 0x27, 0x1A, subtype]
  }

  function DeviceInfoTlv(id: Byte, info: seq<Byte>): Tlv {
    Tlv(ORGANIZATIONALLY_SPECIFIC_TLV, HtipHeader(DEVICE_INFO_SUBTYPE) + [id, |info| % 256] + info)
  }

  /** iftype, port number and count each keep their low byte only. */
  function LinkHeader(iftype: nat, portNo: nat, macNum: int): seq<Byte> {
    [1, iftype % 256, 1, portNo % 256, macNum % 256]
  }

  function LinkInfoTlv(iftype: nat, portNo: nat, macs: seq<Mac>): Tlv {
    Tlv(ORGANIZATIONALLY_SPECIFIC_TLV,
        HtipHeader(LINK_INFO_SUBTYPE) + LinkHeader(iftype, portNo, |macs|) + Flatten(macs))
  }

  /** Greedy splitting: full fragments while there are 83 left, then one that is not full, maybe empty. */
  function Chunks(macs: seq<Mac>): (r: seq<seq<Mac>>)
    ensures |r| > 0
  {
    if |macs| < 83 then [macs]
    else [macs[..83]] + Chunks(macs[83..])
  }

  function LinkInfoTlvs(iftype: nat, portNo: nat, chunks: seq<seq<Mac>>): (r: seq<Tlv>)
    ensures |r| == |chunks|
  {
    if chunks == [] then []
    else [LinkInfoTlv(iftype, portNo, chunks[0])] + LinkInfoTlvs(iftype, portNo, chunks[1..])
  }

  /** What a link's section of `macs` looks like on the wire. */
  function LinkInfoBytes(iftype: nat, portNo: nat, macs: seq<Mac>): seq<Byte> {
    EncodeAll(LinkInfoTlvs(iftype, portNo, Chunks(macs)))
  }

  // ---------------------------------------------------------------- the bytes themselves

  /** First byte of a header of type 127, with the ninth length bit. */
  function Type127(len: int): Byte {
    254 + (len / 256) % 2
  }

  /** Device information as the standard lays it out, for comparison. */
  function DeviceInfoOnWire(id: Byte, info: seq<Byte>): seq<Byte> {
    [Type127(|info| + 6), (|info| + 6) % 256, 0xE0, 0x27, 0x1A, 1, id, |info| % 256] + info
  }

  lemma {:induction false} DeviceInfoBytes(id: Byte, info: seq<Byte>)
    ensures Encode(DeviceInfoTlv(id, info)) == DeviceInfoOnWire(id, info)
  {
  }

  lemma {:induction false} LinkFragmentBytes(iftype: nat, portNo: nat, macs: seq<Mac>)
    ensures Encode(LinkInfoTlv(iftype, portNo, macs))
            == [Type127(6 * |macs| + 9), (6 * |macs| + 9) % 256, 0xE0, 0x27, 0x1A, 2,
                1, iftype % 256, 1, portNo % 256, |macs| % 256] + Flatten(macs)
  {
    FlattenLength(macs);
  }

  /** The addresses lie one after the other, byte by byte. */
  lemma {:induction false} FlattenAt(macs: seq<Mac>, i: nat, j: nat)
    requires i < |macs| && j < 6
    ensures |Flatten(macs)| == 6 * |macs| && Flatten(macs)[6 * i + j] == macs[i][j]
  {
    FlattenLength(macs);
    if i > 0 {
      FlattenAt(macs[1..], i - 1, j);
    }
  }

  // ---------------------------------------------------------------- fragment arithmetic

  /** The numbers used below are the source's quotient and sum of header lengths. */
  lemma {:induction false} FragmentConstants()
    ensures MAX_MACADDR_NUM == 83
    ensures TLV_HEADER_LEN + HTIP_TLV_HEADER_LEN + HTIP_LINK_INFO_HEADER_LEN == 11
    ensures HTIP_TLV_HEADER_LEN + HTIP_LINK_INFO_HEADER_LEN + ETHER_ADDR_LEN * 83 == 507 <= MAX_TLV_LEN
  {
  }

  function FragmentCount(n: int): nat {
    if n <= 0 then 1 else n / 83 + 1
  }

  /** get_htip_link_info_tlv_len; the eleven bytes are the three headers of a fragment. */
  function PredictedLen(macaddrLen: nat, n: int): int {
    11 * FragmentCount(n) + macaddrLen * n
  }

  lemma {:induction false} QuotientStep(n: nat)
    requires n >= 83
    ensures (n - 83) / 83 == n / 83 - 1
  {
  }

  lemma {:induction false} SliceOfRest(macs: seq<Mac>, a: nat, b: nat, c: nat)
    requires a + b <= a + c <= |macs|
    ensures macs[a..][b..c] == macs[a + b..a + c]
    ensures macs[a..][b..] == macs[a + b..]
  {
  }

  /** The div/mod indexing of the encoder's loops picks out exactly the greedy chunks. */
  lemma {:induction false} ChunkAt(macs: seq<Mac>, i: nat)
    requires i <= |macs| / 83
    ensures |Chunks(macs)| == |macs| / 83 + 1
    ensures i < |macs| / 83 ==> 83 * i + 83 <= |macs| && Chunks(macs)[i] == macs[83 * i..83 * i + 83]
    ensures i == |macs| / 83 ==> Chunks(macs)[i] == macs[83 * i..] && |macs| - 83 * i < 83
    decreases |macs|
  {
    if |macs| >= 83 {
      var rest := macs[83..];
      QuotientStep(|macs|);
      assert Chunks(macs) == [macs[..83]] + Chunks(rest);
      if i == 0 {
        ChunkAt(rest, 0);
      } else {
        ChunkAt(rest, i - 1);
        assert Chunks(macs)[i] == Chunks(rest)[i - 1];
        if i < |macs| / 83 {
          SliceOfRest(macs, 83, 83 * (i - 1), 83 * i);
        } else {
          SliceOfRest(macs, 83, 83 * (i - 1), |rest|);
        }
      }
    }
  }

  function Concat(chunks: seq<seq<Mac>>): seq<Mac> {
    if chunks == [] then [] else chunks[0] + Concat(chunks[1..])
  }

  /** No address is lost, repeated or moved by splitting. */
  lemma {:induction false} ConcatChunks(macs: seq<Mac>)
    ensures Concat(Chunks(macs)) == macs
  {
    if |macs| < 83 {
      assert Concat([macs]) == macs + Concat([]);
    } else {
      ConcatChunks(macs[83..]);
      assert macs == macs[..83] + macs[83..];
    }
  }

  /** Every fragment but the last is full, the last is not. */
  lemma {:induction false} ChunkSizes(macs: seq<Mac>)
    ensures var cs := Chunks(macs);
            && (forall i :: 0 <= i < |cs| - 1 ==> |cs[i]| == 83)
            && |cs[|cs| - 1]| == |macs| % 83
  {
    if |macs| >= 83 {
      ChunkSizes(macs[83..]);
    }
  }

  /** Cuts of at most 83 hold at most 83 addresses each. */
  lemma {:induction false} CutsNeeded(cuts: seq<seq<Mac>>)
    requires forall i :: 0 <= i < |cuts| ==> |cuts[i]| <= 83
    ensures |Concat(cuts)| <= 83 * |cuts|
  {
    if cuts != [] {
      CutsNeeded(cuts[1..]);
    }
  }

  /**
    Among all ways to cut `macs` into fragments of at most 83 none is shorter than the quotient
    rounded up; the encoder uses that many, or one more at positive multiples of 83.
   */
  lemma {:induction false} FragmentCountMinimal(macs: seq<Mac>, cuts: seq<seq<Mac>>)
    requires |cuts| > 0 && Concat(cuts) == macs
    requires forall i :: 0 <= i < |cuts| ==> |cuts[i]| <= 83
    ensures |Chunks(macs)| == FragmentCount(|macs|)
    ensures |Chunks(macs)| <= |cuts| + (if |macs| > 0 && |macs| % 83 == 0 then 1 else 0)
  {
    ChunkAt(macs, 0);
    CutsNeeded(cuts);
  }

  /** At a positive multiple of 83 one fragment fewer would do: dropping the empty last one loses nothing. */
  lemma {:induction false} EmptyLastFragment(macs: seq<Mac>)
    requires |macs| > 0
    ensures var cs := Chunks(macs);
            Concat(cs[..|cs| - 1]) == macs <==> |macs| % 83 == 0
  {
    var cs := Chunks(macs);
    ChunkSizes(macs);
    ConcatChunks(macs);
    ConcatSnoc(cs[..|cs| - 1], cs[|cs| - 1]);
    assert cs[..|cs| - 1] + [cs[|cs| - 1]] == cs;
  }

  lemma {:induction false} ConcatSnoc(cs: seq<seq<Mac>>, c: seq<Mac>)
    ensures Concat(cs + [c]) == Concat(cs) + c
  {
    if cs == [] {
      assert Concat([c]) == c + Concat([]);
      assert cs + [c] == [c];
    } else {
      assert (cs + [c])[1..] == cs[1..] + [c];
      ConcatSnoc(cs[1..], c);
    }
  }

  // ---------------------------------------------------------------- written and predicted length

  lemma {:induction false} LinkInfoTlvsLength(iftype: nat, portNo: nat, chunks: seq<seq<Mac>>)
    ensures |EncodeAll(LinkInfoTlvs(iftype, portNo, chunks))| == 11 * |chunks| + 6 * |Concat(chunks)|
  {
    if chunks != [] {
      var ts := LinkInfoTlvs(iftype, portNo, chunks);
      assert ts[1..] == LinkInfoTlvs(iftype, portNo, chunks[1..]);
      FlattenLength(chunks[0]);
      LinkInfoTlvsLength(iftype, portNo, chunks[1..]);
    }
  }

  /** The eleven bytes in front of a fragment's addresses. */
  function LinkHead(iftype: nat, portNo: nat, num: int): (r: seq<Byte>)
    ensures |r| == 11
  {
    Pack(MakeHeader(ORGANIZATIONALLY_SPECIFIC_TLV, HTIP_TLV_HEADER_LEN + HTIP_LINK_INFO_HEADER_LEN + 6 * num))
    + HtipHeader(LINK_INFO_SUBTYPE) + LinkHeader(iftype, portNo, num)
  }

  /** Also for negative counts, of which the low bits are stored. */
  lemma {:induction false} LinkHeadBytes(iftype: nat, portNo: nat, num: int)
    ensures LinkHead(iftype, portNo, num)
            == [Type127(6 * num + 9), (6 * num + 9) % 256, 0xE0, 0x27, 0x1A, 2,
                1, iftype % 256, 1, portNo % 256, num % 256]
  {
  }

  lemma {:induction false} EncodeLinkInfoTlv(iftype: nat, portNo: nat, macs: seq<Mac>)
    ensures Encode(LinkInfoTlv(iftype, portNo, macs)) == LinkHead(iftype, portNo, |macs|) + Flatten(macs)
  {
    FlattenLength(macs);
  }

  /**
    The bytes create_htip_link_info_tlv produces for the count it is given. A negative count
    takes the single-fragment branch, copies no address and stores the count's low bits.
   */
  function EncodedLink(iftype: nat, portNo: nat, macs: seq<Mac>, n: int): seq<Byte>
    requires n <= |macs|
  {
    if n >= 0 then LinkInfoBytes(iftype, portNo, macs[..n])
    else LinkHead(iftype, portNo, n)
  }

  /** A negative count leaves one header with the given type and port and no address behind it. */
  lemma {:induction false} NegativeCountBytes(iftype: nat, portNo: nat, macs: seq<Mac>, n: int)
    requires n < 0
    ensures EncodedLink(iftype, portNo, macs, n)
            == [Type127(6 * n + 9), (6 * n + 9) % 256, 0xE0, 0x27, 0x1A, 2,
                1, iftype % 256, 1, portNo % 256, n % 256]
  {
    LinkHeadBytes(iftype, portNo, n);
  }

  lemma {:induction false} LinkInfoBytesLength(iftype: nat, portNo: nat, macs: seq<Mac>)
    ensures |LinkInfoBytes(iftype, portNo, macs)| == 11 * (|macs| / 83 + 1) + 6 * |macs|
  {
    LinkInfoTlvsLength(iftype, portNo, Chunks(macs));
    ConcatChunks(macs);
    ChunkAt(macs, 0);
  }

  /** The closed form predicts the written length exactly for the counts that are not negative. */
  lemma {:induction false} PredictionExact(iftype: nat, portNo: nat, macs: seq<Mac>, n: int)
    requires n <= |macs|
    ensures |EncodedLink(iftype, portNo, macs, n)| == PredictedLen(6, n) <==> n >= 0
  {
    if n >= 0 {
      LinkInfoBytesLength(iftype, portNo, macs[..n]);
    }
  }

  // ---------------------------------------------------------------- readers

  datatype Fragment = Fragment(iftypeLen: Byte, iftype: Byte, portnoLen: Byte, portno: Byte, macs: seq<Mac>)

  /** What print_htip_tlv finds in a body; OutOfBody when it would read past the body. */
  datatype Content =
    | NotHtip
    | OutOfBody
    | DeviceInfo(id: Byte, info: seq<Byte>)
    | LinkInfo(fragment: Fragment)
    | MacAddressList

  /** is_htip_tlv: the TTC OUI and one of the three known subtypes. */
  predicate IsHtipTlv(body: seq<Byte>)
    requires |body| >= HTIP_TLV_HEADER_LEN
  {
    && body[0] == 0xE0 && body[1] == 0x27 && body[2] == 0x1A
    && (body[3] == DEVICE_INFO_SUBTYPE || body[3] == LINK_INFO_SUBTYPE || body[3] == MAC_ADDRESS_LIST_SUBTYPE)
  }

  function ReadDeviceInfo(p: seq<Byte>): Content {
    if |p| < HTIP_DEVICE_INFO_HEADER_LEN || |p| < HTIP_DEVICE_INFO_HEADER_LEN + p[1] then OutOfBody
    else DeviceInfo(p[0], p[2..2 + p[1]])
  }

  function ReadLinkInfo(p: seq<Byte>): Content {
    if |p| < HTIP_LINK_INFO_HEADER_LEN || |p| < HTIP_LINK_INFO_HEADER_LEN + 6 * p[4] as int then OutOfBody
    else LinkInfo(Fragment(p[0], p[1], p[2], p[3], ReadMacs(p[5..], p[4])))
  }

  function ReadHtip(body: seq<Byte>): Content {
    if |body| < HTIP_TLV_HEADER_LEN then OutOfBody
    else if !IsHtipTlv(body) then NotHtip
    else if body[3] == DEVICE_INFO_SUBTYPE then ReadDeviceInfo(body[HTIP_TLV_HEADER_LEN..])
    else if body[3] == LINK_INFO_SUBTYPE then ReadLinkInfo(body[HTIP_TLV_HEADER_LEN..])
    else MacAddressList
  }

  /** print_htip_link_info at offset `p`, with the addresses it prints collected. */
  method PrintHtipLinkInfo(buf: array<Byte>, p: nat) returns (f: Fragment)
    requires p + HTIP_LINK_INFO_HEADER_LEN <= buf.Length
    requires p + HTIP_LINK_INFO_HEADER_LEN + 6 * buf[p + 4] as int <= buf.Length
    ensures ReadLinkInfo(buf[p..]) == LinkInfo(f)
  {
    var len: nat := buf[p + 4];
    var macs: seq<Mac> := [];
    ghost var slots := buf[p..][5..];
    for i := 0 to len
      invariant |macs| == i
      invariant forall k :: 0 <= k < i ==> macs[k] == ReadMacs(slots, len)[k]
    {
      var at := p + HTIP_LINK_INFO_HEADER_LEN + 6 * i;
      ReadMacsAt(slots, len, i);
      assert buf[at..at + 6] == slots[6 * i..6 * i + 6];
      macs := macs + [buf[at..at + 6]];
    }
    assert macs == ReadMacs(slots, len);
    f := Fragment(buf[p], buf[p + 1], buf[p + 2], buf[p + 3], macs);
  }

  predicate KnownHeader(body: seq<Byte>) {
    |body| >= 4 && body[..3] == [0xE0, 0x27, 0x1A] && 1 <= body[3] <= 3
  }

  /** The link fragment a body holds: four header bytes, the count, and the counted addresses. */
  predicate HoldsLink(body: seq<Byte>, f: Fragment) {
    && |body| >= 9 + 6 * |f.macs| && body[4..9] == [f.iftypeLen, f.iftype, f.portnoLen, f.portno, |f.macs|]
    && forall k, j :: 0 <= k < |f.macs| && 0 <= j < 6 ==> f.macs[k][j] == body[9 + 6 * k + j]
  }

  /** What is found in any body, from its bytes: nothing behind a foreign OUI or an unknown subtype. */
  lemma {:induction false} ReadHtipMeaning(body: seq<Byte>)
    ensures var c := ReadHtip(body);
            && (|body| >= 4 ==> (c == NotHtip <==> !KnownHeader(body)))
            && (c == MacAddressList <==> KnownHeader(body) && body[3] == 3)
            && (c.DeviceInfo? <==> KnownHeader(body) && body[3] == 1 && |body| >= 6 && |body| >= 6 + body[5] as int)
            && (c.DeviceInfo? ==> c.id == body[4] && c.info == body[6..6 + body[5]])
            && (c.LinkInfo? <==> KnownHeader(body) && body[3] == 2 && |body| >= 9 && |body| >= 9 + 6 * body[8] as int)
            && (c.LinkInfo? ==> HoldsLink(body, c.fragment))
  {
    if KnownHeader(body) {
      assert body[0] == body[..3][0] && body[1] == body[..3][1] && body[2] == body[..3][2];
      if body[3] == 2 && |body| >= 9 && |body| >= 9 + 6 * body[8] as int {
        LinkAt(body);
      }
    }
  }

  lemma {:induction false} LinkAt(body: seq<Byte>)
    requires |body| >= 9 && |body| >= 9 + 6 * body[8] as int
    ensures ReadLinkInfo(body[4..]).LinkInfo? && HoldsLink(body, ReadLinkInfo(body[4..]).fragment)
  {
    var f, slots := ReadLinkInfo(body[4..]).fragment, body[4..][5..];
    assert slots == body[9..];
    forall k, j | 0 <= k < |f.macs| && 0 <= j < 6 ensures f.macs[k][j] == body[9 + 6 * k + j] {
      ReadMacsAt(slots, body[8], k);
      assert slots[6 * k..6 * k + 6][j] == body[9 + 6 * k + j];
    }
  }

  /** Device information is read back as written exactly when its length fits the one-byte length field. */
  lemma {:induction false} DeviceInfoRoundTrip(id: Byte, info: seq<Byte>)
    ensures ReadHtip(DeviceInfoTlv(id, info).body) == DeviceInfo(id, info) <==> |info| <= 255
  {
    var body := DeviceInfoTlv(id, info).body;
    var p := body[HTIP_TLV_HEADER_LEN..];
    assert p == [id, |info| % 256] + info;
    assert p[2..2 + |info| % 256] == info[..|info| % 256];
  }

  /** A link fragment is read back as written exactly when its count fits the one-byte count field. */
  lemma {:induction false} LinkInfoRoundTrip(iftype: nat, portNo: nat, macs: seq<Mac>)
    ensures ReadHtip(LinkInfoTlv(iftype, portNo, macs).body)
            == LinkInfo(Fragment(1, iftype % 256, 1, portNo % 256, macs))
            <==> |macs| <= 255
  {
    var body := LinkInfoTlv(iftype, portNo, macs).body;
    var p := body[HTIP_TLV_HEADER_LEN..];
    assert p == LinkHeader(iftype, portNo, |macs|) + Flatten(macs);
    assert p[5..] == Flatten(macs) + [];
    ReadMacsFlatten(macs, []);
  }

  // ---------------------------------------------------------------- a receiver

  /** The link fragments of a TLV stream, in order. */
  function Fragments(ts: seq<Tlv>): seq<Fragment> {
    if ts == [] then []
    else
      var rest := Fragments(ts[1..]);
      if ts[0].typ != ORGANIZATIONALLY_SPECIFIC_TLV then rest
      else
        match ReadHtip(ts[0].body)
        case LinkInfo(f) => [f] + rest
        case _ => rest
  }

  lemma {:induction false} FragmentsAppend(a: seq<Tlv>, b: seq<Tlv>)
    ensures Fragments(a + b) == Fragments(a) + Fragments(b)
  {
    if a == [] {
      assert a + b == b;
    } else {
      assert (a + b)[1..] == a[1..] + b;
      FragmentsAppend(a[1..], b);
    }
  }

  datatype Report = Report(iftype: Byte, portno: Byte, macs: seq<Mac>)

  /** Whether the report of what follows goes on with the link of `f`: `f` is full, and type and port agree. */
  predicate Continues(f: Fragment, rest: seq<Report>) {
    |f.macs| >= MAX_MACADDR_NUM && rest != [] && rest[0].iftype == f.iftype && rest[0].portno == f.portno
  }

  /** A full fragment is continued by the next one of the same link; any other fragment ends its link. */
  function Reassemble(fs: seq<Fragment>): seq<Report> {
    if fs == [] then []
    else
      var f, rest := fs[0], Reassemble(fs[1..]);
      if Continues(f, rest) then [rest[0].(macs := f.macs + rest[0].macs)] + rest[1..]
      else [Report(f.iftype, f.portno, f.macs)] + rest
  }

  /** One link to announce. */
  datatype Link = Link(iftype: nat, portNo: nat, macs: seq<Mac>) {
    function Announced(): Report {
      Report(iftype % 256, portNo % 256, macs)
    }
  }

  function LinkTlvs(l: Link): seq<Tlv> {
    LinkInfoTlvs(l.iftype, l.portNo, Chunks(l.macs))
  }

  /** The fragments a receiver ought to see for given chunks: the same type and port in each. */
  function ChunkFragments(iftype: nat, portNo: nat, chunks: seq<seq<Mac>>): (r: seq<Fragment>)
    ensures |r| == |chunks|
    ensures forall i :: 0 <= i < |chunks| ==> r[i] == Fragment(1, iftype % 256, 1, portNo % 256, chunks[i])
  {
    seq(|chunks|, i requires 0 <= i < |chunks| => Fragment(1, iftype % 256, 1, portNo % 256, chunks[i]))
  }

  function LinkFragments(l: Link): seq<Fragment> {
    ChunkFragments(l.iftype, l.portNo, Chunks(l.macs))
  }

  /** Reading the TLVs of one call gives one fragment per chunk, each with the link's type and port. */
  lemma {:induction false} FragmentsOfChunks(iftype: nat, portNo: nat, chunks: seq<seq<Mac>>)
    requires forall i :: 0 <= i < |chunks| ==> |chunks[i]| <= 255
    ensures Fragments(LinkInfoTlvs(iftype, portNo, chunks)) == ChunkFragments(iftype, portNo, chunks)
  {
    hide LinkInfoTlv, ReadHtip;
    if chunks != [] {
      assert LinkInfoTlvs(iftype, portNo, chunks)[1..] == LinkInfoTlvs(iftype, portNo, chunks[1..]);
      FragmentsOfChunks(iftype, portNo, chunks[1..]);
      LinkInfoRoundTrip(iftype, portNo, chunks[0]);
      LinkInfoTlvType(iftype, portNo, chunks[0]);
      assert ChunkFragments(iftype, portNo, chunks)
             == [Fragment(1, iftype % 256, 1, portNo % 256, chunks[0])] + ChunkFragments(iftype, portNo, chunks[1..]);
    }
  }

  lemma {:induction false} LinkInfoTlvType(iftype: nat, portNo: nat, macs: seq<Mac>)
    ensures LinkInfoTlv(iftype, portNo, macs).typ == ORGANIZATIONALLY_SPECIFIC_TLV
  {
  }

  lemma {:induction false} FragmentsOfLink(l: Link)
    ensures Fragments(LinkTlvs(l)) == LinkFragments(l)
  {
    hide Fragments, LinkInfoTlvs, Chunks;
    ChunkSizes(l.macs);
    FragmentsOfChunks(l.iftype, l.portNo, Chunks(l.macs));
  }

  /**
    The round trip of one call, for lists of any length: what create_htip_link_info_tlv writes, read with nine
    length bits, is one fragment per chunk, all with the same type and port, and the chunks join to the list.
   */
  lemma {:induction false} LinkBytesRoundTrip(iftype: nat, portNo: nat, macs: seq<Mac>, tail: Byte)
    ensures var parsed := Parse(NineBit, LinkInfoBytes(iftype, portNo, macs), tail);
            && parsed.Some?
            && Fragments(parsed.value) == ChunkFragments(iftype, portNo, Chunks(macs))
            && Concat(Chunks(macs)) == macs
  {
    hide Parse, Fragments, LinkInfoTlvs, Chunks, EncodeAll, AllShorter;
    var l := Link(iftype, portNo, macs);
    LinkFits(l);
    ParseEncoded(NineBit, LinkTlvs(l), tail);
    FragmentsOfLink(l);
    ConcatChunks(macs);
  }

  lemma {:induction false} ReassembleCons(f: Fragment, fs: seq<Fragment>)
    ensures var rest := Reassemble(fs);
            Reassemble([f] + fs)
            == if Continues(f, rest) then [rest[0].(macs := f.macs + rest[0].macs)] + rest[1..]
               else [Report(f.iftype, f.portno, f.macs)] + rest
  {
    assert ([f] + fs)[1..] == fs;
  }

  /** The first fragment of a link, and those of the rest of it. */
  lemma {:induction false} LinkFragmentsCons(l: Link)
    requires |l.macs| >= 83
    ensures LinkFragments(l)
            == [Fragment(1, l.iftype % 256, 1, l.portNo % 256, l.macs[..83])] + LinkFragments(l.(macs := l.macs[83..]))
  {
    var rest := l.(macs := l.macs[83..]);
    assert Chunks(l.macs) == [l.macs[..83]] + Chunks(rest.macs);
  }

  lemma {:induction false} LinkFragmentsOne(l: Link)
    requires |l.macs| < 83
    ensures LinkFragments(l) == [Fragment(1, l.iftype % 256, 1, l.portNo % 256, l.macs)]
  {
  }

  /** The fragments of one link come back as one report, whatever follows them. */
  lemma {:induction false} ReassembleLink(l: Link, more: seq<Fragment>)
    ensures Reassemble(LinkFragments(l) + more) == [l.Announced()] + Reassemble(more)
    decreases |l.macs|
  {
    hide LinkFragments, Reassemble;
    if |l.macs| < 83 {
      LinkFragmentsOne(l);
      ReassembleCons(LinkFragments(l)[0], more);
    } else {
      var rest := l.(macs := l.macs[83..]);
      LinkFragmentsCons(l);
      assert LinkFragments(l) + more == [LinkFragments(l)[0]] + (LinkFragments(rest) + more);
      ReassembleLink(rest, more);
      ReassembleCons(LinkFragments(l)[0], LinkFragments(rest) + more);
      assert l.macs == l.macs[..83] + rest.macs;
      assert ([rest.Announced()] + Reassemble(more))[1..] == Reassemble(more);
    }
  }

  function SectionTlvs(links: seq<Link>): seq<Tlv> {
    if links == [] then [] else LinkTlvs(links[0]) + SectionTlvs(links[1..])
  }

  /** All fragments of a section, link by link. */
  function SectionFragments(links: seq<Link>): seq<Fragment> {
    if links == [] then [] else LinkFragments(links[0]) + SectionFragments(links[1..])
  }

  function Announcements(links: seq<Link>): (r: seq<Report>)
    ensures |r| == |links|
    ensures forall i :: 0 <= i < |links| ==> r[i] == links[i].Announced()
  {
    seq(|links|, i requires 0 <= i < |links| => links[i].Announced())
  }

  lemma {:induction false} AnnouncementsCons(links: seq<Link>)
    requires links != []
    ensures Announcements(links) == [links[0].Announced()] + Announcements(links[1..])
  {
  }

  lemma {:induction false} SectionIsFragments(links: seq<Link>)
    ensures Fragments(SectionTlvs(links)) == SectionFragments(links)
  {
    hide Fragments, LinkTlvs, LinkFragments;
    if links == [] {
      NoTlvsNoFragments();
    } else {
      FragmentsOfLink(links[0]);
      FragmentsAppend(LinkTlvs(links[0]), SectionTlvs(links[1..]));
      SectionIsFragments(links[1..]);
    }
  }

  lemma {:induction false} NoTlvsNoFragments()
    ensures Fragments([]) == []
  {
  }

  lemma {:induction false} ReassembleSection(links: seq<Link>)
    ensures Reassemble(SectionFragments(links)) == Announcements(links)
  {
    hide LinkFragments, Announcements;
    if links == [] {
      assert Reassemble([]) == [];
    } else {
      ReassembleLink(links[0], SectionFragments(links[1..]));
      ReassembleSection(links[1..]);
      AnnouncementsCons(links);
    }
  }

  /**
    The link section is self-delimiting: its fragments all carry their link's type and port, and from them
    alone a receiver recovers every link, in order, with all of its addresses.
   */
  lemma {:induction false} SectionRoundTrip(links: seq<Link>)
    ensures Fragments(SectionTlvs(links)) == SectionFragments(links)
    ensures Reassemble(Fragments(SectionTlvs(links))) == Announcements(links)
  {
    hide Fragments, SectionTlvs, SectionFragments, Reassemble, Announcements;
    SectionIsFragments(links);
    ReassembleSection(links);
  }

  lemma {:induction false} SectionSnoc(links: seq<Link>, l: Link)
    ensures SectionTlvs(links + [l]) == SectionTlvs(links) + LinkTlvs(l)
  {
    if links == [] {
      assert links + [l] == [l];
      assert SectionTlvs([l]) == LinkTlvs(l) + SectionTlvs([]);
    } else {
      assert (links + [l])[1..] == links[1..] + [l];
      SectionSnoc(links[1..], l);
    }
  }

  // ---------------------------------------------------------------- which reader can follow

  lemma {:induction false} ChunkTlvsShorter(iftype: nat, portNo: nat, chunks: seq<seq<Mac>>, limit: nat)
    ensures AllShorter(LinkInfoTlvs(iftype, portNo, chunks), limit)
            <==> forall i :: 0 <= i < |chunks| ==> 9 + 6 * |chunks[i]| < limit
  {
    if chunks != [] {
      FlattenLength(chunks[0]);
      ChunkTlvsShorter(iftype, portNo, chunks[1..], limit);
      AllShorterCons(LinkInfoTlv(iftype, portNo, chunks[0]), LinkInfoTlvs(iftype, portNo, chunks[1..]), limit);
      assert chunks == [chunks[0]] + chunks[1..];
      assert forall i :: 0 < i < |chunks| ==> chunks[i] == chunks[1..][i - 1];
      assert forall i :: 0 <= i < |chunks[1..]| ==> chunks[1..][i] == chunks[i + 1];
    }
  }

  /**
    Every fragment has at most 83 addresses and fits nine length bits; all fragments of a link fit
    the committed reader exactly when the link has at most 41 addresses.
   */
  lemma {:induction false} LinkFits(l: Link)
    ensures AllShorter(LinkTlvs(l), NineBit.Limit())
    ensures AllShorter(LinkTlvs(l), Committed.Limit()) <==> |l.macs| <= 41
  {
    var cs := Chunks(l.macs);
    ChunkTlvsShorter(l.iftype, l.portNo, cs, NineBit.Limit());
    ChunkTlvsShorter(l.iftype, l.portNo, cs, Committed.Limit());
    ChunkSizes(l.macs);
    ChunkAt(l.macs, 0);
    assert |cs[0]| == Min(|l.macs|, 83);
  }

  lemma {:induction false} AllShorterAppend(a: seq<Tlv>, b: seq<Tlv>, limit: nat)
    ensures AllShorter(a + b, limit) <==> AllShorter(a, limit) && AllShorter(b, limit)
  {
    assert forall i :: 0 <= i < |a| ==> (a + b)[i] == a[i];
    assert forall i :: 0 <= i < |b| ==> (a + b)[|a| + i] == b[i];
  }

  lemma {:induction false} SectionFits(links: seq<Link>)
    ensures AllShorter(SectionTlvs(links), NineBit.Limit())
    ensures AllShorter(SectionTlvs(links), Committed.Limit())
            <==> forall i :: 0 <= i < |links| ==> |links[i].macs| <= 41
  {
    if links != [] {
      LinkFits(links[0]);
      SectionFits(links[1..]);
      AllShorterAppend(LinkTlvs(links[0]), SectionTlvs(links[1..]), NineBit.Limit());
      AllShorterAppend(LinkTlvs(links[0]), SectionTlvs(links[1..]), Committed.Limit());
      assert forall i :: 0 < i < |links| ==> links[i] == links[1..][i - 1];
      assert forall i :: 0 <= i < |links[1..]| ==> links[1..][i] == links[i + 1];
    }
  }
}
