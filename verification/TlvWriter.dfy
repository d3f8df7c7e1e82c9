/**
  The create_* encoders: each writes its TLVs into the caller's buffer at an offset, returns how
  many bytes that took, and leaves every other byte of the buffer alone.
 */
module TlvWriter {
  import opened Common
  import opened TlvHeader
  import opened Tlv
  import opened LinkInfo

  const END_OF_LLDPDU_TLV: TlvType := 0
  const CHASSIS_ID_TLV: TlvType := 1
  const PORT_ID_TLV: TlvType := 2
  const TIME_TO_LIVE_TLV: TlvType := 3
  const PORT_DESCRIPTION_TLV: TlvType := 4
  const CHASSIS_ID_SUBTYPE_MAC_ADDRESS: Byte := 4
  const PORT_ID_SUBTYPE_MAC_ADDRESS: Byte := 3
  const TTL_TLV_HEADER_LEN: nat := 2
  const TTL_DEFAULT: nat := 60
  const MANUFACTURER_CODE_LEN: nat := 6
  const DEVICE_CATEGORY: Byte := 1
  const MANUFACTURER_CODE: Byte := 2
  const MODEL_NAME: Byte := 3
  const MODEL_NUMBER: Byte := 4

  // ---------------------------------------------------------------- the TLVs

  const END_TLV: Tlv := Tlv(END_OF_LLDPDU_TLV, [])

  function ChassisIdTlv(macaddr: seq<Byte>): Tlv {
    Tlv(CHASSIS_ID_TLV, [CHASSIS_ID_SUBTYPE_MAC_ADDRESS] + macaddr)
  }

  function PortIdTlv(macaddr: seq<Byte>): Tlv {
    Tlv(PORT_ID_TLV, [PORT_ID_SUBTYPE_MAC_ADDRESS] + macaddr)
  }

  /** Network byte order. */
  function TtlTlv(ttl: nat): Tlv
    requires ttl < 0x10000
  {
    Tlv(TIME_TO_LIVE_TLV, [ttl / 256, ttl % 256])
  }

  function PortDescriptionTlv(ifname: seq<Byte>): Tlv {
    Tlv(PORT_DESCRIPTION_TLV, ifname)
  }

  function LldpTlvs(macaddr: seq<Byte>, ifname: seq<Byte>): seq<Tlv> {
    [ChassisIdTlv(macaddr), PortIdTlv(macaddr), TtlTlv(TTL_DEFAULT), PortDescriptionTlv(ifname)]
  }

  datatype Device = Device(
    category: seq<Byte>, manufacturerCode: seq<Byte>, modelName: seq<Byte>, modelNumber: seq<Byte>)

  /** The order on the wire: category, model name, manufacturer code, model number. */
  function DeviceTlvs(d: Device): seq<Tlv> {
    [DeviceInfoTlv(DEVICE_CATEGORY, d.category), DeviceInfoTlv(MODEL_NAME, d.modelName),
     DeviceInfoTlv(MANUFACTURER_CODE, d.manufacturerCode), DeviceInfoTlv(MODEL_NUMBER, d.modelNumber)]
  }

  /** The bytes of the four TLVs in front, for names of up to 255 bytes. */
  lemma {:induction false} LldpBytes(macaddr: Mac, ifname: seq<Byte>)
    requires |ifname| <= 255
    ensures EncodeAll(LldpTlvs(macaddr, ifname))
            == [2, 7, 4] + macaddr + ([4, 7, 3] + macaddr) + [6, 2, 0, 60] + ([8, |ifname|] + ifname)
  {
    EncodeFour(ChassisIdTlv(macaddr), PortIdTlv(macaddr), TtlTlv(TTL_DEFAULT), PortDescriptionTlv(ifname));
    assert Encode(ChassisIdTlv(macaddr)) == [2, 7, 4] + macaddr;
    assert Encode(PortIdTlv(macaddr)) == [4, 7, 3] + macaddr;
    assert Encode(TtlTlv(TTL_DEFAULT)) == [6, 2, 0, 60];
    assert Encode(PortDescriptionTlv(ifname)) == [8, |ifname|] + ifname;
  }

  lemma {:induction false} TtlBytes(ttl: nat)
    requires ttl < 0x10000
    ensures Encode(TtlTlv(ttl))[..2] == [6, 2]
    ensures |TtlTlv(ttl).body| == 2 && TtlTlv(ttl).body[0] as int * 256 + TtlTlv(ttl).body[1] as int == ttl
  {
  }

  /** The bytes of the four device TLVs, in the order category, model name, manufacturer code, model number. */
  lemma {:induction false} DeviceBytes(d: Device)
    ensures EncodeAll(DeviceTlvs(d))
            == DeviceInfoOnWire(1, d.category) + DeviceInfoOnWire(3, d.modelName)
               + DeviceInfoOnWire(2, d.manufacturerCode) + DeviceInfoOnWire(4, d.modelNumber)
  {
    hide DeviceInfoTlv, Encode, DeviceInfoOnWire;
    var ts := DeviceTlvs(d);
    EncodeFour(ts[0], ts[1], ts[2], ts[3]);
    DeviceInfoBytes(1, d.category);
    DeviceInfoBytes(3, d.modelName);
    DeviceInfoBytes(2, d.manufacturerCode);
    DeviceInfoBytes(4, d.modelNumber);
  }

  // ---------------------------------------------------------------- lengths

  /** get_lldp_tlv_len. */
  function LldpTlvLen(macaddrLen: nat, ifnameLen: nat): nat {
    TLV_HEADER_LEN + 1 + macaddrLen + TLV_HEADER_LEN + 1 + macaddrLen
    + TLV_HEADER_LEN + TTL_TLV_HEADER_LEN + TLV_HEADER_LEN + ifnameLen
  }

  /** get_basic_htip_device_info_len. */
  function BasicDeviceInfoLen(macaddrLen: nat, ifnameLen: nat, categoryLen: nat, nameLen: nat, numberLen: nat): nat {
    LldpTlvLen(macaddrLen, ifnameLen)
    + TLV_HEADER_LEN + HTIP_TLV_HEADER_LEN + HTIP_DEVICE_INFO_HEADER_LEN + categoryLen
    + TLV_HEADER_LEN + HTIP_TLV_HEADER_LEN + HTIP_DEVICE_INFO_HEADER_LEN + MANUFACTURER_CODE_LEN
    + TLV_HEADER_LEN + HTIP_TLV_HEADER_LEN + HTIP_DEVICE_INFO_HEADER_LEN + nameLen
    + TLV_HEADER_LEN + HTIP_TLV_HEADER_LEN + HTIP_DEVICE_INFO_HEADER_LEN + numberLen
    + TLV_HEADER_LEN
  }

  lemma {:induction false} EncodeFour(a: Tlv, b: Tlv, c: Tlv, d: Tlv)
    ensures EncodeAll([a, b, c, d]) == Encode(a) + Encode(b) + Encode(c) + Encode(d)
  {
    EncodeAllSnoc([], a);
    EncodeAllSnoc([a], b);
    EncodeAllSnoc([a, b], c);
    EncodeAllSnoc([a, b, c], d);
    assert [a] + [b] == [a, b] && [a, b] + [c] == [a, b, c] && [a, b, c] + [d] == [a, b, c, d];
    assert [] + [a] == [a];
  }

  lemma {:induction false} LldpLength(macaddr: seq<Byte>, ifname: seq<Byte>)
    ensures |EncodeAll(LldpTlvs(macaddr, ifname))| == LldpTlvLen(|macaddr|, |ifname|)
  {
    EncodeFour(ChassisIdTlv(macaddr), PortIdTlv(macaddr), TtlTlv(TTL_DEFAULT), PortDescriptionTlv(ifname));
  }

  lemma {:induction false} DeviceLength(d: Device)
    ensures |EncodeAll(DeviceTlvs(d))|
            == 32 + |d.category| + |d.modelName| + |d.manufacturerCode| + |d.modelNumber|
  {
    EncodeFour(DeviceInfoTlv(DEVICE_CATEGORY, d.category), DeviceInfoTlv(MODEL_NAME, d.modelName),
               DeviceInfoTlv(MANUFACTURER_CODE, d.manufacturerCode), DeviceInfoTlv(MODEL_NUMBER, d.modelNumber));
  }

  /** The length announced for a device-information frame is the length of what is written into it. */
  lemma {:induction false} DeviceFrameLength(macaddr: seq<Byte>, ifname: seq<Byte>, d: Device)
    requires |d.manufacturerCode| == MANUFACTURER_CODE_LEN
    ensures |EncodeAll(LldpTlvs(macaddr, ifname) + DeviceTlvs(d) + [END_TLV])|
            == BasicDeviceInfoLen(|macaddr|, |ifname|, |d.category|, |d.modelName|, |d.modelNumber|)
  {
    EncodeAllAppend(LldpTlvs(macaddr, ifname), DeviceTlvs(d));
    EncodeAllSnoc(LldpTlvs(macaddr, ifname) + DeviceTlvs(d), END_TLV);
    LldpLength(macaddr, ifname);
    DeviceLength(d);
  }

  // ---------------------------------------------------------------- encoders

  /** Assignment to the type bit-field of a header lying in a buffer. */
  method SetTlvType(buf: array<Byte>, p: nat, typ: TlvType)
    requires p + TLV_HEADER_LEN <= buf.Length
    modifies buf
    ensures buf[..] == Splice(old(buf[..]), p, Pack(Unpack(old(buf[p]), old(buf[p + 1])).(typ := typ)))
  {
    Memcpy(buf, p, Pack(Unpack(buf[p], buf[p + 1]).(typ := typ)));
  }

  /** set_tlv_len on a header lying in a buffer. */
  method SetTlvLen(buf: array<Byte>, p: nat, len: int)
    requires p + TLV_HEADER_LEN <= buf.Length
    modifies buf
    ensures buf[..] == Splice(old(buf[..]), p, Pack(SetLen(Unpack(old(buf[p]), old(buf[p + 1])), len)))
  {
    Memcpy(buf, p, Pack(SetLen(Unpack(buf[p], buf[p + 1]), len)));
  }

  lemma {:induction false} HeaderAtOffset(s: seq<Byte>, p: nat, h: Header)
    requires p + TLV_HEADER_LEN <= |s|
    ensures var r := Splice(s, p, Pack(h)); Unpack(r[p], r[p + 1]) == h
  {
    var r := Splice(s, p, Pack(h));
    SpliceParts(s, p, Pack(h));
    assert r[p] == Pack(h)[0] && r[p + 1] == Pack(h)[1];
    PackUnpack(h, 0, 0);
  }

  lemma {:induction false} SetLenOverwrites(h: Header, len: int)
    ensures SetLen(h, len) == MakeHeader(h.typ, len)
  {
  }

  /** Setting both bit-fields leaves nothing of the bytes that lay there. */
  lemma {:induction false} HeaderInPlace(s: seq<Byte>, p: nat, typ: TlvType, len: int, s1: seq<Byte>)
    requires p + TLV_HEADER_LEN <= |s|
    requires s1 == Splice(s, p, Pack(Unpack(s[p], s[p + 1]).(typ := typ)))
    ensures Splice(s1, p, Pack(SetLen(Unpack(s1[p], s1[p + 1]), len))) == Splice(s, p, Pack(MakeHeader(typ, len)))
  {
    var h := Unpack(s[p], s[p + 1]).(typ := typ);
    HeaderAtOffset(s, p, h);
    SetLenOverwrites(h, len);
    SpliceOver(s, p, Pack(h), Pack(MakeHeader(typ, len)));
  }

  method CreateEndOfLldpduTlv(buf: array<Byte>, p: nat) returns (len: nat)
    requires p + TLV_HEADER_LEN <= buf.Length
    modifies buf
    ensures len == TLV_HEADER_LEN
    ensures buf[..] == Splice(old(buf[..]), p, Encode(END_TLV))
  {
    SetTlvType(buf, p, END_OF_LLDPDU_TLV);
    HeaderInPlace(old(buf[..]), p, END_OF_LLDPDU_TLV, 0, buf[..]);
    SetTlvLen(buf, p, 0);
    assert Encode(END_TLV) == Pack(MakeHeader(END_OF_LLDPDU_TLV, 0));
    len := TLV_HEADER_LEN;
  }

  method CreateChassisIdTlv(buf: array<Byte>, p: nat, macaddr: seq<Byte>) returns (len: nat)
    requires p + TLV_HEADER_LEN + 1 + |macaddr| <= buf.Length
    modifies buf
    ensures len == |Encode(ChassisIdTlv(macaddr))|
    ensures buf[..] == Splice(old(buf[..]), p, Encode(ChassisIdTlv(macaddr)))
  {
    var h := Pack(MakeHeader(CHASSIS_ID_TLV, 1 + |macaddr|));
    Memcpy(buf, p, h);
    Memcpy(buf, p + TLV_HEADER_LEN, [CHASSIS_ID_SUBTYPE_MAC_ADDRESS]);
    SpliceAppend(old(buf[..]), p, h, [CHASSIS_ID_SUBTYPE_MAC_ADDRESS]);
    Memcpy(buf, p + TLV_HEADER_LEN + 1, macaddr);
    SpliceAppend(old(buf[..]), p, h + [CHASSIS_ID_SUBTYPE_MAC_ADDRESS], macaddr);
    assert h + [CHASSIS_ID_SUBTYPE_MAC_ADDRESS] + macaddr == Encode(ChassisIdTlv(macaddr));
    len := TLV_HEADER_LEN + 1 + |macaddr|;
  }

  method CreatePortIdTlv(buf: array<Byte>, p: nat, macaddr: seq<Byte>) returns (len: nat)
    requires p + TLV_HEADER_LEN + 1 + |macaddr| <= buf.Length
    modifies buf
    ensures len == |Encode(PortIdTlv(macaddr))|
    ensures buf[..] == Splice(old(buf[..]), p, Encode(PortIdTlv(macaddr)))
  {
    var h := Pack(MakeHeader(PORT_ID_TLV, 1 + |macaddr|));
    Memcpy(buf, p, h);
    Memcpy(buf, p + TLV_HEADER_LEN, [PORT_ID_SUBTYPE_MAC_ADDRESS]);
    SpliceAppend(old(buf[..]), p, h, [PORT_ID_SUBTYPE_MAC_ADDRESS]);
    Memcpy(buf, p + TLV_HEADER_LEN + 1, macaddr);
    SpliceAppend(old(buf[..]), p, h + [PORT_ID_SUBTYPE_MAC_ADDRESS], macaddr);
    assert h + [PORT_ID_SUBTYPE_MAC_ADDRESS] + macaddr == Encode(PortIdTlv(macaddr));
    len := TLV_HEADER_LEN + 1 + |macaddr|;
  }

  /** The largest 16-bit value is refused, but only after the header was written. */
  method CreateTtlTlv(buf: array<Byte>, p: nat, ttl: nat) returns (len: int)
    requires ttl < 0x10000
    requires p + TLV_HEADER_LEN + TTL_TLV_HEADER_LEN <= buf.Length
    modifies buf
    ensures ttl < 65535 ==> len == 4 && buf[..] == Splice(old(buf[..]), p, Encode(TtlTlv(ttl)))
    ensures ttl == 65535 ==> len == -1 && buf[..] == Splice(old(buf[..]), p, Encode(TtlTlv(ttl))[..2])
  {
    var h := Pack(MakeHeader(TIME_TO_LIVE_TLV, TTL_TLV_HEADER_LEN));
    Memcpy(buf, p, h);
    assert Encode(TtlTlv(ttl)) == h + [ttl / 256, ttl % 256];
    if ttl >= 65535 {
      return -1;
    }
    Memcpy(buf, p + TTL_TLV_HEADER_LEN, [ttl / 256, ttl % 256]);
    SpliceAppend(old(buf[..]), p, h, [ttl / 256, ttl % 256]);
    len := TLV_HEADER_LEN + TTL_TLV_HEADER_LEN;
  }

  method CreatePortDescriptionTlv(buf: array<Byte>, p: nat, ifname: seq<Byte>) returns (len: nat)
    requires p + TLV_HEADER_LEN + |ifname| <= buf.Length
    modifies buf
    ensures len == |Encode(PortDescriptionTlv(ifname))|
    ensures buf[..] == Splice(old(buf[..]), p, Encode(PortDescriptionTlv(ifname)))
  {
    var h := Pack(MakeHeader(PORT_DESCRIPTION_TLV, |ifname|));
    Memcpy(buf, p, h);
    Memcpy(buf, p + TLV_HEADER_LEN, ifname);
    SpliceAppend(old(buf[..]), p, h, ifname);
    len := TLV_HEADER_LEN + |ifname|;
  }

  method CreateLldpTlv(buf: array<Byte>, p: nat, macaddr: seq<Byte>, ifname: seq<Byte>) returns (len: nat)
    requires p + LldpTlvLen(|macaddr|, |ifname|) <= buf.Length
    modifies buf
    ensures len == |EncodeAll(LldpTlvs(macaddr, ifname))| == LldpTlvLen(|macaddr|, |ifname|)
    ensures buf[..] == Splice(old(buf[..]), p, EncodeAll(LldpTlvs(macaddr, ifname)))
  {
    hide Encode, EncodeAll, Splice;
    ghost var was := buf[..];
    ghost var a, b := Encode(ChassisIdTlv(macaddr)), Encode(PortIdTlv(macaddr));
    ghost var c, d := Encode(TtlTlv(TTL_DEFAULT)), Encode(PortDescriptionTlv(ifname));
    LldpLength(macaddr, ifname);
    EncodeFour(ChassisIdTlv(macaddr), PortIdTlv(macaddr), TtlTlv(TTL_DEFAULT), PortDescriptionTlv(ifname));
    len := CreateChassisIdTlv(buf, p, macaddr);
    var n := CreatePortIdTlv(buf, p + len, macaddr);
    SpliceAppend(was, p, a, b);
    len := len + n;
    var t := CreateTtlTlv(buf, p + len, TTL_DEFAULT);
    SpliceAppend(was, p, a + b, c);
    len := len + t;
    n := CreatePortDescriptionTlv(buf, p + len, ifname);
    SpliceAppend(was, p, a + b + c, d);
    len := len + n;
  }

  method CreateTlvHeader(buf: array<Byte>, p: nat, tlvLen: int) returns (len: nat)
    requires p + TLV_HEADER_LEN <= buf.Length
    modifies buf
    ensures len == TLV_HEADER_LEN
    ensures buf[..] == Splice(old(buf[..]), p, Pack(MakeHeader(ORGANIZATIONALLY_SPECIFIC_TLV, tlvLen)))
  {
    Memcpy(buf, p, Pack(MakeHeader(ORGANIZATIONALLY_SPECIFIC_TLV, tlvLen)));
    len := TLV_HEADER_LEN;
  }

  method CreateHtipTlvHeader(buf: array<Byte>, p: nat, subtype: Byte) returns (len: nat)
    requires p + HTIP_TLV_HEADER_LEN <= buf.Length
    modifies buf
    ensures len == HTIP_TLV_HEADER_LEN
    ensures buf[..] == Splice(old(buf[..]), p, HtipHeader(subtype))
  {
    Memcpy(buf, p, [0xE0, 0x27, 0x1A, subtype]);
    len := HTIP_TLV_HEADER_LEN;
  }

  /** Lengths beyond the documented limits only cause a message: the TLV is written all the same. */
  method CreateHtipDeviceInfoTlv(buf: array<Byte>, p: nat, id: Byte, info: seq<Byte>) returns (len: nat)
    requires p + 8 + |info| <= buf.Length
    modifies buf
    ensures len == |Encode(DeviceInfoTlv(id, info))|
    ensures buf[..] == Splice(old(buf[..]), p, Encode(DeviceInfoTlv(id, info)))
  {
    ghost var was := buf[..];
    ghost var h := Pack(MakeHeader(ORGANIZATIONALLY_SPECIFIC_TLV, 6 + |info|));
    ghost var hh := HtipHeader(DEVICE_INFO_SUBTYPE);
    len := CreateTlvHeader(buf, p, HTIP_TLV_HEADER_LEN + HTIP_DEVICE_INFO_HEADER_LEN + |info|);
    var n := CreateHtipTlvHeader(buf, p + len, DEVICE_INFO_SUBTYPE);
    SpliceAppend(was, p, h, hh);
    var hdih: seq<Byte> := [id, |info| % 256];
    Memcpy(buf, p + TLV_HEADER_LEN + HTIP_TLV_HEADER_LEN, hdih);
    SpliceAppend(was, p, h + hh, hdih);
    Memcpy(buf, p + TLV_HEADER_LEN + HTIP_TLV_HEADER_LEN + HTIP_DEVICE_INFO_HEADER_LEN, info);
    SpliceAppend(was, p, h + hh + hdih, info);
    assert h + hh + hdih + info == Encode(DeviceInfoTlv(id, info));
    len := TLV_HEADER_LEN + HTIP_TLV_HEADER_LEN + HTIP_DEVICE_INFO_HEADER_LEN + |info|;
  }

  /** The manufacturer code is always copied as six bytes. */
  method CreateBasicHtipDeviceInfoTlv(buf: array<Byte>, p: nat, d: Device) returns (len: nat)
    requires |d.manufacturerCode| == MANUFACTURER_CODE_LEN
    requires p + |EncodeAll(DeviceTlvs(d))| <= buf.Length
    modifies buf
    ensures len == |EncodeAll(DeviceTlvs(d))|
    ensures buf[..] == Splice(old(buf[..]), p, EncodeAll(DeviceTlvs(d)))
  {
    hide Encode, EncodeAll, Splice;
    ghost var was := buf[..];
    ghost var ts := DeviceTlvs(d);
    ghost var a, b, c, e := Encode(ts[0]), Encode(ts[1]), Encode(ts[2]), Encode(ts[3]);
    DeviceLength(d);
    EncodeFour(ts[0], ts[1], ts[2], ts[3]);
    len := CreateHtipDeviceInfoTlv(buf, p, DEVICE_CATEGORY, d.category);
    var n := CreateHtipDeviceInfoTlv(buf, p + len, MODEL_NAME, d.modelName);
    SpliceAppend(was, p, a, b);
    len := len + n;
    n := CreateHtipDeviceInfoTlv(buf, p + len, MANUFACTURER_CODE, d.manufacturerCode);
    SpliceAppend(was, p, a + b, c);
    len := len + n;
    n := CreateHtipDeviceInfoTlv(buf, p + len, MODEL_NUMBER, d.modelNumber);
    SpliceAppend(was, p, a + b + c, e);
    len := len + n;
  }

  /** Copies a prepared link section; only its first `sectionLen` bytes. */
  method CreateBasicHtipLinkInfoTlv(buf: array<Byte>, p: nat, section: array<Byte>, sectionLen: nat)
    returns (len: nat)
    requires sectionLen <= section.Length && p + sectionLen <= buf.Length
    modifies buf
    ensures len == sectionLen
    ensures buf[..] == Splice(old(buf[..]), p, old(section[..sectionLen]))
  {
    Memcpy(buf, p, section[..sectionLen]);
    len := sectionLen;
  }

  // ---------------------------------------------------------------- the fragmenting encoder

  /** Fragments of the first `i` chunks, and the next one behind them. */
  lemma {:induction false} FragmentStep(iftype: nat, portNo: nat, chunks: seq<seq<Mac>>, i: nat)
    requires i < |chunks|
    ensures EncodeAll(LinkInfoTlvs(iftype, portNo, chunks[..i + 1]))
            == EncodeAll(LinkInfoTlvs(iftype, portNo, chunks[..i])) + Encode(LinkInfoTlv(iftype, portNo, chunks[i]))
  {
    LinkInfoTlvsSnoc(iftype, portNo, chunks[..i], chunks[i]);
    assert chunks[..i + 1] == chunks[..i] + [chunks[i]];
    EncodeAllSnoc(LinkInfoTlvs(iftype, portNo, chunks[..i]), LinkInfoTlv(iftype, portNo, chunks[i]));
  }

  lemma {:induction false} LinkInfoTlvsSnoc(iftype: nat, portNo: nat, chunks: seq<seq<Mac>>, c: seq<Mac>)
    ensures LinkInfoTlvs(iftype, portNo, chunks + [c])
            == LinkInfoTlvs(iftype, portNo, chunks) + [LinkInfoTlv(iftype, portNo, c)]
  {
    if chunks == [] {
      assert chunks + [c] == [c];
    } else {
      assert (chunks + [c])[1..] == chunks[1..] + [c];
      LinkInfoTlvsSnoc(iftype, portNo, chunks[1..], c);
    }
  }

  /** What is written once the loop has done `i` fragments of `macs`. */
  function Written(iftype: nat, portNo: nat, macs: seq<Mac>, i: nat): seq<Byte>
    requires i <= |Chunks(macs)|
  {
    EncodeAll(LinkInfoTlvs(iftype, portNo, Chunks(macs)[..i]))
  }

  lemma {:induction false} WrittenEnds(iftype: nat, portNo: nat, macs: seq<Mac>)
    ensures |Chunks(macs)| == FragmentCount(|macs|)
    ensures Written(iftype, portNo, macs, 0) == []
    ensures Written(iftype, portNo, macs, |Chunks(macs)|) == LinkInfoBytes(iftype, portNo, macs)
  {
    ChunkAt(macs, 0);
    assert Chunks(macs)[..|Chunks(macs)|] == Chunks(macs);
  }

  lemma {:induction false} WrittenFits(iftype: nat, portNo: nat, macs: seq<Mac>, i: nat)
    requires i <= |Chunks(macs)|
    ensures |Written(iftype, portNo, macs, i)| <= |LinkInfoBytes(iftype, portNo, macs)|
    decreases |Chunks(macs)| - i
  {
    if i < |Chunks(macs)| {
      FragmentStep(iftype, portNo, Chunks(macs), i);
      WrittenFits(iftype, portNo, macs, i + 1);
    } else {
      WrittenEnds(iftype, portNo, macs);
    }
  }

  /** How many addresses fragment `i` of `n` carries, as the loop computes it. */
  function NumInFragment(n: int, i: nat): int {
    if i + 1 == FragmentCount(n) then n - i * 83 else 83
  }

  /** Fragment `i` takes exactly its chunk, and all source indices are in range. */
  lemma {:induction false} FragmentIsChunk(macs: seq<Mac>, i: nat)
    requires i < FragmentCount(|macs|)
    ensures |Chunks(macs)| == FragmentCount(|macs|)
    ensures 0 <= NumInFragment(|macs|, i) <= 83
    ensures i * 83 + NumInFragment(|macs|, i) <= |macs|
    ensures macs[i * 83..i * 83 + NumInFragment(|macs|, i)] == Chunks(macs)[i]
  {
    ChunkAt(macs, i);
  }

  /** The bytes of one fragment with `num` addresses from `start`. */
  function FragmentBytes(iftype: nat, portNo: nat, macs: seq<Mac>, start: nat, num: int): seq<Byte>
    requires num >= 0 ==> start + num <= |macs|
  {
    if num >= 0 then Encode(LinkInfoTlv(iftype, portNo, macs[start..start + num]))
    else EncodedLink(iftype, portNo, [], num)
  }

  lemma {:induction false} FragmentBytesLength(iftype: nat, portNo: nat, macs: seq<Mac>, start: nat, num: int)
    requires num >= 0 ==> start + num <= |macs|
    ensures |FragmentBytes(iftype, portNo, macs, start, num)| == 11 + (if num >= 0 then 6 * num else 0)
  {
    if num >= 0 {
      FlattenLength(macs[start..start + num]);
    }
  }

  /** One more fragment extends what is written and still fits. */
  lemma {:induction false} WrittenStep(iftype: nat, portNo: nat, macs: seq<Mac>, i: nat)
    requires i < FragmentCount(|macs|)
    ensures |Chunks(macs)| == FragmentCount(|macs|)
    ensures 0 <= NumInFragment(|macs|, i)
    ensures i * 83 + NumInFragment(|macs|, i) <= |macs|
    ensures Written(iftype, portNo, macs, i + 1) == Written(iftype, portNo, macs, i)
            + FragmentBytes(iftype, portNo, macs, i * 83, NumInFragment(|macs|, i))
    ensures |Written(iftype, portNo, macs, i + 1)| <= |LinkInfoBytes(iftype, portNo, macs)|
  {
    hide Chunks, LinkInfoTlv, LinkInfoBytes, Encode, LinkInfoTlvs, EncodeAll;
    FragmentIsChunk(macs, i);
    FragmentStep(iftype, portNo, Chunks(macs), i);
    WrittenFits(iftype, portNo, macs, i + 1);
  }

  /** What is written after `i` fragments for any count, negative ones included. */
  function WrittenAny(iftype: nat, portNo: nat, macs: seq<Mac>, n: int, i: nat): seq<Byte>
    requires n <= |macs|
    requires n >= 0 ==> i <= |Chunks(macs[..n])|
  {
    if n >= 0 then Written(iftype, portNo, macs[..n], i)
    else if i == 0 then []
    else EncodedLink(iftype, portNo, [], n)
  }

  lemma {:induction false} WrittenAnyStep(iftype: nat, portNo: nat, macs: seq<Mac>, n: int, i: nat)
    requires n <= |macs| && i < FragmentCount(n)
    ensures n >= 0 ==> |Chunks(macs[..n])| == FragmentCount(n)
    ensures var num := NumInFragment(n, i);
            && num <= n
            && (num >= 0 ==> i * 83 + num <= |macs|)
            && WrittenAny(iftype, portNo, macs, n, i + 1) == WrittenAny(iftype, portNo, macs, n, i)
               + FragmentBytes(iftype, portNo, macs, i * 83, num)
            && |WrittenAny(iftype, portNo, macs, n, i + 1)| <= |EncodedLink(iftype, portNo, macs, n)|
  {
    hide Encode, LinkInfoTlv, LinkHead, EncodeAll, Chunks, LinkInfoTlvs, LinkInfoBytes, Written;
    if n >= 0 {
      var start, num := i * 83, NumInFragment(n, i);
      WrittenStep(iftype, portNo, macs[..n], i);
      assert macs[..n][start..start + num] == macs[start..start + num];
    }
  }

  lemma {:induction false} WrittenAnyEnds(iftype: nat, portNo: nat, macs: seq<Mac>, n: int)
    requires n <= |macs|
    ensures n >= 0 ==> |Chunks(macs[..n])| == FragmentCount(n)
    ensures WrittenAny(iftype, portNo, macs, n, 0) == []
    ensures WrittenAny(iftype, portNo, macs, n, FragmentCount(n)) == EncodedLink(iftype, portNo, macs, n)
  {
    if n >= 0 {
      WrittenEnds(iftype, portNo, macs[..n]);
    }
  }

  /** The next fragment fits behind what is written, and writing it there extends it. */
  lemma {:induction false} AppendFragment(iftype: nat, portNo: nat, macs: seq<Mac>, n: int, i: nat,
      was: seq<Byte>, p: nat)
    requires n <= |macs| && i < FragmentCount(n)
    requires p + |EncodedLink(iftype, portNo, macs, n)| <= |was|
    ensures n >= 0 ==> |Chunks(macs[..n])| == FragmentCount(n)
    ensures var num := NumInFragment(n, i);
            && (num >= 0 ==> i * 83 + num <= |macs|)
            && var before := WrittenAny(iftype, portNo, macs, n, i);
               var after := WrittenAny(iftype, portNo, macs, n, i + 1);
               var fragment := FragmentBytes(iftype, portNo, macs, i * 83, num);
               && |after| == |before| + |fragment|
               && p + |after| <= |was|
               && Splice(Splice(was, p, before), p + |before|, fragment) == Splice(was, p, after)
  {
    hide WrittenAny, FragmentBytes, EncodedLink, Chunks, Splice;
    WrittenAnyStep(iftype, portNo, macs, n, i);
    SpliceAppend(was, p, WrittenAny(iftype, portNo, macs, n, i),
                 FragmentBytes(iftype, portNo, macs, i * 83, NumInFragment(n, i)));
  }

  method CreateLinkHead(buf: array<Byte>, p: nat, iftype: nat, portNo: nat, num: int) returns (len: nat)
    requires p + 11 <= buf.Length
    modifies buf
    ensures len == 11
    ensures buf[..] == Splice(old(buf[..]), p, LinkHead(iftype, portNo, num))
  {
    ghost var was := buf[..];
    ghost var h := Pack(MakeHeader(ORGANIZATIONALLY_SPECIFIC_TLV, 9 + 6 * num));
    ghost var hh := HtipHeader(LINK_INFO_SUBTYPE);
    len := CreateTlvHeader(buf, p, HTIP_TLV_HEADER_LEN + HTIP_LINK_INFO_HEADER_LEN + 6 * num);
    var n := CreateHtipTlvHeader(buf, p + len, LINK_INFO_SUBTYPE);
    SpliceAppend(was, p, h, hh);
    len := len + n;
    var hlih := LinkHeader(iftype, portNo, num);
    Memcpy(buf, p + len, hlih);
    SpliceAppend(was, p, h + hh, hlih);
    len := len + HTIP_LINK_INFO_HEADER_LEN;
  }

  /** The inner loop: addresses `start`, `start + 1`, ... one after the other. */
  method CopyMacs(buf: array<Byte>, p: nat, macaddrs: array<Mac>, start: nat, num: nat) returns (len: nat)
    requires start + num <= macaddrs.Length && p + 6 * num <= buf.Length
    modifies buf
    ensures len == 6 * num
    ensures buf[..] == Splice(old(buf[..]), p, Flatten(old(macaddrs[start..start + num])))
  {
    ghost var was, macs := buf[..], macaddrs[start..start + num];
    len := 0;
    for j := 0 to num
      invariant macaddrs[start..start + num] == macs
      invariant len == 6 * j == |Flatten(macs[..j])|
      invariant buf[..] == Splice(was, p, Flatten(macs[..j]))
    {
      FlattenSnoc(macs[..j], macs[j]);
      assert macs[..j] + [macs[j]] == macs[..j + 1];
      SpliceAppend(was, p, Flatten(macs[..j]), macs[j]);
      assert macaddrs[start + j] == macs[j];
      Memcpy(buf, p + len, macaddrs[start + j]);
      len := len + ETHER_ADDR_LEN;
    }
    assert macs[..num] == macs;
  }

  /** One fragment: its header, then its addresses. `macs` is what the address array holds. */
  method CreateFragment(buf: array<Byte>, p: nat, iftype: nat, portNo: nat, macaddrs: array<Mac>, start: nat, num: int,
                        ghost macs: seq<Mac>)
    returns (len: nat)
    requires macaddrs[..] == macs
    requires num >= 0 ==> start + num <= |macs|
    requires p + |FragmentBytes(iftype, portNo, macs, start, num)| <= buf.Length
    modifies buf
    ensures len == |FragmentBytes(iftype, portNo, macs, start, num)|
    ensures buf[..] == Splice(old(buf[..]), p, FragmentBytes(iftype, portNo, macs, start, num))
  {
    FragmentBytesLength(iftype, portNo, macs, start, num);
    len := CreateLinkHead(buf, p, iftype, portNo, num);
    if num >= 0 {
      ghost var head, part := LinkHead(iftype, portNo, num), macs[start..start + num];
      EncodeLinkInfoTlv(iftype, portNo, part);
      assert FragmentBytes(iftype, portNo, macs, start, num) == head + Flatten(part);
      FlattenLength(part);
      assert macaddrs[start..start + num] == part;
      var n := CopyMacs(buf, p + len, macaddrs, start, num);
      SpliceAppend(old(buf[..]), p, head, Flatten(part));
      len := len + n;
    }
  }

  /** The `i`-th fragment, written behind the `i` before it. */
  method CreateNthFragment(buf: array<Byte>, p: nat, done: nat, iftype: nat, portNo: nat, macaddrs: array<Mac>,
                           num: int, i: nat, numTlv: int, ghost macs: seq<Mac>, ghost was: seq<Byte>)
    returns (len: nat)
    requires macaddrs[..] == macs
    requires num <= |macs| && i < FragmentCount(num) && numTlv == NumInFragment(num, i)
    requires num >= 0 ==> |Chunks(macs[..num])| == FragmentCount(num)
    requires |was| == buf.Length && p + |EncodedLink(iftype, portNo, macs, num)| <= |was|
    requires done == |WrittenAny(iftype, portNo, macs, num, i)|
    requires buf[..] == Splice(was, p, WrittenAny(iftype, portNo, macs, num, i))
    modifies buf
    ensures done + len == |WrittenAny(iftype, portNo, macs, num, i + 1)|
    ensures buf[..] == Splice(was, p, WrittenAny(iftype, portNo, macs, num, i + 1))
  {
    hide WrittenAny, FragmentBytes, EncodedLink, Chunks, Splice, FragmentCount;
    AppendFragment(iftype, portNo, macs, num, i, was, p);
    len := CreateFragment(buf, p + done, iftype, portNo, macaddrs, i * 83, numTlv, macs);
  }

  /** The quotient-and-remainder loop writes exactly the greedy fragmentation of the first `num` addresses. */
  method CreateHtipLinkInfoTlv(buf: array<Byte>, p: nat, iftype: nat, portNo: nat, macaddrs: array<Mac>, num: int)
    returns (len: nat)
    requires num <= macaddrs.Length
    requires p + |EncodedLink(iftype, portNo, macaddrs[..], num)| <= buf.Length
    modifies buf
    ensures len == |EncodedLink(iftype, portNo, old(macaddrs[..]), num)|
    ensures buf[..] == Splice(old(buf[..]), p, EncodedLink(iftype, portNo, old(macaddrs[..]), num))
  {
    var maxNum := (MAX_TLV_LEN - HTIP_TLV_HEADER_LEN - HTIP_LINK_INFO_HEADER_LEN) / ETHER_ADDR_LEN;
    assert maxNum == 83;
    var fragment := if num <= 0 then 1 else num / maxNum + 1;
    hide WrittenAny, EncodedLink, Chunks, Splice;
    len := 0;
    ghost var was, macs := buf[..], macaddrs[..];
    WrittenAnyEnds(iftype, portNo, macs, num);
    SpliceNothing(was, p);
    for i := 0 to fragment
      invariant macaddrs[..] == macs
      invariant len == |WrittenAny(iftype, portNo, macs, num, i)|
      invariant buf[..] == Splice(was, p, WrittenAny(iftype, portNo, macs, num, i))
    {
      var numTlv: int := maxNum;
      if i + 1 == fragment {
        numTlv := num - i * maxNum;
      }
      var n := CreateNthFragment(buf, p, len, iftype, portNo, macaddrs, num, i, numTlv, macs, was);
      len := len + n;
    }
  }
}
