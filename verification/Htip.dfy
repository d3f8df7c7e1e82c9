/**
  Frame assembly: the link section is sized, filled and trimmed, then one frame per eligible
  interface is put together in a zeroed payload and handed to the wire.
 */
module Htip {
  import opened Common
  import opened TlvHeader
  import opened Tlv
  import opened LinkInfo
  import opened TlvWriter
  import F = Fdb
  import I = IfInfo

  const ETH_DATA_LEN: nat := 1500

  datatype Frame = Frame(fd: int, ifname: I.Name, dst: Mac, src: Mac, payload: seq<Byte>)

  /** The frames transmitted so far. */
  class Wire {
    var sent: seq<Frame>

    constructor ()
      ensures sent == []
    {
      sent := [];
    }

    /** write_frame: `accepted` is what the system answers. */
    method WriteFrame(f: Frame, accepted: bool) returns (ok: bool)
      modifies this
      ensures ok == accepted
      ensures sent == if accepted then old(sent) + [f] else old(sent)
    {
      if accepted {
        sent := sent + [f];
      }
      ok := accepted;
    }
  }

  // ---------------------------------------------------------------- the link section

  predicate Bridged(e: I.IfInfo, fs: seq<F.FdbEntry>) {
    F.PortOf(fs, e.macaddr) != F.FDB_ENTRY_PORT_INVALID
  }

  function LinkOf(e: I.IfInfo, fs: seq<F.FdbEntry>): Link {
    Link(e.iftype, F.PortOf(fs, e.macaddr), F.RemoteOf(fs, e.macaddr))
  }

  /** The links to announce: one per interface with a port, in list order. */
  function LinksOf(es: seq<I.IfInfo>, fs: seq<F.FdbEntry>): seq<Link> {
    if es == [] then []
    else
      var before, e := LinksOf(es[..|es| - 1], fs), es[|es| - 1];
      if Bridged(e, fs) then before + [LinkOf(e, fs)] else before
  }

  /** What the sizing pass adds up. */
  function SizedLen(es: seq<I.IfInfo>, fs: seq<F.FdbEntry>): int {
    if es == [] then 0
    else SizedLen(es[..|es| - 1], fs) + PredictedLen(6, |F.RemoteOf(fs, es[|es| - 1].macaddr)|)
  }

  function Unbridged(es: seq<I.IfInfo>, fs: seq<F.FdbEntry>): (n: nat)
    ensures n <= |es|
  {
    if es == [] then 0
    else Unbridged(es[..|es| - 1], fs) + (if Bridged(es[|es| - 1], fs) then 0 else 1)
  }

  /** What the filling pass appends for one interface. */
  function SectionPart(e: I.IfInfo, fs: seq<F.FdbEntry>): seq<Byte> {
    if Bridged(e, fs) then LinkInfoBytes(e.iftype, F.PortOf(fs, e.macaddr), F.RemoteOf(fs, e.macaddr)) else []
  }

  /** What the filling pass writes. */
  function Section(es: seq<I.IfInfo>, fs: seq<F.FdbEntry>): seq<Byte> {
    if es == [] then [] else Section(es[..|es| - 1], fs) + SectionPart(es[|es| - 1], fs)
  }

  /** Appending interface by interface amounts to encoding the TLVs of all links. */
  lemma {:induction false} SectionIsLinks(es: seq<I.IfInfo>, fs: seq<F.FdbEntry>)
    ensures Section(es, fs) == EncodeAll(SectionTlvs(LinksOf(es, fs)))
  {
    if es != [] {
      var before, e := es[..|es| - 1], es[|es| - 1];
      SectionIsLinks(before, fs);
      if Bridged(e, fs) {
        SectionSnoc(LinksOf(before, fs), LinkOf(e, fs));
        EncodeAllAppend(SectionTlvs(LinksOf(before, fs)), LinkTlvs(LinkOf(e, fs)));
      }
    }
  }

  lemma {:induction false} PartPredicted(e: I.IfInfo, fs: seq<F.FdbEntry>)
    ensures PredictedLen(6, |F.RemoteOf(fs, e.macaddr)|)
            == |SectionPart(e, fs)| + if Bridged(e, fs) then 0 else 11
  {
    if Bridged(e, fs) {
      LinkInfoBytesLength(e.iftype, F.PortOf(fs, e.macaddr), F.RemoteOf(fs, e.macaddr));
    }
  }

  /** The sizing pass counts eleven bytes too many for every interface without a port, and nothing else. */
  lemma {:induction false} SizingExact(es: seq<I.IfInfo>, fs: seq<F.FdbEntry>)
    ensures SizedLen(es, fs) == |Section(es, fs)| + 11 * Unbridged(es, fs)
  {
    if es != [] {
      SizingExact(es[..|es| - 1], fs);
      PartPredicted(es[|es| - 1], fs);
    }
  }

  /** The next interface's fragments end inside the buffer allocated from the sizing pass. */
  lemma {:induction false} SectionRoom(es: seq<I.IfInfo>, fs: seq<F.FdbEntry>, i: nat)
    requires i <= |es|
    ensures |Section(es[..i], fs)| <= |Section(es, fs)| <= SizedLen(es, fs)
    decreases |es| - i
  {
    if i < |es| {
      SectionRoom(es, fs, i + 1);
      assert es[..i + 1][..i] == es[..i];
    } else {
      assert es[..i] == es;
      SizingExact(es, fs);
    }
  }

  // ---------------------------------------------------------------- frames

  /** Source and chassis address: the bridge's when given, else the interface's own. */
  function Source(e: I.IfInfo, srcaddr: Option<Mac>): Mac {
    match srcaddr
    case Some(m) => m
    case None => e.macaddr
  }

  /** Everything in front of the link section. */
  function HeadTlvs(e: I.IfInfo, d: Device, src: Mac): seq<Tlv> {
    LldpTlvs(src, I.CStr(e.ifname)) + DeviceTlvs(d)
  }

  function LinkFrameTlvs(e: I.IfInfo, d: Device, src: Mac, links: seq<Link>): seq<Tlv> {
    HeadTlvs(e, d, src) + SectionTlvs(links) + [END_TLV]
  }

  function DeviceFrameTlvs(e: I.IfInfo, d: Device): seq<Tlv> {
    HeadTlvs(e, d, e.macaddr) + [END_TLV]
  }

  lemma {:induction false} LinkFrameBytes(e: I.IfInfo, d: Device, src: Mac, links: seq<Link>)
    ensures EncodeAll(LinkFrameTlvs(e, d, src, links))
            == EncodeAll(LldpTlvs(src, I.CStr(e.ifname))) + EncodeAll(DeviceTlvs(d))
               + EncodeAll(SectionTlvs(links)) + Encode(END_TLV)
  {
    EncodeAllAppend(LldpTlvs(src, I.CStr(e.ifname)), DeviceTlvs(d));
    EncodeAllAppend(HeadTlvs(e, d, src), SectionTlvs(links));
    EncodeAllSnoc(HeadTlvs(e, d, src) + SectionTlvs(links), END_TLV);
  }

  lemma {:induction false} DeviceFrameBytes(e: I.IfInfo, d: Device)
    ensures EncodeAll(DeviceFrameTlvs(e, d))
            == EncodeAll(LldpTlvs(e.macaddr, I.CStr(e.ifname))) + EncodeAll(DeviceTlvs(d)) + Encode(END_TLV)
  {
    EncodeAllAppend(LldpTlvs(e.macaddr, I.CStr(e.ifname)), DeviceTlvs(d));
    EncodeAllSnoc(HeadTlvs(e, d, e.macaddr), END_TLV);
  }

  /** An interface gets a link frame when it is open and something was heard on its port. */
  predicate Eligible(e: I.IfInfo, fs: seq<F.FdbEntry>) {
    e.fd >= 0 && F.RemoteOf(fs, e.macaddr) != []
  }

  function LinkFrame(e: I.IfInfo, d: Device, srcaddr: Option<Mac>, links: seq<Link>): Frame {
    Frame(e.fd, e.ifname, BROADCAST, Source(e, srcaddr), EncodeAll(LinkFrameTlvs(e, d, Source(e, srcaddr), links)))
  }

  function DeviceFrame(e: I.IfInfo, d: Device): Frame {
    Frame(e.fd, e.ifname, BROADCAST, e.macaddr, EncodeAll(DeviceFrameTlvs(e, d)))
  }

  /** The frames of one call, when `links` are the links of all interfaces. */
  function LinkFrames(es: seq<I.IfInfo>, fs: seq<F.FdbEntry>, d: Device, srcaddr: Option<Mac>,
      links: seq<Link>): seq<Frame> {
    if es == [] then []
    else
      var before, e := LinkFrames(es[..|es| - 1], fs, d, srcaddr, links), es[|es| - 1];
      if Eligible(e, fs) then before + [LinkFrame(e, d, srcaddr, links)] else before
  }

  function DeviceFrames(es: seq<I.IfInfo>, d: Device): seq<Frame> {
    if es == [] then []
    else
      var before, e := DeviceFrames(es[..|es| - 1], d), es[|es| - 1];
      if e.fd >= 0 then before + [DeviceFrame(e, d)] else before
  }

  /** How many of `n` transmissions the system takes before it refuses one. */
  function FirstRefused(accepts: nat -> bool, n: nat): (k: nat)
    ensures k <= n
  {
    if n == 0 then 0
    else
      var k := FirstRefused(accepts, n - 1);
      if k == n - 1 && accepts(k) then n else k
  }

  predicate AcceptsBelow(accepts: nat -> bool, k: nat) {
    forall i :: 0 <= i < k ==> accepts(i)
  }

  lemma {:induction false} FirstRefusedIs(accepts: nat -> bool, n: nat, k: nat)
    requires k <= n && AcceptsBelow(accepts, k) && (k < n ==> !accepts(k))
    ensures FirstRefused(accepts, n) == k
  {
    if n > 0 {
      if k < n {
        FirstRefusedIs(accepts, n - 1, k);
      } else {
        FirstRefusedIs(accepts, n - 1, n - 1);
      }
    }
  }

  // ---------------------------------------------------------------- what a caller owes

  /** Lengths the payload buffer of 1500 bytes has room for; the code does not check them. */
  predicate LinkFrameFits(e: I.IfInfo, d: Device, links: seq<Link>) {
    LldpTlvLen(ETHER_ADDR_LEN, |I.CStr(e.ifname)|)
    + |EncodeAll(DeviceTlvs(d))| + |EncodeAll(SectionTlvs(links))| + TLV_HEADER_LEN <= ETH_DATA_LEN
  }

  predicate DeviceFrameFits(e: I.IfInfo, d: Device) {
    LldpTlvLen(ETHER_ADDR_LEN, |I.CStr(e.ifname)|) + |EncodeAll(DeviceTlvs(d))| + TLV_HEADER_LEN <= ETH_DATA_LEN
  }

  /** Names that end inside their field, a six-byte manufacturer code, and room for every frame sent. */
  predicate Sendable(es: seq<I.IfInfo>, fs: seq<F.FdbEntry>, d: Device) {
    && |d.manufacturerCode| == MANUFACTURER_CODE_LEN
    && forall i :: 0 <= i < |es| && Eligible(es[i], fs) ==>
         I.Terminated(es[i].ifname) && LinkFrameFits(es[i], d, LinksOf(es, fs))
  }

  predicate DeviceSendable(es: seq<I.IfInfo>, d: Device) {
    && |d.manufacturerCode| == MANUFACTURER_CODE_LEN
    && forall i :: 0 <= i < |es| && es[i].fd >= 0 ==> I.Terminated(es[i].ifname) && DeviceFrameFits(es[i], d)
  }

  lemma {:induction false} SendableAt(es: seq<I.IfInfo>, fs: seq<F.FdbEntry>, d: Device, i: nat)
    requires Sendable(es, fs, d) && i < |es|
    ensures |d.manufacturerCode| == MANUFACTURER_CODE_LEN
    ensures Eligible(es[i], fs) ==> LinkFrameFits(es[i], d, LinksOf(es, fs))
  {
  }

  lemma {:induction false} DeviceSendableAt(es: seq<I.IfInfo>, d: Device, i: nat)
    requires DeviceSendable(es, d) && i < |es|
    ensures |d.manufacturerCode| == MANUFACTURER_CODE_LEN
    ensures es[i].fd >= 0 ==> DeviceFrameFits(es[i], d)
  {
  }

  // ---------------------------------------------------------------- building one payload

  method BuildHead(payload: array<Byte>, e: I.IfInfo, d: Device, src: Mac) returns (len: nat)
    requires |d.manufacturerCode| == MANUFACTURER_CODE_LEN
    requires LldpTlvLen(ETHER_ADDR_LEN, |I.CStr(e.ifname)|) + |EncodeAll(DeviceTlvs(d))| <= payload.Length
    modifies payload
    ensures var head := EncodeAll(LldpTlvs(src, I.CStr(e.ifname))) + EncodeAll(DeviceTlvs(d));
            len == |head| == LldpTlvLen(ETHER_ADDR_LEN, |I.CStr(e.ifname)|) + |EncodeAll(DeviceTlvs(d))|
            && payload[..] == Splice(old(payload[..]), 0, head)
  {
    var ifname := I.CStr(e.ifname);
    ghost var lldp := EncodeAll(LldpTlvs(src, ifname));
    len := CreateLldpTlv(payload, 0, src, ifname);
    var rlen := CreateBasicHtipDeviceInfoTlv(payload, len, d);
    SpliceAppend(old(payload[..]), 0, lldp, EncodeAll(DeviceTlvs(d)));
    len := len + rlen;
  }

  lemma {:induction false} SpliceFront(s: seq<Byte>, bytes: seq<Byte>)
    requires |bytes| <= |s|
    ensures Splice(s, 0, bytes)[..|bytes|] == bytes
  {
    SpliceParts(s, 0, bytes);
  }

  method BuildLinkPayload(e: I.IfInfo, d: Device, src: Mac, section: array<Byte>, sectionLen: nat,
      ghost links: seq<Link>)
    returns (payload: array<Byte>, len: nat)
    requires |d.manufacturerCode| == MANUFACTURER_CODE_LEN
    requires sectionLen <= section.Length && section[..sectionLen] == EncodeAll(SectionTlvs(links))
    requires LinkFrameFits(e, d, links)
    ensures fresh(payload) && len <= payload.Length == ETH_DATA_LEN
    ensures payload[..len] == EncodeAll(LinkFrameTlvs(e, d, src, links))
  {
    hide LldpTlvs, DeviceTlvs, SectionTlvs, LinkFrameTlvs, EncodeAll, Encode, Splice, LldpTlvLen;
    payload := new Byte[ETH_DATA_LEN](_ => 0);
    ghost var was := payload[..];
    ghost var head := EncodeAll(LldpTlvs(src, I.CStr(e.ifname))) + EncodeAll(DeviceTlvs(d));
    ghost var sec := EncodeAll(SectionTlvs(links));
    len := BuildHead(payload, e, d, src);
    assert section[..sectionLen] == sec;
    var rlen := CreateBasicHtipLinkInfoTlv(payload, len, section, sectionLen);
    SpliceAppend(was, 0, head, sec);
    len := len + rlen;
    rlen := CreateEndOfLldpduTlv(payload, len);
    SpliceAppend(was, 0, head + sec, Encode(END_TLV));
    len := len + rlen;
    LinkFrameBytes(e, d, src, links);
    SpliceFront(was, head + sec + Encode(END_TLV));
  }

  method BuildDevicePayload(e: I.IfInfo, d: Device) returns (payload: array<Byte>, len: nat)
    requires |d.manufacturerCode| == MANUFACTURER_CODE_LEN && DeviceFrameFits(e, d)
    ensures fresh(payload) && len <= payload.Length == ETH_DATA_LEN
    ensures payload[..len] == EncodeAll(DeviceFrameTlvs(e, d))
  {
    hide LldpTlvs, DeviceTlvs, DeviceFrameTlvs, EncodeAll, Encode, Splice, LldpTlvLen;
    payload := new Byte[ETH_DATA_LEN](_ => 0);
    ghost var was := payload[..];
    ghost var head := EncodeAll(LldpTlvs(e.macaddr, I.CStr(e.ifname))) + EncodeAll(DeviceTlvs(d));
    len := BuildHead(payload, e, d, e.macaddr);
    var rlen := CreateEndOfLldpduTlv(payload, len);
    SpliceAppend(was, 0, head, Encode(END_TLV));
    len := len + rlen;
    DeviceFrameBytes(e, d);
    SpliceFront(was, head + Encode(END_TLV));
  }

  // ---------------------------------------------------------------- sending one after the other

  /** `frames` were all accepted and are what was sent since `sent0`. */
  predicate Progress(sent: seq<Frame>, sent0: seq<Frame>, frames: seq<Frame>, attempts: nat, accepts: nat -> bool) {
    attempts == |frames| && sent == sent0 + frames && AcceptsBelow(accepts, attempts)
  }

  lemma {:induction false} ProgressStart(sent0: seq<Frame>, frames: seq<Frame>, accepts: nat -> bool)
    requires frames == []
    ensures Progress(sent0, sent0, frames, 0, accepts)
  {
  }

  lemma {:induction false} ProgressStep(sent: seq<Frame>, sent0: seq<Frame>, frames: seq<Frame>, attempts: nat,
      accepts: nat -> bool, f: Frame)
    requires Progress(sent, sent0, frames, attempts, accepts) && accepts(attempts)
    ensures Progress(sent + [f], sent0, frames + [f], attempts + 1, accepts)
  {
    assert sent0 + frames + [f] == sent0 + (frames + [f]);
  }

  /** When the next frame is refused, exactly the frames before it have been sent. */
  lemma {:induction false} ProgressRefused(sent: seq<Frame>, sent0: seq<Frame>, before: seq<Frame>,
      attempts: nat, accepts: nat -> bool, f: Frame, frames: seq<Frame>)
    requires Progress(sent, sent0, before, attempts, accepts) && !accepts(attempts)
    requires before + [f] <= frames
    ensures var k := FirstRefused(accepts, |frames|); k < |frames| && sent == sent0 + frames[..k]
  {
    FirstRefusedIs(accepts, |frames|, |before|);
    assert frames[..|before|] == before;
  }

  lemma {:induction false} ProgressDone(sent: seq<Frame>, sent0: seq<Frame>, frames: seq<Frame>, attempts: nat,
      accepts: nat -> bool)
    requires Progress(sent, sent0, frames, attempts, accepts)
    ensures FirstRefused(accepts, |frames|) == |frames| && sent == sent0 + frames[..|frames|]
  {
    FirstRefusedIs(accepts, |frames|, |frames|);
    assert frames[..|frames|] == frames;
  }

  // ---------------------------------------------------------------- send_htip_device_info

  lemma {:induction false} NoDeviceFrames(es: seq<I.IfInfo>, d: Device)
    ensures DeviceFrames(es[..0], d) == []
  {
  }

  lemma {:induction false} DeviceFramesStep(es: seq<I.IfInfo>, d: Device, i: nat)
    requires i < |es|
    ensures DeviceFrames(es[..i + 1], d)
            == if es[i].fd >= 0 then DeviceFrames(es[..i], d) + [DeviceFrame(es[i], d)] else DeviceFrames(es[..i], d)
  {
    assert es[..i + 1][..i] == es[..i];
  }

  /** One interface: skipped when it is not open. */
  method SendDeviceFrame(e: I.IfInfo, d: Device, wire: Wire, accepted: bool) returns (tried: bool, ok: bool)
    requires e.fd >= 0 ==> |d.manufacturerCode| == MANUFACTURER_CODE_LEN && DeviceFrameFits(e, d)
    modifies wire
    ensures tried <==> e.fd >= 0
    ensures ok <==> tried ==> accepted
    ensures wire.sent == if tried && accepted then old(wire.sent) + [DeviceFrame(e, d)] else old(wire.sent)
  {
    if e.fd < 0 {
      return false, true;
    }
    var payload, len := BuildDevicePayload(e, d);
    ok := wire.WriteFrame(Frame(e.fd, e.ifname, BROADCAST, e.macaddr, payload[..len]), accepted);
    tried := true;
  }

  method SendDeviceInfo(ifs: I.InterfaceTable, d: Device, wire: Wire, accepts: nat -> bool) returns (r: int)
    requires ifs.Valid() && DeviceSendable(ifs.Entries(), d)
    modifies wire
    ensures var frames := DeviceFrames(old(ifs.Entries()), d);
            var k := FirstRefused(accepts, |frames|);
            wire.sent == old(wire.sent) + frames[..k] && r == if k == |frames| then 0 else -1
  {
    hide *;
    ghost var es := ifs.Entries();
    ghost var frames := DeviceFrames(es, d);
    NoDeviceFrames(es, d);
    var num := ifs.GetNum();
    var attempts := 0;
    var i := 0;
    ProgressStart(wire.sent, DeviceFrames(es[..0], d), accepts);
    while i < num
      invariant 0 <= i <= |es|
      invariant Progress(wire.sent, old(wire.sent), DeviceFrames(es[..i], d), attempts, accepts)
    {
      DeviceFramesStep(es, d, i);
      DeviceSendableAt(es, d, i);
      ghost var sent, f := wire.sent, DeviceFrame(es[i], d);
      var e := ifs.At(i);
      var tried, ok := SendDeviceFrame(e, d, wire, accepts(attempts));
      if !ok {
        DeviceFramesPrefix(es, d, i + 1);
        ProgressRefused(sent, old(wire.sent), DeviceFrames(es[..i], d), attempts, accepts, f, frames);
        return -1;
      }
      if tried {
        ProgressStep(sent, old(wire.sent), DeviceFrames(es[..i], d), attempts, accepts, f);
        attempts := attempts + 1;
      }
      i := i + 1;
    }
    assert es[..i] == es;
    ProgressDone(wire.sent, old(wire.sent), frames, attempts, accepts);
    r := 0;
  }

  lemma {:induction false} DeviceFramesPrefix(es: seq<I.IfInfo>, d: Device, i: nat)
    requires i <= |es|
    ensures DeviceFrames(es[..i], d) <= DeviceFrames(es, d)
    decreases |es|
  {
    if i < |es| {
      DeviceFramesPrefix(es[..|es| - 1], d, i);
      assert es[..|es| - 1][..i] == es[..i];
    } else {
      assert es[..i] == es;
    }
  }

  lemma {:induction false} LinkFramesPrefix(
    es: seq<I.IfInfo>, fs: seq<F.FdbEntry>, d: Device, srcaddr: Option<Mac>, links: seq<Link>, i: nat)
    requires i <= |es|
    ensures LinkFrames(es[..i], fs, d, srcaddr, links) <= LinkFrames(es, fs, d, srcaddr, links)
    decreases |es|
  {
    if i < |es| {
      LinkFramesPrefix(es[..|es| - 1], fs, d, srcaddr, links, i);
      assert es[..|es| - 1][..i] == es[..i];
    } else {
      assert es[..i] == es;
    }
  }

  lemma {:induction false} NoLinkFrames(es: seq<I.IfInfo>, fs: seq<F.FdbEntry>, d: Device,
      srcaddr: Option<Mac>, links: seq<Link>)
    ensures LinkFrames(es[..0], fs, d, srcaddr, links) == []
  {
  }

  lemma {:induction false} LinkFramesStep(
    es: seq<I.IfInfo>, fs: seq<F.FdbEntry>, d: Device, srcaddr: Option<Mac>, links: seq<Link>, i: nat)
    requires i < |es|
    ensures LinkFrames(es[..i + 1], fs, d, srcaddr, links)
            == var before := LinkFrames(es[..i], fs, d, srcaddr, links);
               if Eligible(es[i], fs) then before + [LinkFrame(es[i], d, srcaddr, links)] else before
  {
    assert es[..i + 1][..i] == es[..i];
  }

  // ---------------------------------------------------------------- send_htip_device_link_info

  lemma {:induction false} NothingFilled(es: seq<I.IfInfo>, fs: seq<F.FdbEntry>)
    ensures SizedLen(es[..0], fs) == 0 && Section(es[..0], fs) == []
  {
  }

  lemma {:induction false} SizedStep(es: seq<I.IfInfo>, fs: seq<F.FdbEntry>, i: nat)
    requires i < |es|
    ensures SizedLen(es[..i + 1], fs) == SizedLen(es[..i], fs) + PredictedLen(6, |F.RemoteOf(fs, es[i].macaddr)|)
  {
    assert es[..i + 1][..i] == es[..i];
  }

  /** First pass. */
  method SizeSection(ifs: I.InterfaceTable, fdb: F.ForwardingTable) returns (len: nat)
    requires ifs.Valid() && fdb.Valid()
    ensures len == SizedLen(ifs.Entries(), fdb.Entries())
  {
    hide *;
    ghost var es, fs := ifs.Entries(), fdb.Entries();
    var macaddrs := new Mac[F.MAX_FDB_ENTRY_SIZE](_ => ZERO_MAC);
    var num := ifs.GetNum();
    var total: int := 0;
    var i := 0;
    NothingFilled(es, fs);
    while i < num
      invariant 0 <= i <= |es|
      invariant ifs.Valid() && ifs.Entries() == es && fdb.Valid() && fdb.Entries() == fs
      invariant total == SizedLen(es[..i], fs)
    {
      SizedStep(es, fs, i);
      var e := ifs.At(i);
      var n := fdb.RemoteByMac(e.macaddr, macaddrs);
      assert n == |macaddrs[..n]|;
      total := total + PredictedLen(6, n);
      i := i + 1;
    }
    assert es[..i] == es;
    SectionRoom(es, fs, 0);
    len := total;
  }

  /** The next interface's part fits behind what is filled, and extends it. */
  lemma {:induction false} FillStep(es: seq<I.IfInfo>, fs: seq<F.FdbEntry>, i: nat, was: seq<Byte>)
    requires i < |es| && |was| == SizedLen(es, fs)
    ensures |Section(es[..i + 1], fs)| == |Section(es[..i], fs)| + |SectionPart(es[i], fs)| <= |was|
    ensures Splice(Splice(was, 0, Section(es[..i], fs)), |Section(es[..i], fs)|, SectionPart(es[i], fs))
            == Splice(was, 0, Section(es[..i + 1], fs))
  {
    hide SectionPart;
    SectionRoom(es, fs, i + 1);
    assert es[..i + 1][..i] == es[..i];
    SpliceAppend(was, 0, Section(es[..i], fs), SectionPart(es[i], fs));
  }

  /** Second pass, into a buffer of the size found by the first; returns the length really written. */
  method FillSection(ifs: I.InterfaceTable, fdb: F.ForwardingTable, section: array<Byte>) returns (len: nat)
    requires ifs.Valid() && fdb.Valid()
    requires section.Length == SizedLen(ifs.Entries(), fdb.Entries())
    modifies section
    ensures len <= section.Length
    ensures section[..len] == Section(ifs.Entries(), fdb.Entries())
  {
    hide *;
    ghost var es, fs := ifs.Entries(), fdb.Entries();
    ghost var was := section[..];
    var macaddrs := new Mac[F.MAX_FDB_ENTRY_SIZE](_ => ZERO_MAC);
    var num := ifs.GetNum();
    len := 0;
    var i := 0;
    SpliceNothing(was, 0);
    SectionRoom(es, fs, 0);
    NothingFilled(es, fs);
    while i < num
      invariant 0 <= i <= |es|
      invariant ifs.Valid() && ifs.Entries() == es && fdb.Valid() && fdb.Entries() == fs
      invariant len == |Section(es[..i], fs)| <= section.Length
      invariant section[..] == Splice(was, 0, Section(es[..i], fs))
    {
      FillStep(es, fs, i, was);
      var e := ifs.At(i);
      var rlen := FillPart(e, fdb, section, len, macaddrs);
      len := len + rlen;
      i := i + 1;
    }
    assert es[..i] == es;
    SpliceFront(was, Section(es, fs));
  }

  /** One interface of the second pass: skipped when it has no port. */
  method FillPart(e: I.IfInfo, fdb: F.ForwardingTable, section: array<Byte>, at: nat, macaddrs: array<Mac>)
    returns (len: nat)
    requires fdb.Valid() && macaddrs.Length == F.MAX_FDB_ENTRY_SIZE
    requires at + |SectionPart(e, fdb.Entries())| <= section.Length
    modifies section, macaddrs
    ensures fdb.Valid() && fdb.Entries() == old(fdb.Entries())
    ensures len == |SectionPart(e, fdb.Entries())|
    ensures section[..] == Splice(old(section[..]), at, SectionPart(e, fdb.Entries()))
  {
    ghost var fs := fdb.Entries();
    var n := fdb.RemoteByMac(e.macaddr, macaddrs);
    var portNo := fdb.GetPortno(e.macaddr);
    if portNo == F.FDB_ENTRY_PORT_INVALID {
      SpliceNothing(section[..], at);
      return 0;
    }
    assert macaddrs[..][..n] == F.RemoteOf(fs, e.macaddr);
    len := CreateHtipLinkInfoTlv(section, at, e.iftype, portNo, macaddrs, n);
  }

  /** One interface of the third pass: skipped when it is not open or has heard nothing. */
  method SendFrame(e: I.IfInfo, fdb: F.ForwardingTable, d: Device, srcaddr: Option<Mac>, section: array<Byte>,
                   sectionLen: nat, wire: Wire, accepted: bool, ghost links: seq<Link>)
    returns (tried: bool, ok: bool)
    requires fdb.Valid() && |d.manufacturerCode| == MANUFACTURER_CODE_LEN
    requires sectionLen <= section.Length && section[..sectionLen] == EncodeAll(SectionTlvs(links))
    requires Eligible(e, fdb.Entries()) ==> LinkFrameFits(e, d, links)
    modifies wire
    ensures tried <==> Eligible(e, old(fdb.Entries()))
    ensures ok <==> tried ==> accepted
    ensures wire.sent
            == if tried && accepted then old(wire.sent) + [LinkFrame(e, d, srcaddr, links)] else old(wire.sent)
  {
    if e.fd < 0 {
      return false, true;
    }
    ghost var fs := fdb.Entries();
    var macaddrs := new Mac[F.MAX_FDB_ENTRY_SIZE](_ => ZERO_MAC);
    var n := fdb.RemoteByMac(e.macaddr, macaddrs);
    assert n == |F.RemoteOf(fs, e.macaddr)|;
    if n == 0 {
      return false, true;
    }
    var src := if srcaddr.Some? then srcaddr.value else e.macaddr;
    var payload, len := BuildLinkPayload(e, d, src, section, sectionLen, links);
    ok := wire.WriteFrame(Frame(e.fd, e.ifname, BROADCAST, src, payload[..len]), accepted);
    tried := true;
  }

  /** Third pass. */
  method SendFrames(ifs: I.InterfaceTable, fdb: F.ForwardingTable, d: Device, srcaddr: Option<Mac>,
                    section: array<Byte>, sectionLen: nat, wire: Wire, accepts: nat -> bool)
    returns (r: int)
    requires ifs.Valid() && fdb.Valid() && Sendable(ifs.Entries(), fdb.Entries(), d)
    requires sectionLen <= section.Length
    requires section[..sectionLen] == EncodeAll(SectionTlvs(LinksOf(ifs.Entries(), fdb.Entries())))
    modifies wire
    ensures var es, fs := old(ifs.Entries()), old(fdb.Entries());
            var frames := LinkFrames(es, fs, d, srcaddr, LinksOf(es, fs));
            var k := FirstRefused(accepts, |frames|);
            wire.sent == old(wire.sent) + frames[..k] && r == if k == |frames| then 0 else -1
  {
    hide *;
    ghost var es, fs := ifs.Entries(), fdb.Entries();
    ghost var links := LinksOf(es, fs);
    ghost var frames := LinkFrames(es, fs, d, srcaddr, links);
    NoLinkFrames(es, fs, d, srcaddr, links);
    var num := ifs.GetNum();
    var attempts := 0;
    var i := 0;
    ProgressStart(wire.sent, LinkFrames(es[..0], fs, d, srcaddr, links), accepts);
    while i < num
      invariant 0 <= i <= |es|
      invariant Progress(wire.sent, old(wire.sent), LinkFrames(es[..i], fs, d, srcaddr, links), attempts, accepts)
    {
      LinkFramesStep(es, fs, d, srcaddr, links, i);
      SendableAt(es, fs, d, i);
      ghost var sent, f := wire.sent, LinkFrame(es[i], d, srcaddr, links);
      ghost var before := LinkFrames(es[..i], fs, d, srcaddr, links);
      var e := ifs.At(i);
      var tried, ok := SendFrame(e, fdb, d, srcaddr, section, sectionLen, wire, accepts(attempts), links);
      if !ok {
        LinkFramesPrefix(es, fs, d, srcaddr, links, i + 1);
        ProgressRefused(sent, old(wire.sent), before, attempts, accepts, f, frames);
        return -1;
      }
      if tried {
        ProgressStep(sent, old(wire.sent), before, attempts, accepts, f);
        attempts := attempts + 1;
      }
      i := i + 1;
    }
    assert es[..i] == es;
    ProgressDone(wire.sent, old(wire.sent), frames, attempts, accepts);
    r := 0;
  }

  /** The three passes; the section is trimmed to what was written before it is sent. */
  method SendDeviceLinkInfo(ifs: I.InterfaceTable, fdb: F.ForwardingTable, d: Device, srcaddr: Option<Mac>,
                            wire: Wire, accepts: nat -> bool)
    returns (r: int)
    requires ifs.Valid() && fdb.Valid() && Sendable(ifs.Entries(), fdb.Entries(), d)
    modifies wire
    ensures var es, fs := old(ifs.Entries()), old(fdb.Entries());
            var frames := LinkFrames(es, fs, d, srcaddr, LinksOf(es, fs));
            var k := FirstRefused(accepts, |frames|);
            wire.sent == old(wire.sent) + frames[..k] && r == if k == |frames| then 0 else -1
  {
    var sectionLen := SizeSection(ifs, fdb);
    var section := new Byte[sectionLen];
    var len := FillSection(ifs, fdb, section);
    if len != sectionLen {
      sectionLen := len;
    }
    SectionIsLinks(ifs.Entries(), fdb.Entries());
    r := SendFrames(ifs, fdb, d, srcaddr, section, sectionLen, wire, accepts);
  }
}
