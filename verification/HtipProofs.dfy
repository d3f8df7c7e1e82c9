/**
  What a receiver learns from the frames: the whole frame parses back, in the order the standard
  asks for, and its link section says about every port exactly what the forwarding table says.
 */
module HtipProofs {
  import opened Common
  import opened Positions
  import opened TlvHeader
  import opened Tlv
  import opened LinkInfo
  import opened TlvWriter
  import opened Htip
  import F = Fdb
  import I = IfInfo

  // ---------------------------------------------------------------- whole frames parse

  /** No device string is longer than `limit`; the documented limits are 255, 31 and 31. */
  predicate DeviceWithin(d: Device, limit: int) {
    && |d.category| <= limit && |d.modelName| <= limit
    && |d.manufacturerCode| <= limit && |d.modelNumber| <= limit
  }

  lemma {:induction false} HeadShorter(e: I.IfInfo, d: Device, src: Mac, limit: nat)
    requires limit >= 256
    ensures AllShorter(HeadTlvs(e, d, src), limit) <==> DeviceWithin(d, limit - 7)
  {
    var ts := HeadTlvs(e, d, src);
    var ds := DeviceTlvs(d);
    AllShorterAppend(LldpTlvs(src, I.CStr(e.ifname)), ds, limit);
    assert |ds[0].body| == 6 + |d.category| && |ds[1].body| == 6 + |d.modelName|;
    assert |ds[2].body| == 6 + |d.manufacturerCode| && |ds[3].body| == 6 + |d.modelNumber|;
  }

  lemma {:induction false} EndShorter(ts: seq<Tlv>, limit: nat)
    requires limit >= 256
    ensures AllShorter(ts + [END_TLV], limit) <==> AllShorter(ts, limit)
  {
    AllShorterAppend(ts, [END_TLV], limit);
  }

  /**
    Which reader recovers a link frame: the nine-bit one exactly when no device string exceeds 505
    bytes, the committed one exactly when none exceeds 249 and no link has more than 41 addresses.
   */
  lemma {:induction false} LinkFrameParses(r: Reader, e: I.IfInfo, d: Device, src: Mac, links: seq<Link>, tail: Byte)
    ensures Parse(r, EncodeAll(LinkFrameTlvs(e, d, src, links)), tail) == Some(LinkFrameTlvs(e, d, src, links))
            <==> match r
                 case NineBit => DeviceWithin(d, 505)
                 case Committed => DeviceWithin(d, 249) && forall i :: 0 <= i < |links| ==> |links[i].macs| <= 41
  {
    hide HeadTlvs, SectionTlvs, EncodeAll, Parse, AllShorter, DeviceWithin;
    ParseEncoded(r, LinkFrameTlvs(e, d, src, links), tail);
    EndShorter(HeadTlvs(e, d, src) + SectionTlvs(links), r.Limit());
    AllShorterAppend(HeadTlvs(e, d, src), SectionTlvs(links), r.Limit());
    HeadShorter(e, d, src, r.Limit());
    SectionFits(links);
  }

  lemma {:induction false} DeviceFrameParses(r: Reader, e: I.IfInfo, d: Device, tail: Byte)
    ensures Parse(r, EncodeAll(DeviceFrameTlvs(e, d)), tail) == Some(DeviceFrameTlvs(e, d))
            <==> DeviceWithin(d, if r == NineBit then 505 else 249)
  {
    hide HeadTlvs, EncodeAll, Parse, AllShorter, DeviceWithin;
    ParseEncoded(r, DeviceFrameTlvs(e, d), tail);
    EndShorter(HeadTlvs(e, d, e.macaddr), r.Limit());
    HeadShorter(e, d, e.macaddr, r.Limit());
  }

  lemma {:induction false} LinkTlvTypes(iftype: nat, portNo: nat, chunks: seq<seq<Mac>>)
    ensures forall i :: 0 <= i < |chunks| ==>
        LinkInfoTlvs(iftype, portNo, chunks)[i].typ == ORGANIZATIONALLY_SPECIFIC_TLV
  {
    if chunks != [] {
      LinkTlvTypes(iftype, portNo, chunks[1..]);
    }
  }

  lemma {:induction false} SectionTypes(links: seq<Link>)
    ensures forall i :: 0 <= i < |SectionTlvs(links)| ==> SectionTlvs(links)[i].typ == ORGANIZATIONALLY_SPECIFIC_TLV
  {
    if links != [] {
      LinkTlvTypes(links[0].iftype, links[0].portNo, Chunks(links[0].macs));
      SectionTypes(links[1..]);
    }
  }

  /**
    Section 8.2 of IEEE 802.1AB-2009: Chassis ID, Port ID and Time To Live come first, in this order,
    the optional TLVs follow, and the one End TLV, which is empty, comes last.
   */
  predicate MandatoryOrder(ts: seq<Tlv>) {
    && |ts| >= 9
    && (forall i :: 0 <= i < |ts| - 1 ==> ts[i].typ == if i < 4 then i + 1 else 127)
    && ts[|ts| - 1] == Tlv(0, [])
  }

  lemma {:induction false} LinkFrameOrder(e: I.IfInfo, d: Device, src: Mac, links: seq<Link>)
    ensures MandatoryOrder(LinkFrameTlvs(e, d, src, links))
  {
    SectionTypes(links);
    var head, section := HeadTlvs(e, d, src), SectionTlvs(links);
    var ts := LinkFrameTlvs(e, d, src, links);
    forall i | 0 <= i < |ts| - 1 ensures ts[i].typ == if i < 4 then i + 1 else 127 {
      assert ts[i] == if i < 8 then head[i] else section[i - 8];
    }
  }

  /**
    What the eight TLVs in front say: address and subtype twice, sixty seconds in network order, the
    interface's name, and the four device strings, each recovered exactly when it has at most 255 bytes.
   */
  predicate HeadSays(ts: seq<Tlv>, e: I.IfInfo, d: Device, src: Mac) {
    && |ts| >= 9
    && ts[0].body == [4] + src && ts[1].body == [3] + src
    && |ts[2].body| == 2 && ts[2].body[0] as int * 256 + ts[2].body[1] as int == 60
    && ts[3].body == I.CStr(e.ifname)
    && (ReadHtip(ts[4].body) == DeviceInfo(1, d.category) <==> |d.category| <= 255)
    && (ReadHtip(ts[5].body) == DeviceInfo(3, d.modelName) <==> |d.modelName| <= 255)
    && (ReadHtip(ts[6].body) == DeviceInfo(2, d.manufacturerCode) <==> |d.manufacturerCode| <= 255)
    && (ReadHtip(ts[7].body) == DeviceInfo(4, d.modelNumber) <==> |d.modelNumber| <= 255)
  }

  lemma {:induction false} FrameFields(e: I.IfInfo, d: Device, src: Mac, links: seq<Link>)
    ensures HeadSays(LinkFrameTlvs(e, d, src, links), e, d, src)
  {
    hide ReadHtip, DeviceInfoTlv, SectionTlvs, I.CStr;
    DeviceInfoRoundTrip(DEVICE_CATEGORY, d.category);
    DeviceInfoRoundTrip(MODEL_NAME, d.modelName);
    DeviceInfoRoundTrip(MANUFACTURER_CODE, d.manufacturerCode);
    DeviceInfoRoundTrip(MODEL_NUMBER, d.modelNumber);
    assert forall i :: 0 <= i < 8 ==> LinkFrameTlvs(e, d, src, links)[i] == HeadTlvs(e, d, src)[i];
  }

  /** A device frame has the TLVs of a link frame without links, from the interface's own address. */
  lemma {:induction false} DeviceFrameIsBare(e: I.IfInfo, d: Device)
    ensures DeviceFrameTlvs(e, d) == LinkFrameTlvs(e, d, e.macaddr, [])
  {
    assert HeadTlvs(e, d, e.macaddr) + [] == HeadTlvs(e, d, e.macaddr);
  }

  /** Nine TLVs: the eight of the head and the End TLV. */
  lemma {:induction false} DeviceFrameFields(e: I.IfInfo, d: Device)
    ensures |DeviceFrameTlvs(e, d)| == 9
    ensures MandatoryOrder(DeviceFrameTlvs(e, d))
    ensures HeadSays(DeviceFrameTlvs(e, d), e, d, e.macaddr)
  {
    hide HeadSays, MandatoryOrder;
    DeviceFrameIsBare(e, d);
    LinkFrameOrder(e, d, e.macaddr, []);
    FrameFields(e, d, e.macaddr, []);
  }

  // ---------------------------------------------------------------- the link section of a frame

  lemma {:induction false} HeadHasNoFragments(e: I.IfInfo, d: Device, src: Mac)
    ensures Fragments(HeadTlvs(e, d, src)) == []
  {
    FragmentsAppend(LldpTlvs(src, I.CStr(e.ifname)), DeviceTlvs(d));
    NoFragments(LldpTlvs(src, I.CStr(e.ifname)));
    DeviceTlvIsNoFragment(DEVICE_CATEGORY, d.category);
    DeviceTlvIsNoFragment(MODEL_NAME, d.modelName);
    DeviceTlvIsNoFragment(MANUFACTURER_CODE, d.manufacturerCode);
    DeviceTlvIsNoFragment(MODEL_NUMBER, d.modelNumber);
    NoFragments(DeviceTlvs(d));
  }

  lemma {:induction false} DeviceTlvIsNoFragment(id: Byte, info: seq<Byte>)
    ensures !ReadHtip(DeviceInfoTlv(id, info).body).LinkInfo?
  {
    var body := DeviceInfoTlv(id, info).body;
    assert body[3] == DEVICE_INFO_SUBTYPE;
  }

  lemma {:induction false} NoFragments(ts: seq<Tlv>)
    requires forall i :: 0 <= i < |ts| ==>
               ts[i].typ == ORGANIZATIONALLY_SPECIFIC_TLV ==> !ReadHtip(ts[i].body).LinkInfo?
    ensures Fragments(ts) == []
  {
    if ts != [] {
      NoFragments(ts[1..]);
    }
  }

  /**
    From a link frame a receiver recovers the fragments of the announced links, each with its link's type and
    port, and from these the links, all of them and nothing else.
   */
  lemma {:induction false} LinkFrameAnnounces(e: I.IfInfo, d: Device, src: Mac, links: seq<Link>, tail: Byte)
    requires DeviceWithin(d, 505)
    ensures var parsed := Parse(NineBit, EncodeAll(LinkFrameTlvs(e, d, src, links)), tail);
            && parsed.Some?
            && Fragments(parsed.value) == SectionFragments(links)
            && Reassemble(Fragments(parsed.value)) == Announcements(links)
  {
    hide HeadTlvs, SectionTlvs, EncodeAll, Parse, Announcements, Reassemble, SectionFragments;
    LinkFrameParses(NineBit, e, d, src, links, tail);
    HeadHasNoFragments(e, d, src);
    FragmentsAppend(HeadTlvs(e, d, src), SectionTlvs(links));
    FragmentsAppend(HeadTlvs(e, d, src) + SectionTlvs(links), [END_TLV]);
    NoFragments([END_TLV]);
    assert [] + Fragments(SectionTlvs(links)) + [] == Fragments(SectionTlvs(links));
    SectionRoundTrip(links);
  }

  // ---------------------------------------------------------------- what the links are

  /** `at` lists, in order, exactly the interfaces whose address some local entry gives a port. */
  ghost predicate BridgedPositions(at: seq<nat>, es: seq<I.IfInfo>, fs: seq<F.FdbEntry>) {
    && Increasing(at, |es|)
    && forall i :: 0 <= i < |es| ==> (i in at <==> F.HasPort(fs, es[i].macaddr))
  }

  /** The link each interface would have. */
  function EachLink(es: seq<I.IfInfo>, fs: seq<F.FdbEntry>): (r: seq<Link>)
    ensures |r| == |es|
    ensures forall i :: 0 <= i < |es| ==> r[i] == LinkOf(es[i], fs)
  {
    seq(|es|, i requires 0 <= i < |es| => LinkOf(es[i], fs))
  }

  lemma {:induction false} EachLinkSnoc(es: seq<I.IfInfo>, fs: seq<F.FdbEntry>)
    requires es != []
    ensures EachLink(es, fs)[..|es| - 1] == EachLink(es[..|es| - 1], fs)
    ensures EachLink(es, fs)[|es| - 1] == LinkOf(es[|es| - 1], fs)
  {
    hide LinkOf;
  }

  lemma {:induction false} BridgedExact(e: I.IfInfo, fs: seq<F.FdbEntry>)
    ensures Bridged(e, fs) <==> F.HasPort(fs, e.macaddr)
  {
    hide F.HasPort;
    F.HasPortExact(fs, e.macaddr);
  }

  lemma {:induction false} LinksOfPositions(es: seq<I.IfInfo>, fs: seq<F.FdbEntry>) returns (at: seq<nat>)
    ensures BridgedPositions(at, es, fs)
    ensures Picks(LinksOf(es, fs), EachLink(es, fs), at)
  {
    hide LinkOf, Bridged, EachLink, Increasing, Picks, F.HasPort;
    if es == [] {
      at := [];
      NothingPicked(EachLink(es, fs));
    } else {
      var n, before := |es| - 1, es[..|es| - 1];
      var was := LinksOfPositions(before, fs);
      BridgedExact(es[n], fs);
      at := Extend(was, n, Bridged(es[n], fs));
      assert forall i :: 0 <= i < n ==> before[i] == es[i];
      EachLinkSnoc(es, fs);
      PicksExtend(LinksOf(before, fs), EachLink(es, fs), was, Bridged(es[n], fs));
    }
  }

  /** One report tells the truth about one interface: its type, its port, and what was heard there, each once. */
  ghost predicate Truthful(report: Report, e: I.IfInfo, fs: seq<F.FdbEntry>) {
    && report.iftype == e.iftype % 256
    && (exists portNo: U16 ::
          F.PortIs(fs, e.macaddr, portNo) && report.portno == portNo % 256 && F.Heard(fs, portNo, report.macs))
    && forall k, l :: 0 <= k < l < |report.macs| ==> report.macs[k] != report.macs[l]
  }

  /**
    The payload, read back with the nine-bit length, is a well-ordered stream whose link fragments are those
    of the links, each with its link's type and port, and which reports the interfaces at `at` and no others.
   */
  ghost predicate Tells(payload: seq<Byte>, tail: Byte, es: seq<I.IfInfo>, fs: seq<F.FdbEntry>, at: seq<nat>) {
    var parsed := Parse(NineBit, payload, tail);
    && BridgedPositions(at, es, fs)
    && parsed.Some? && MandatoryOrder(parsed.value)
    && Fragments(parsed.value) == SectionFragments(LinksOf(es, fs))
    && var reports := Reassemble(Fragments(parsed.value));
       && |reports| == |at|
       && forall k :: 0 <= k < |at| ==> Truthful(reports[k], es[at[k]], fs)
  }

  /**
    The main result. Every frame sent by one call reports for each interface with a port, in list order,
    that port and exactly the remote addresses the forwarding table holds on it, each once, in table order;
    and it reports nothing else.
   */
  lemma {:induction false} EndToEnd(es: seq<I.IfInfo>, fs: seq<F.FdbEntry>, d: Device, srcaddr: Option<Mac>,
      f: Frame, tail: Byte)
    returns (at: seq<nat>)
    requires DeviceWithin(d, 505) && F.Distinct(fs)
    requires f in LinkFrames(es, fs, d, srcaddr, LinksOf(es, fs))
    ensures Tells(f.payload, tail, es, fs, at)
  {
    hide Parse, Reassemble, Fragments, SectionFragments, LinkFrameTlvs, EncodeAll, MandatoryOrder, LinksOf, LinkOf,
      F.HasPort, F.Distinct, Truthful;
    var links := LinksOf(es, fs);
    var e := FrameOrigin(es, fs, d, srcaddr, links, f);
    LinkFrameAnnounces(e, d, Source(e, srcaddr), links, tail);
    LinkFrameParses(NineBit, e, d, Source(e, srcaddr), links, tail);
    LinkFrameOrder(e, d, Source(e, srcaddr), links);
    at := LinksOfPositions(es, fs);
    forall k | 0 <= k < |at| ensures Truthful(Announcements(links)[k], es[at[k]], fs) {
      assert es[at[k]] in es;
      LinkTruthful(es[at[k]], fs);
    }
  }

  lemma {:induction false} LinkTruthful(e: I.IfInfo, fs: seq<F.FdbEntry>)
    requires F.HasPort(fs, e.macaddr) && F.Distinct(fs)
    ensures Truthful(LinkOf(e, fs).Announced(), e, fs)
  {
    hide F.PortOf, F.RemoteMacs, F.Distinct, F.HasPort, F.PortIs, F.Heard;
    var portNo := F.PortOf(fs, e.macaddr);
    F.HasPortExact(fs, e.macaddr);
    F.RemoteMacsHeard(fs, portNo, F.RemoteMacs(fs, portNo));
    F.RemoteNoDuplicates(fs, portNo);
  }

  lemma {:induction false} FrameOrigin(
    es: seq<I.IfInfo>, fs: seq<F.FdbEntry>, d: Device, srcaddr: Option<Mac>, links: seq<Link>, f: Frame)
    returns (e: I.IfInfo)
    requires f in LinkFrames(es, fs, d, srcaddr, links)
    ensures e in es && Eligible(e, fs) && f == LinkFrame(e, d, srcaddr, links)
  {
    hide LinkFrame, Eligible;
    e := es[|es| - 1];
    if !(Eligible(e, fs) && f == LinkFrame(e, d, srcaddr, links)) {
      e := FrameOrigin(es[..|es| - 1], fs, d, srcaddr, links, f);
    }
  }

  /** Equal payloads announce equal links: no table content that a frame reports can be confused with another. */
  lemma {:induction false} PayloadDetermines(e: I.IfInfo, d: Device, src: Mac, links: seq<Link>,
                          e': I.IfInfo, d': Device, src': Mac, links': seq<Link>)
    requires DeviceWithin(d, 505) && DeviceWithin(d', 505)
    requires EncodeAll(LinkFrameTlvs(e, d, src, links)) == EncodeAll(LinkFrameTlvs(e', d', src', links'))
    ensures Announcements(links) == Announcements(links')
  {
    hide LinkFrameTlvs, EncodeAll, Announcements;
    LinkFrameAnnounces(e, d, src, links, 0);
    LinkFrameAnnounces(e', d', src', links', 0);
  }

  // ---------------------------------------------------------------- which frames there are

  /** The frame each interface would get. */
  function EachFrame(es: seq<I.IfInfo>, d: Device, srcaddr: Option<Mac>, links: seq<Link>): (r: seq<Frame>)
    ensures |r| == |es|
    ensures forall i :: 0 <= i < |es| ==> r[i] == LinkFrame(es[i], d, srcaddr, links)
  {
    seq(|es|, i requires 0 <= i < |es| => LinkFrame(es[i], d, srcaddr, links))
  }

  lemma {:induction false} EachFrameSnoc(es: seq<I.IfInfo>, d: Device, srcaddr: Option<Mac>, links: seq<Link>)
    requires es != []
    ensures EachFrame(es, d, srcaddr, links)[..|es| - 1] == EachFrame(es[..|es| - 1], d, srcaddr, links)
    ensures EachFrame(es, d, srcaddr, links)[|es| - 1] == LinkFrame(es[|es| - 1], d, srcaddr, links)
  {
    hide LinkFrame;
  }

  /** An interface gets a frame exactly when it is open and something was heard on its port. */
  lemma {:induction false} EligibleExact(e: I.IfInfo, fs: seq<F.FdbEntry>)
    ensures Eligible(e, fs) <==> e.fd >= 0 && F.HearsAny(fs, e.macaddr)
  {
    hide F.RemoteOf, F.HearsAny;
    F.RemoteOfExact(fs, e.macaddr);
  }

  /** One frame per open interface on whose port something was heard, in list order. */
  lemma {:induction false} FramesPositions(
    es: seq<I.IfInfo>, fs: seq<F.FdbEntry>, d: Device, srcaddr: Option<Mac>, links: seq<Link>)
    returns (at: seq<nat>)
    ensures Increasing(at, |es|)
    ensures Picks(LinkFrames(es, fs, d, srcaddr, links), EachFrame(es, d, srcaddr, links), at)
    ensures forall i :: 0 <= i < |es| ==> (i in at <==> es[i].fd >= 0 && F.HearsAny(fs, es[i].macaddr))
  {
    hide LinkFrame, Eligible, LinkFrames, EachFrame, Increasing, Picks, F.HearsAny;
    if es == [] {
      NoLinkFrames(es, fs, d, srcaddr, links);
      assert es[..0] == es;
      at := [];
      NothingPicked(EachFrame(es, d, srcaddr, links));
    } else {
      var n, before := |es| - 1, es[..|es| - 1];
      var was := FramesPositions(before, fs, d, srcaddr, links);
      EligibleExact(es[n], fs);
      at := Extend(was, n, Eligible(es[n], fs));
      assert forall i :: 0 <= i < n ==> before[i] == es[i];
      EachFrameSnoc(es, d, srcaddr, links);
      PicksExtend(LinkFrames(before, fs, d, srcaddr, links), EachFrame(es, d, srcaddr, links), was,
                  Eligible(es[n], fs));
      LinkFramesStep(es, fs, d, srcaddr, links, n);
      assert es[..n + 1] == es;
    }
  }

  /** The head of a frame, byte by byte: address twice, sixty seconds, name, and the device's strings. */
  function HeadOnWire(e: I.IfInfo, d: Device, src: Mac): seq<Byte> {
    var name := I.CStr(e.ifname);
    [2, 7, 4] + src + ([4, 7, 3] + src) + [6, 2, 0, 60] + ([8, |name|] + name)
    + (DeviceInfoOnWire(1, d.category) + DeviceInfoOnWire(3, d.modelName)
       + DeviceInfoOnWire(2, d.manufacturerCode) + DeviceInfoOnWire(4, d.modelNumber))
  }

  /**
    A frame goes out on its interface's descriptor, to the broadcast address; all frames of one call
    carry the same link section between their heads and the End TLV.
   */
  lemma {:induction false} FrameLayout(e: I.IfInfo, es: seq<I.IfInfo>, fs: seq<F.FdbEntry>, d: Device,
      srcaddr: Option<Mac>)
    ensures var f := LinkFrame(e, d, srcaddr, LinksOf(es, fs));
            var src := if srcaddr.Some? then srcaddr.value else e.macaddr;
            && f.fd == e.fd && f.ifname == e.ifname && f.dst == [0xFF, 0xFF, 0xFF, 0xFF, 0xFF, 0xFF] && f.src == src
            && f.payload == HeadOnWire(e, d, src) + Section(es, fs) + [0, 0]
  {
    hide LldpTlvs, DeviceTlvs, SectionTlvs, EncodeAll, Section, LinksOf, LinkFrameTlvs, DeviceInfoOnWire, I.CStr;
    var src, links := Source(e, srcaddr), LinksOf(es, fs);
    LinkFrameBytes(e, d, src, links);
    LldpBytes(src, I.CStr(e.ifname));
    DeviceBytes(d);
    SectionIsLinks(es, fs);
  }

  /** A device frame goes to the broadcast address from the interface's own, and is its head and the End TLV. */
  lemma {:induction false} DeviceFrameLayout(e: I.IfInfo, d: Device)
    ensures var f := DeviceFrame(e, d);
            && f.fd == e.fd && f.ifname == e.ifname && f.dst == [0xFF, 0xFF, 0xFF, 0xFF, 0xFF, 0xFF]
            && f.src == e.macaddr && f.payload == HeadOnWire(e, d, e.macaddr) + [0, 0]
  {
    hide LldpTlvs, DeviceTlvs, EncodeAll, DeviceFrameTlvs, DeviceInfoOnWire, I.CStr;
    DeviceFrameBytes(e, d);
    LldpBytes(e.macaddr, I.CStr(e.ifname));
    DeviceBytes(d);
  }

  function EachDeviceFrame(es: seq<I.IfInfo>, d: Device): (r: seq<Frame>)
    ensures |r| == |es|
    ensures forall i :: 0 <= i < |es| ==> r[i] == DeviceFrame(es[i], d)
  {
    seq(|es|, i requires 0 <= i < |es| => DeviceFrame(es[i], d))
  }

  lemma {:induction false} EachDeviceFrameSnoc(es: seq<I.IfInfo>, d: Device)
    requires es != []
    ensures EachDeviceFrame(es, d)[..|es| - 1] == EachDeviceFrame(es[..|es| - 1], d)
    ensures EachDeviceFrame(es, d)[|es| - 1] == DeviceFrame(es[|es| - 1], d)
  {
    hide DeviceFrame;
  }

  /** One device frame per open interface, in list order. */
  lemma {:induction false} DeviceFramesPositions(es: seq<I.IfInfo>, d: Device) returns (at: seq<nat>)
    ensures Increasing(at, |es|) && Picks(DeviceFrames(es, d), EachDeviceFrame(es, d), at)
    ensures forall i :: 0 <= i < |es| ==> (i in at <==> es[i].fd >= 0)
  {
    hide DeviceFrame, DeviceFrames, EachDeviceFrame, Increasing, Picks;
    if es == [] {
      NoDeviceFrames(es, d);
      assert es[..0] == es;
      at := [];
      NothingPicked(EachDeviceFrame(es, d));
    } else {
      var n, before := |es| - 1, es[..|es| - 1];
      var was := DeviceFramesPositions(before, d);
      at := Extend(was, n, es[n].fd >= 0);
      assert forall i :: 0 <= i < n ==> before[i] == es[i];
      EachDeviceFrameSnoc(es, d);
      PicksExtend(DeviceFrames(before, d), EachDeviceFrame(es, d), was, es[n].fd >= 0);
      DeviceFramesStep(es, d, n);
      assert es[..n + 1] == es;
    }
  }

  // ---------------------------------------------------------------- size bounds

  /** Ports of the interfaces that have one, in list order. */
  function BridgedPorts(es: seq<I.IfInfo>, fs: seq<F.FdbEntry>): seq<U16> {
    if es == [] then []
    else
      var before, e := BridgedPorts(es[..|es| - 1], fs), es[|es| - 1];
      if Bridged(e, fs) then before + [F.PortOf(fs, e.macaddr)] else before
  }

  lemma {:induction false} GatherAppend(fs: seq<F.FdbEntry>, ports: seq<U16>, p: U16)
    ensures F.Gather(fs, ports + [p]) == F.Gather(fs, ports) + F.RemoteEntries(fs, p)
  {
    if ports == [] {
      assert ports + [p] == [p];
      assert F.Gather(fs, [p]) == F.RemoteEntries(fs, p) + F.Gather(fs, []);
    } else {
      assert (ports + [p])[1..] == ports[1..] + [p];
      GatherAppend(fs, ports[1..], p);
    }
  }

  /** Quotients by 83 add up to at most the quotient of the sum. */
  lemma {:induction false} QuotientsAdd(a: nat, b: nat)
    ensures a / 83 + b / 83 <= (a + b) / 83
  {
  }

  lemma {:induction false} PartLength(e: I.IfInfo, fs: seq<F.FdbEntry>)
    requires Bridged(e, fs)
    ensures var n := |F.RemoteEntries(fs, F.PortOf(fs, e.macaddr))|;
            |SectionPart(e, fs)| == 11 * (n / 83 + 1) + 6 * n
  {
    hide LinkInfoBytes, F.PortOf, F.RemoteEntries;
    LinkInfoBytesLength(e.iftype, F.PortOf(fs, e.macaddr), F.RemoteOf(fs, e.macaddr));
  }

  /** A section is as long as its addresses, plus eleven bytes per link and per 83 addresses. */
  lemma {:induction false} SectionLength(es: seq<I.IfInfo>, fs: seq<F.FdbEntry>)
    ensures var total := |F.Gather(fs, BridgedPorts(es, fs))|;
            |Section(es, fs)| <= 11 * (|BridgedPorts(es, fs)| + total / 83) + 6 * total
  {
    hide SectionPart, Bridged, F.PortOf, F.RemoteEntries, F.Gather;
    if es == [] {
      F.GatherNone([], []);
    } else {
      var before, e := es[..|es| - 1], es[|es| - 1];
      SectionLength(before, fs);
      if Bridged(e, fs) {
        var port := F.PortOf(fs, e.macaddr);
        PartLength(e, fs);
        GatherAppend(fs, BridgedPorts(before, fs), port);
        QuotientsAdd(|F.Gather(fs, BridgedPorts(before, fs))|, |F.RemoteEntries(fs, port)|);
      } else {
        PartEmpty(e, fs);
      }
    }
  }

  lemma {:induction false} PartEmpty(e: I.IfInfo, fs: seq<F.FdbEntry>)
    requires !Bridged(e, fs)
    ensures SectionPart(e, fs) == []
  {
  }

  lemma {:induction false} BridgedCount(es: seq<I.IfInfo>, fs: seq<F.FdbEntry>)
    ensures |BridgedPorts(es, fs)| + Unbridged(es, fs) == |es| == |LinksOf(es, fs)| + Unbridged(es, fs)
  {
    if es != [] {
      BridgedCount(es[..|es| - 1], fs);
    }
  }

  /**
    When interfaces have different ports, no entry is reported twice, so what is sized, and all the
    more what is written, is bounded by the number of interfaces and of remote entries.
   */
  lemma {:induction false} SizeBound(es: seq<I.IfInfo>, fs: seq<F.FdbEntry>)
    requires |fs| <= F.MAX_FDB_ENTRY_SIZE
    requires F.DistinctPorts(BridgedPorts(es, fs))
    ensures |F.Gather(fs, BridgedPorts(es, fs))| <= |F.NonLocal(fs)| <= F.MAX_FDB_ENTRY_SIZE
    ensures |Section(es, fs)| <= SizedLen(es, fs) <= 11 * (|es| + 3) + 6 * |F.NonLocal(fs)|
  {
    F.GatherSize(fs, BridgedPorts(es, fs));
    SectionLength(es, fs);
    BridgedCount(es, fs);
    SizingExact(es, fs);
  }

  /** A bound a caller can check before sending: then every frame fits its 1500-byte payload. */
  lemma {:induction false} SendableWhen(es: seq<I.IfInfo>, fs: seq<F.FdbEntry>, d: Device)
    requires |d.manufacturerCode| == MANUFACTURER_CODE_LEN
    requires |fs| <= F.MAX_FDB_ENTRY_SIZE && F.DistinctPorts(BridgedPorts(es, fs))
    requires forall i :: 0 <= i < |es| ==> I.Terminated(es[i].ifname)
    requires |d.category| + |d.modelName| + |d.modelNumber| + 11 * |es| + 6 * |F.NonLocal(fs)| <= 1388
    ensures Sendable(es, fs, d)
  {
    hide EncodeAll, LinksOf, Section, Eligible, SectionTlvs, DeviceTlvs, I.CStr, F.DistinctPorts, SizedLen,
        BridgedPorts;
    SizeBound(es, fs);
    SectionIsLinks(es, fs);
    DeviceLength(d);
  }
}
