/**
  The payload buffer has 1500 bytes and no write into it is checked. How long each frame gets, hence
  exactly when all of them fit, and readings under which one does not.
 */
module PayloadLimit {
  import opened Common
  import opened Tlv
  import opened LinkInfo
  import opened TlvWriter
  import opened Htip
  import opened HtipProofs
  import opened Switch
  import F = Fdb
  import I = IfInfo

  // ---------------------------------------------------------------- how long frames get

  /** The length of everything but the link section, in terms of the caller's strings. */
  function FixedLength(e: I.IfInfo, d: Device): nat {
    64 + |I.CStr(e.ifname)| + |d.category| + |d.modelName| + |d.modelNumber|
  }

  /** What the first pass sized, less the eleven bytes the second pass does not use per interface without a port. */
  function TrimmedLength(es: seq<I.IfInfo>, fs: seq<F.FdbEntry>): int {
    SizedLen(es, fs) - 11 * Unbridged(es, fs)
  }

  lemma {:induction false} LinkFrameLength(e: I.IfInfo, es: seq<I.IfInfo>, fs: seq<F.FdbEntry>, d: Device,
      srcaddr: Option<Mac>)
    requires |d.manufacturerCode| == MANUFACTURER_CODE_LEN
    ensures |LinkFrame(e, d, srcaddr, LinksOf(es, fs)).payload| == FixedLength(e, d) + TrimmedLength(es, fs)
    ensures LinkFrameFits(e, d, LinksOf(es, fs)) <==> FixedLength(e, d) + TrimmedLength(es, fs) <= ETH_DATA_LEN
  {
    hide EncodeAll, LinkFrameTlvs, LldpTlvs, DeviceTlvs, SectionTlvs, LinksOf, Section, SizedLen, Unbridged, I.CStr;
    LinkFrameBytes(e, d, Source(e, srcaddr), LinksOf(es, fs));
    LldpLength(Source(e, srcaddr), I.CStr(e.ifname));
    DeviceLength(d);
    SectionIsLinks(es, fs);
    SizingExact(es, fs);
  }

  lemma {:induction false} DeviceFrameIsFixed(e: I.IfInfo, d: Device)
    requires |d.manufacturerCode| == MANUFACTURER_CODE_LEN
    ensures |DeviceFrame(e, d).payload| == FixedLength(e, d)
    ensures DeviceFrameFits(e, d) <==> FixedLength(e, d) <= ETH_DATA_LEN
  {
    hide EncodeAll, DeviceFrameTlvs, LldpTlvs, DeviceTlvs, I.CStr;
    DeviceFrameBytes(e, d);
    LldpLength(e.macaddr, I.CStr(e.ifname));
    DeviceLength(d);
  }

  // ---------------------------------------------------------------- exactly when all frames fit

  /** A terminated name and a total of at most 1500, for every interface that gets a frame. */
  predicate LinkFramesFit(es: seq<I.IfInfo>, fs: seq<F.FdbEntry>, d: Device) {
    forall i :: 0 <= i < |es| && Eligible(es[i], fs) ==>
      I.Terminated(es[i].ifname) && FixedLength(es[i], d) + TrimmedLength(es, fs) <= ETH_DATA_LEN
  }

  lemma {:induction false} SendableExactly(es: seq<I.IfInfo>, fs: seq<F.FdbEntry>, d: Device)
    ensures Sendable(es, fs, d) <==> |d.manufacturerCode| == MANUFACTURER_CODE_LEN && LinkFramesFit(es, fs, d)
  {
    hide LinkFrameFits, FixedLength, TrimmedLength, Eligible, I.Terminated, LinksOf;
    if |d.manufacturerCode| == MANUFACTURER_CODE_LEN {
      forall i | 0 <= i < |es|
        ensures LinkFrameFits(es[i], d, LinksOf(es, fs))
                <==> FixedLength(es[i], d) + TrimmedLength(es, fs) <= ETH_DATA_LEN
      {
        LinkFrameLength(es[i], es, fs, d, None);
      }
    }
  }

  lemma {:induction false} DeviceSendableExactly(es: seq<I.IfInfo>, d: Device)
    ensures DeviceSendable(es, d)
            <==> && |d.manufacturerCode| == MANUFACTURER_CODE_LEN
                 && forall i :: 0 <= i < |es| && es[i].fd >= 0 ==>
                      I.Terminated(es[i].ifname) && FixedLength(es[i], d) <= ETH_DATA_LEN
  {
    hide DeviceFrameFits, FixedLength, I.Terminated;
    if |d.manufacturerCode| == MANUFACTURER_CODE_LEN {
      forall i | 0 <= i < |es| ensures DeviceFrameFits(es[i], d) <==> FixedLength(es[i], d) <= ETH_DATA_LEN {
        DeviceFrameIsFixed(es[i], d);
      }
    }
  }

  /** Within the documented limits of 255, 31 and 31 bytes device frames always fit. */
  lemma {:induction false} DocumentedDeviceFits(es: seq<I.IfInfo>, d: Device)
    requires |d.manufacturerCode| == MANUFACTURER_CODE_LEN
    requires |d.category| <= 255 && |d.modelName| <= 31 && |d.modelNumber| <= 31
    requires forall i :: 0 <= i < |es| && es[i].fd >= 0 ==> I.Terminated(es[i].ifname)
    ensures DeviceSendable(es, d)
  {
    DeviceSendableExactly(es, d);
  }

  lemma {:induction false} RoundSendableExactly(r: Reading, d: Device)
    ensures RoundSendable(r, d)
            <==> (ReadyToSend(r) ==>
                    && |d.manufacturerCode| == MANUFACTURER_CODE_LEN
                    && LinkFramesFit(Interfaces(r).value, Forwarded(r).value, d))
  {
    hide Sendable, LinkFramesFit, Interfaces, Forwarded;
    if ReadyToSend(r) {
      SendableExactly(Interfaces(r).value, Forwarded(r).value, d);
    }
  }

  /** The daemon's own strings leave 1412 bytes for the name and the section. */
  lemma {:induction false} DaemonRoundExactly(r: Reading, category: Memory, manufacturerCode: Memory,
      modelName: Memory, modelNumber: Memory)
    requires Backed(category, manufacturerCode, modelName, modelNumber)
    ensures RoundSendable(r, DaemonDevice(category, manufacturerCode, modelName, modelNumber))
            <==> (ReadyToSend(r) ==>
                    var es, fs := Interfaces(r).value, Forwarded(r).value;
                    forall i :: 0 <= i < |es| && Eligible(es[i], fs) ==>
                      I.Terminated(es[i].ifname) && |I.CStr(es[i].ifname)| + TrimmedLength(es, fs) <= 1412)
  {
    hide RoundSendable, Interfaces, Forwarded, TrimmedLength, Eligible, I.Terminated, I.CStr, DaemonDevice;
    DaemonDeviceSize(category, manufacturerCode, modelName, modelNumber);
    RoundSendableExactly(r, DaemonDevice(category, manufacturerCode, modelName, modelNumber));
  }

  // ---------------------------------------------------------------- a table that does not fit

  /** One local entry and 255 remote ones, all on port 1: as much as the table holds. */
  function FullPort(): (r: seq<F.KernelEntry>)
    ensures |r| == F.MAX_FDB_ENTRY_SIZE
    ensures r[0] == F.KernelEntry(ZERO_MAC, 1, F.PORT_IS_LOCAL, 0)
    ensures forall i :: 0 < i < |r| ==> r[i] == F.KernelEntry([0, 0, 0, 0, 0, i], 1, F.PORT_NOT_LOCAL, 0)
  {
    [F.KernelEntry(ZERO_MAC, 1, F.PORT_IS_LOCAL, 0)]
    + seq(255, i requires 0 <= i < 255 => F.KernelEntry([0, 0, 0, 0, 0, i + 1], 1, F.PORT_NOT_LOCAL, 0))
  }

  lemma {:induction false} FullPortDistinct()
    ensures F.Distinct(F.Copied(FullPort()))
  {
    var fs := F.Copied(FullPort());
    assert forall i :: 0 <= i < |fs| ==> fs[i].macaddr[5] == i;
    F.DistinctPairwise(fs);
  }

  lemma {:induction false} AllButFirst(fs: seq<F.FdbEntry>, portNo: U16)
    requires fs != [] && !F.RemoteOn(fs[0], portNo)
    requires forall i :: 0 < i < |fs| ==> F.RemoteOn(fs[i], portNo)
    ensures |F.RemoteEntries(fs, portNo)| == |fs| - 1
  {
    if |fs| > 1 {
      AllButFirst(fs[..|fs| - 1], portNo);
    } else {
      assert fs[..0] == [];
      assert F.RemoteEntries(fs[..0], portNo) == [];
    }
  }

  /** 255 addresses need 1574 bytes of section, whatever else there is to say. */
  lemma {:induction false} FullPortTooLong(e: I.IfInfo, d: Device)
    requires e.macaddr == ZERO_MAC && e.fd >= 0
    ensures var fs := F.Copied(FullPort());
            && Eligible(e, fs)
            && TrimmedLength([e], fs) == 1574
            && !Sendable([e], fs, d)
  {
    var fs := F.Copied(FullPort());
    AllButFirst(fs, 1);
    F.PortOfFirstLocal(fs, ZERO_MAC, 0);
    SectionOfOne(e, fs, 255);
    SendableExactly([e], fs, d);
    assert [e][0] == e;
  }

  lemma {:induction false} SectionOfOne(e: I.IfInfo, fs: seq<F.FdbEntry>, n: nat)
    requires Bridged(e, fs) && |F.RemoteOf(fs, e.macaddr)| == n
    ensures TrimmedLength([e], fs) == PredictedLen(6, n)
  {
    assert [e][..0] == [];
    assert SizedLen([], fs) == 0 && Unbridged([], fs) == 0;
  }

  /** One interface that is up, and the full port behind the bridge. */
  function FullReading(): Reading {
    Reading(Some([I.IfAddr([97], true, Some(ZERO_MAC), I.Zeros(46), I.Zeros(46))]), _ => Some(6), _ => 3,
            Some(FullPort()), None, _ => true)
  }

  /** So a round can get to sending and then have no room: the condition on the readings is a real one. */
  lemma {:induction false} RoundMayNotFit(d: Device)
    ensures ReadyToSend(FullReading()) && !RoundSendable(FullReading(), d)
  {
    hide *;
    FullPortForwarded();
    var e := OneInterface();
    FullPortTooLong(e, d);
    ReadyWith(FullReading(), d, [e], F.Copied(FullPort()));
  }

  lemma {:induction false} ReadyWith(r: Reading, d: Device, es: seq<I.IfInfo>, fs: seq<F.FdbEntry>)
    requires Interfaces(r) == Some(es) && Forwarded(r) == Some(fs)
    ensures ReadyToSend(r) && (RoundSendable(r, d) <==> Sendable(es, fs, d))
  {
  }

  lemma {:induction false} FullPortForwarded()
    ensures Forwarded(FullReading()) == Some(F.Copied(FullPort()))
  {
    hide F.FirstOccurrences, F.Distinct, FullPort;
    var file := FullPort();
    var fs := F.Copied(file);
    FullPortDistinct();
    assert F.Readable(file) == file;
    F.AllFirst(fs, |fs|);
    assert fs[..|fs|] == fs;
  }

  lemma {:induction false} OneInterface() returns (e: I.IfInfo)
    ensures Interfaces(FullReading()) == Some([e]) && e.macaddr == ZERO_MAC && e.fd == 3
  {
    hide I.RecordOf, I.Stores, I.Scanned, I.Accepted, FullPort;
    var r := FullReading();
    var a := r.addrs.value[0];
    OneScanned(a);
    assert r.addrs.value == [a];
    assert Records(r) == Some([I.RecordOf(a)]);
    e := OneOpened(I.RecordOf(a), r);
    StoredAddress(a);
  }

  lemma {:induction false} OneOpened(rec: I.IfInfo, r: Reading) returns (e: I.IfInfo)
    requires r.iftypeOf(rec.ifname).Some?
    ensures I.FirstUntyped([rec], r.iftypeOf) == 1
    ensures I.Opened(I.TypedUpTo([rec], r.iftypeOf, 1), r.fdOf) == [e]
    ensures e.macaddr == rec.macaddr && e.fd == r.fdOf(rec.ifname)
  {
    var recs := I.Opened(I.TypedUpTo([rec], r.iftypeOf, 1), r.fdOf);
    e := recs[0];
    assert recs == [e];
  }

  lemma {:induction false} StoredAddress(a: I.IfAddr)
    requires a.hwaddr.Some?
    ensures I.RecordOf(a).macaddr == a.hwaddr.value
  {
    I.RecordStores(a);
  }

  lemma {:induction false} OneScanned(a: I.IfAddr)
    requires a.usable && a.hwaddr.Some?
    ensures I.Scanned([a]) == [I.RecordOf(a)] && I.Accepted([I.RecordOf(a)]) == 1
  {
    var rec := I.RecordOf(a);
    assert [a][..0] == [] && [rec][..0] == [];
    assert I.Scanned([a]) == [rec];
  }
}
