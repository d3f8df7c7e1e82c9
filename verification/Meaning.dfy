/**
  The daemon's results once more, from the system's answers straight to frames and reports: which address
  records become interfaces, which kernel entries count, which frames go out and what each of them says.
 */
module Meaning {
  import opened Common
  import opened Positions
  import opened TlvHeader
  import opened Tlv
  import opened LinkInfo
  import opened TlvWriter
  import opened Htip
  import opened HtipProofs
  import opened Switch
  import F = Fdb
  import I = IfInfo

  // ---------------------------------------------------------------- the kernel's entries

  /** An entry counts when it is among the first 256 and no earlier one has its address and port. */
  predicate Kept(file: seq<F.KernelEntry>, i: nat) {
    && i < |file| && i < 256
    && forall j :: 0 <= j < i ==> file[j].macAddr != file[i].macAddr || file[j].portNo != file[i].portNo
  }

  predicate KeptPositions(file: seq<F.KernelEntry>, at: seq<nat>) {
    Increasing(at, |file|) && forall i :: 0 <= i < |file| ==> (i in at <==> Kept(file, i))
  }

  /** Address, port and mark are the kernel's; the age in microseconds is the timer's, in 64 bits. */
  predicate SameEntry(e: F.FdbEntry, k: F.KernelEntry) {
    && e.macaddr == k.macAddr && e.portNo == k.portNo && e.isLocal == k.isLocal
    && e.age.usec < 1000000
    && e.age.sec * 1000000 + e.age.usec == (10000 * k.ageingTimer) % 0x1_0000_0000_0000_0000
  }

  /** The table holds exactly the entries that count, in the kernel's order. */
  predicate Holds(fs: seq<F.FdbEntry>, file: seq<F.KernelEntry>, at: seq<nat>) {
    && KeptPositions(file, at) && |fs| == |at|
    && forall k :: 0 <= k < |at| ==> SameEntry(fs[k], file[at[k]])
  }

  lemma {:induction false} CopiedKept(file: seq<F.KernelEntry>, i: nat)
    requires i < |file| && i < 256
    ensures F.IsFirst(F.Copied(F.Readable(file)), i) <==> Kept(file, i)
  {
    var read := F.Readable(file);
    assert forall j :: 0 <= j <= i ==> read[j] == file[j];
  }

  lemma {:induction false} CopiedSame(file: seq<F.KernelEntry>, i: nat)
    requires i < |file| && i < 256
    ensures SameEntry(F.Copied(F.Readable(file))[i], file[i])
  {
    F.JiffiesExact(file[i].ageingTimer);
    assert F.Readable(file)[i] == file[i];
  }

  lemma {:induction false} ForwardedHolds(r: Reading) returns (at: seq<nat>)
    requires r.bridge.Some?
    ensures Forwarded(r).Some? && Holds(Forwarded(r).value, r.bridge.value, at)
  {
    hide F.FirstOccurrences, F.IsFirst, SameEntry, Kept;
    var file := r.bridge.value;
    var es := F.Copied(F.Readable(file));
    at := F.FirstOccurrencesPositions(es, |es|);
    assert es[..|es|] == es;
    forall i | 0 <= i < |file| ensures i in at <==> Kept(file, i) {
      if i < |es| {
        CopiedKept(file, i);
      } else {
        TooLate(file, i);
      }
    }
    forall k | 0 <= k < |at| ensures SameEntry(Forwarded(r).value[k], file[at[k]]) {
      CopiedSame(file, at[k]);
    }
  }

  lemma {:induction false} TooLate(file: seq<F.KernelEntry>, i: nat)
    requires i >= 256
    ensures !Kept(file, i)
  {
  }

  // ---------------------------------------------------------------- ports and what was heard on them

  /** The first entry that counts and is a local one of the address. */
  predicate FirstLocalKept(file: seq<F.KernelEntry>, macaddr: Mac, i: nat) {
    && i < |file| && Kept(file, i) && file[i].macAddr == macaddr && file[i].isLocal == 1
    && forall j :: 0 <= j < i && Kept(file, j) ==> file[j].macAddr != macaddr || file[j].isLocal != 1
  }

  ghost predicate OnPort(file: seq<F.KernelEntry>, macaddr: Mac, portNo: U16) {
    portNo != 0xFFFF && exists i: nat :: FirstLocalKept(file, macaddr, i) && file[i].portNo == portNo
  }

  /** `at` lists, in order, the remote entries of the port that count. */
  predicate RemoteKept(file: seq<F.KernelEntry>, portNo: U16, at: seq<nat>) {
    && Increasing(at, |file|)
    && forall i :: 0 <= i < |file| ==> (i in at <==> Kept(file, i) && file[i].portNo == portNo && file[i].isLocal == 0)
  }

  /** `macs` are the addresses the kernel heard on the port, each where it was listed first, in order. */
  ghost predicate HeardOn(file: seq<F.KernelEntry>, portNo: U16, macs: seq<Mac>) {
    exists at :: RemoteKept(file, portNo, at) && |macs| == |at|
                 && forall k :: 0 <= k < |at| ==> macs[k] == file[at[k]].macAddr
  }

  /** Position `i` of the file in the table. */
  lemma {:induction false} KeptAt(fs: seq<F.FdbEntry>, file: seq<F.KernelEntry>, at: seq<nat>, i: nat) returns (k: nat)
    requires Holds(fs, file, at) && Kept(file, i)
    ensures k < |at| && at[k] == i && SameEntry(fs[k], file[i])
  {
    hide SameEntry, Kept;
    KeptInFile(file, i);
    assert i in at;
    k :| 0 <= k < |at| && at[k] == i;
  }

  lemma {:induction false} KeptInFile(file: seq<F.KernelEntry>, i: nat)
    requires Kept(file, i)
    ensures i < |file|
  {
  }

  lemma {:induction false} FirstLocalHolds(fs: seq<F.FdbEntry>, file: seq<F.KernelEntry>, at: seq<nat>, macaddr: Mac,
      k: nat)
    requires Holds(fs, file, at) && k < |at|
    ensures F.FirstLocalAt(fs, macaddr, k) <==> FirstLocalKept(file, macaddr, at[k])
  {
    hide Kept;
    assert at[k] in at;
    assert SameEntry(fs[k], file[at[k]]);
    if F.FirstLocalAt(fs, macaddr, k) {
      forall j: nat | j < at[k] && Kept(file, j) ensures file[j].macAddr != macaddr || file[j].isLocal != 1 {
        var l := KeptAt(fs, file, at, j);
        OrderBack(at, |file|, l, k);
      }
    }
    if FirstLocalKept(file, macaddr, at[k]) {
      forall l | 0 <= l < k ensures fs[l].macaddr != macaddr || fs[l].isLocal != 1 {
        assert at[l] in at && at[l] < at[k];
        assert SameEntry(fs[l], file[at[l]]);
      }
    }
  }

  lemma {:induction false} PortHolds(fs: seq<F.FdbEntry>, file: seq<F.KernelEntry>, at: seq<nat>, macaddr: Mac,
      portNo: U16)
    requires Holds(fs, file, at)
    ensures F.PortIs(fs, macaddr, portNo) <==> OnPort(file, macaddr, portNo)
  {
    hide Kept, F.NoLocalBelow;
    if F.PortIs(fs, macaddr, portNo) {
      var k: nat :| F.FirstLocalAt(fs, macaddr, k) && fs[k].portNo == portNo;
      FirstLocalHolds(fs, file, at, macaddr, k);
      assert SameEntry(fs[k], file[at[k]]);
    }
    if OnPort(file, macaddr, portNo) {
      var i: nat :| FirstLocalKept(file, macaddr, i) && file[i].portNo == portNo;
      var k := KeptAt(fs, file, at, i);
      FirstLocalHolds(fs, file, at, macaddr, k);
    }
  }

  /** Positions in the file of positions in the table. */
  function Through(at: seq<nat>, inner: seq<nat>): (r: seq<nat>)
    requires Increasing(inner, |at|)
    ensures |r| == |inner|
    ensures forall k :: 0 <= k < |inner| ==> r[k] == at[inner[k]]
  {
    seq(|inner|, k requires 0 <= k < |inner| => at[inner[k]])
  }

  lemma {:induction false} RemoteHolds(fs: seq<F.FdbEntry>, file: seq<F.KernelEntry>, at: seq<nat>, portNo: U16,
      inner: seq<nat>)
    requires Holds(fs, file, at) && F.RemotePositions(fs, portNo, inner)
    ensures RemoteKept(file, portNo, Through(at, inner))
  {
    hide Kept;
    var through := Through(at, inner);
    forall i: nat | i < |file|
      ensures i in through <==> Kept(file, i) && file[i].portNo == portNo && file[i].isLocal == 0
    {
      if i in through {
        var k :| 0 <= k < |inner| && through[k] == i;
        assert inner[k] in inner && at[inner[k]] in at;
        assert SameEntry(fs[inner[k]], file[i]);
      }
      if Kept(file, i) && file[i].portNo == portNo && file[i].isLocal == 0 {
        var l := KeptAt(fs, file, at, i);
        assert l in inner;
        var k :| 0 <= k < |inner| && inner[k] == l;
        assert through[k] == i;
      }
    }
  }

  lemma {:induction false} HeardHolds(fs: seq<F.FdbEntry>, file: seq<F.KernelEntry>, at: seq<nat>, portNo: U16,
      macs: seq<Mac>)
    requires Holds(fs, file, at) && F.Heard(fs, portNo, macs)
    ensures HeardOn(file, portNo, macs)
  {
    hide Kept, RemoteKept;
    var inner :| F.RemotePositions(fs, portNo, inner) && F.MacsAt(fs, inner, macs);
    RemoteHolds(fs, file, at, portNo, inner);
    var through := Through(at, inner);
    forall k | 0 <= k < |through| ensures macs[k] == file[through[k]].macAddr {
      assert SameEntry(fs[inner[k]], file[at[inner[k]]]);
    }
  }

  predicate RemoteEntry(file: seq<F.KernelEntry>, portNo: U16, i: nat) {
    Kept(file, i) && file[i].portNo == portNo && file[i].isLocal == 0
  }

  /** The kernel heard something on the port of the address. */
  ghost predicate HearsAnyOn(file: seq<F.KernelEntry>, macaddr: Mac) {
    exists portNo: U16, i: nat :: OnPort(file, macaddr, portNo) && RemoteEntry(file, portNo, i)
  }

  lemma {:induction false} HearsAnyHolds(fs: seq<F.FdbEntry>, file: seq<F.KernelEntry>, at: seq<nat>, macaddr: Mac)
    requires Holds(fs, file, at)
    ensures F.HearsAny(fs, macaddr) <==> HearsAnyOn(file, macaddr)
  {
    hide Kept, F.PortIs, OnPort;
    if F.HearsAny(fs, macaddr) {
      var portNo: U16, k: nat :| F.PortIs(fs, macaddr, portNo) && F.RemoteAt(fs, portNo, k);
      PortHolds(fs, file, at, macaddr, portNo);
      assert at[k] in at && SameEntry(fs[k], file[at[k]]);
      assert RemoteEntry(file, portNo, at[k]);
    }
    if HearsAnyOn(file, macaddr) {
      var portNo: U16, i: nat :| OnPort(file, macaddr, portNo) && RemoteEntry(file, portNo, i);
      PortHolds(fs, file, at, macaddr, portNo);
      var k := KeptAt(fs, file, at, i);
      assert F.RemoteAt(fs, portNo, k);
    }
  }

  // ---------------------------------------------------------------- interfaces

  /** What fits a name field. */
  function Cut(name: seq<Byte>): seq<Byte> {
    if |name| <= 16 then name else name[..16]
  }

  /** The interface is what the system said about it: addresses, name, type and descriptor. */
  predicate ReadAs(e: I.IfInfo, a: I.IfAddr, r: Reading) {
    && a.hwaddr == Some(e.macaddr) && e.ipaddr == a.ipaddr && e.netmask == a.netmask
    && I.NameField(e.ifname, a.name) && I.CStr(e.ifname) == Cut(a.name)
    && r.iftypeOf(e.ifname) == Some(e.iftype) && r.fdOf(e.ifname) == e.fd
    && e.portNo == 0
  }

  /** `at` lists, in order, the usable records with a hardware address. */
  predicate UsablePositions(addrs: seq<I.IfAddr>, at: seq<nat>) {
    && Increasing(at, |addrs|)
    && forall i :: 0 <= i < |addrs| ==> (i in at <==> addrs[i].usable && addrs[i].hwaddr.Some?)
  }

  predicate NamesApart(addrs: seq<I.IfAddr>, at: seq<nat>)
    requires Increasing(at, |addrs|)
  {
    forall k, l :: 0 <= k < l < |at| ==> Cut(addrs[at[k]].name) != Cut(addrs[at[l]].name)
  }

  predicate AllTyped(addrs: seq<I.IfAddr>, at: seq<nat>, iftypeOf: I.Name -> Option<U32>)
    requires Increasing(at, |addrs|)
  {
    forall k :: 0 <= k < |at| ==> iftypeOf(I.Padded(addrs[at[k]].name)).Some?
  }

  lemma {:induction false} FieldIsPadded(field: I.Name, name: seq<Byte>)
    requires I.NameField(field, name)
    ensures field == I.Padded(name)
  {
    I.PaddedField(name);
  }

  lemma {:induction false} FirstUntypedAll(es: seq<I.IfInfo>, iftypeOf: I.Name -> Option<U32>)
    ensures I.FirstUntyped(es, iftypeOf) == |es| <==> I.TypedBelow(es, iftypeOf, |es|)
  {
    if es != [] {
      FirstUntypedAll(es[1..], iftypeOf);
      assert forall i :: 0 < i < |es| ==> es[i] == es[1..][i - 1];
      assert forall i :: 0 <= i < |es| - 1 ==> es[1..][i] == es[i + 1];
    }
  }

  lemma {:induction false} StoredNames(recs: seq<I.IfInfo>, addrs: seq<I.IfAddr>, at: seq<nat>)
    requires Increasing(at, |addrs|) && I.AllStored(recs, addrs, at)
    ensures I.NamesDiffer(recs) <==> NamesApart(addrs, at)
  {
    hide I.CStr, I.NameField;
    assert forall k :: 0 <= k < |at| ==> I.Stores(recs[k], addrs[at[k]]);
  }

  lemma {:induction false} StoredTypes(recs: seq<I.IfInfo>, addrs: seq<I.IfAddr>, at: seq<nat>,
      iftypeOf: I.Name -> Option<U32>)
    requires Increasing(at, |addrs|) && I.AllStored(recs, addrs, at)
    ensures I.TypedBelow(recs, iftypeOf, |recs|) <==> AllTyped(addrs, at, iftypeOf)
  {
    hide I.CStr, I.NameField, I.Padded;
    forall k | 0 <= k < |at| ensures recs[k].ifname == I.Padded(addrs[at[k]].name) {
      assert I.Stores(recs[k], addrs[at[k]]);
      FieldIsPadded(recs[k].ifname, addrs[at[k]].name);
    }
  }

  /**
    Which records become interfaces, and what each interface then is. The scan succeeds exactly when there are
    at most 20 of them and their names differ in what fits the field; sending is prepared exactly when all
    of their names have a type.
   */
  lemma {:induction false} InterfacesRead(r: Reading) returns (at: seq<nat>)
    requires r.addrs.Some?
    ensures UsablePositions(r.addrs.value, at)
    ensures Records(r).Some? <==> |at| <= 20 && NamesApart(r.addrs.value, at)
    ensures Interfaces(r).Some? <==> Records(r).Some? && AllTyped(r.addrs.value, at, r.iftypeOf)
    ensures Interfaces(r).Some? ==>
              var es := Interfaces(r).value;
              |es| == |at| && forall k :: 0 <= k < |at| ==> ReadAs(es[k], r.addrs.value[at[k]], r)
  {
    hide I.Scanned, I.Accepted, I.DistinctNames, I.NamesDiffer, I.FirstUntyped, I.TypedBelow, NamesApart, AllTyped,
      I.AllStored, ReadAs;
    var addrs := r.addrs.value;
    at := I.ScannedPositions(addrs);
    var recs := I.Scanned(addrs);
    StoredCount(recs, addrs, at);
    I.AcceptedAll(recs);
    I.DistinctNamesPairwise(recs);
    StoredNames(recs, addrs, at);
    FirstUntypedAll(recs, r.iftypeOf);
    StoredTypes(recs, addrs, at, r.iftypeOf);
    if Interfaces(r).Some? {
      forall k | 0 <= k < |at| ensures ReadAs(Interfaces(r).value[k], addrs[at[k]], r) {
        OpenedAs(recs, addrs, at, r, k);
      }
    }
  }

  lemma {:induction false} StoredCount(recs: seq<I.IfInfo>, addrs: seq<I.IfAddr>, at: seq<nat>)
    requires Increasing(at, |addrs|) && I.AllStored(recs, addrs, at)
    ensures |recs| == |at|
  {
  }

  lemma {:induction false} OpenedAs(recs: seq<I.IfInfo>, addrs: seq<I.IfAddr>, at: seq<nat>, r: Reading, k: nat)
    requires Increasing(at, |addrs|) && I.AllStored(recs, addrs, at) && k < |recs| == |at|
    requires I.TypedBelow(recs, r.iftypeOf, |recs|)
    ensures ReadAs(I.Opened(I.TypedUpTo(recs, r.iftypeOf, |recs|), r.fdOf)[k], addrs[at[k]], r)
  {
    hide I.CStr, I.NameField;
    assert I.Stores(recs[k], addrs[at[k]]);
    assert r.iftypeOf(recs[k].ifname).Some?;
  }

  // ---------------------------------------------------------------- how a round ends

  /** A round gets to sending exactly when interfaces and bridge could be read; otherwise it sends nothing. */
  lemma {:induction false} UnreadyRound(r: Reading, d: Device)
    ensures ReadyToSend(r) <==> Interfaces(r).Some? && r.bridge.Some?
    ensures r.addrs.None? ==> Records(r).None?
    ensures StatusOf(r, d) == ScanFailed <==> Records(r).None?
    ensures !ReadyToSend(r) ==> SentIn(r, d) == [] && StatusOf(r, d) != Again
  {
  }

  // ---------------------------------------------------------------- the frames of a round

  /** Descriptor, name, addresses and payload of a frame that carries this section. */
  predicate FrameIs(f: Frame, e: I.IfInfo, src: Mac, d: Device, section: seq<Byte>) {
    && f.fd == e.fd && f.ifname == e.ifname
    && f.dst == [0xFF, 0xFF, 0xFF, 0xFF, 0xFF, 0xFF] && f.src == src
    && f.payload == HeadOnWire(e, d, src) + section + [0, 0]
  }

  /** `at` lists, in order, the open interfaces on whose ports the kernel heard something. */
  ghost predicate AudiblePositions(es: seq<I.IfInfo>, file: seq<F.KernelEntry>, at: seq<nat>) {
    && Increasing(at, |es|)
    && forall i :: 0 <= i < |es| ==> (i in at <==> es[i].fd >= 0 && HearsAnyOn(file, es[i].macaddr))
  }

  lemma {:induction false} SentCount(r: Reading, d: Device, n: nat)
    requires ReadyToSend(r) && |RoundFrames(r, d)| == n
    ensures |SentIn(r, d)| <= n && SentIn(r, d) == RoundFrames(r, d)[..|SentIn(r, d)|]
    ensures forall k :: 0 <= k < |SentIn(r, d)| ==> r.accepts(k)
    ensures |SentIn(r, d)| < n ==> !r.accepts(|SentIn(r, d)|)
    ensures StatusOf(r, d) == if |SentIn(r, d)| == n then Again else Finalized
  {
    hide RoundFrames, FirstRefused;
    FirstRefusedMeaning(r.accepts, n);
  }

  lemma {:induction false} FirstRefusedMeaning(accepts: nat -> bool, n: nat)
    ensures var k := FirstRefused(accepts, n);
            && k <= n && (forall i :: 0 <= i < k ==> accepts(i))
            && (k < n ==> !accepts(k))
  {
    if n > 0 {
      FirstRefusedMeaning(accepts, n - 1);
    }
  }

  /**
    What a round sends: one frame for each open interface on whose port the kernel heard something, in list
    order, up to the first that is refused. Each goes to the broadcast address, and it comes from the bridge's
    address where there is one, also in its Chassis and Port ID, and else from the interface's own.
   */
  lemma {:induction false} RoundSends(r: Reading, d: Device) returns (at: seq<nat>, section: seq<Byte>)
    requires ReadyToSend(r)
    ensures AudiblePositions(Interfaces(r).value, r.bridge.value, at)
    ensures var sent := SentIn(r, d);
            && |sent| <= |at|
            && (forall k :: 0 <= k < |sent| ==> r.accepts(k))
            && (|sent| < |at| ==> !r.accepts(|sent|))
            && StatusOf(r, d) == if |sent| == |at| then Again else Finalized
    ensures forall k :: 0 <= k < |SentIn(r, d)| ==>
              var e := Interfaces(r).value[at[k]];
              FrameIs(SentIn(r, d)[k], e, if r.bridgeMac.Some? then r.bridgeMac.value else e.macaddr, d, section)
  {
    hide Interfaces, Forwarded, SentIn, StatusOf, LinkFrame, LinkFrames, EachFrame, LinksOf, FrameIs, F.HearsAny,
      HearsAnyOn, Holds, Section;
    UnreadyRound(r, d);
    var es, fs, file := Interfaces(r).value, Forwarded(r).value, r.bridge.value;
    var links := LinksOf(es, fs);
    section := Section(es, fs);
    at := FramesPositions(es, fs, d, r.bridgeMac, links);
    var held := ForwardedHolds(r);
    forall i | 0 <= i < |es| ensures F.HearsAny(fs, es[i].macaddr) <==> HearsAnyOn(file, es[i].macaddr) {
      HearsAnyHolds(fs, file, held, es[i].macaddr);
    }
    SentCount(r, d, |at|);
    forall k | 0 <= k < |SentIn(r, d)|
      ensures var e := es[at[k]];
              FrameIs(SentIn(r, d)[k], e, if r.bridgeMac.Some? then r.bridgeMac.value else e.macaddr, d, section)
    {
      FrameIsLayout(es[at[k]], es, fs, d, r.bridgeMac);
    }
  }

  lemma {:induction false} FrameIsLayout(e: I.IfInfo, es: seq<I.IfInfo>, fs: seq<F.FdbEntry>, d: Device,
      bridgeMac: Option<Mac>)
    ensures FrameIs(LinkFrame(e, d, bridgeMac, LinksOf(es, fs)), e,
                    if bridgeMac.Some? then bridgeMac.value else e.macaddr, d, Section(es, fs))
  {
    hide LinkFrame, LinksOf, Section, HeadOnWire;
    FrameLayout(e, es, fs, d, bridgeMac);
  }

  // ---------------------------------------------------------------- what a frame says about the kernel's table

  /** The interface's type, its port, and every address the kernel heard there, each once and in order. */
  ghost predicate SaysOfKernel(report: Report, e: I.IfInfo, file: seq<F.KernelEntry>) {
    && report.iftype == e.iftype % 256
    && (exists portNo: U16 ::
          OnPort(file, e.macaddr, portNo) && report.portno == portNo % 256 && HeardOn(file, portNo, report.macs))
    && forall k, l :: 0 <= k < l < |report.macs| ==> report.macs[k] != report.macs[l]
  }

  /** `at` lists, in order, the interfaces the kernel has on a port. */
  ghost predicate PortPositions(es: seq<I.IfInfo>, file: seq<F.KernelEntry>, at: seq<nat>) {
    && Increasing(at, |es|)
    && forall i :: 0 <= i < |es| ==> (i in at <==> exists portNo: U16 :: OnPort(file, es[i].macaddr, portNo))
  }

  /** A receiver finds one report for each of these interfaces, also where nothing was heard, and no other. */
  ghost predicate SaysAll(payload: seq<Byte>, tail: Byte, es: seq<I.IfInfo>, file: seq<F.KernelEntry>, at: seq<nat>) {
    var parsed := Parse(NineBit, payload, tail);
    && PortPositions(es, file, at)
    && parsed.Some?
    && var reports := Reassemble(Fragments(parsed.value));
       && |reports| == |at|
       && forall k :: 0 <= k < |at| ==> SaysOfKernel(reports[k], es[at[k]], file)
  }

  lemma {:induction false} TruthfulHolds(report: Report, e: I.IfInfo, fs: seq<F.FdbEntry>, file: seq<F.KernelEntry>,
      held: seq<nat>)
    requires Holds(fs, file, held) && Truthful(report, e, fs)
    ensures SaysOfKernel(report, e, file)
  {
    hide Holds, F.PortIs, F.Heard, OnPort, HeardOn;
    var portNo: U16 :| F.PortIs(fs, e.macaddr, portNo) && report.portno == portNo % 256
                       && F.Heard(fs, portNo, report.macs);
    PortHolds(fs, file, held, e.macaddr, portNo);
    HeardHolds(fs, file, held, portNo, report.macs);
  }

  lemma {:induction false} PortExists(fs: seq<F.FdbEntry>, file: seq<F.KernelEntry>, held: seq<nat>, macaddr: Mac)
    requires Holds(fs, file, held)
    ensures F.HasPort(fs, macaddr) <==> exists portNo: U16 :: OnPort(file, macaddr, portNo)
  {
    hide Holds, F.PortIs, OnPort;
    forall portNo: U16 ensures F.PortIs(fs, macaddr, portNo) <==> OnPort(file, macaddr, portNo) {
      PortHolds(fs, file, held, macaddr, portNo);
    }
  }

  lemma {:induction false} TellsIsSaysAll(payload: seq<Byte>, tail: Byte, es: seq<I.IfInfo>, fs: seq<F.FdbEntry>,
      file: seq<F.KernelEntry>, held: seq<nat>, at: seq<nat>)
    requires Holds(fs, file, held) && Tells(payload, tail, es, fs, at)
    ensures SaysAll(payload, tail, es, file, at)
  {
    hide Holds, Truthful, SaysOfKernel, F.HasPort, OnPort, Parse, Reassemble, Fragments, SectionFragments, LinksOf,
      MandatoryOrder;
    forall i | 0 <= i < |es|
      ensures F.HasPort(fs, es[i].macaddr) <==> exists portNo: U16 :: OnPort(file, es[i].macaddr, portNo)
    {
      PortExists(fs, file, held, es[i].macaddr);
    }
    var reports := Reassemble(Fragments(Parse(NineBit, payload, tail).value));
    forall k | 0 <= k < |at| ensures SaysOfKernel(reports[k], es[at[k]], file) {
      TruthfulHolds(reports[k], es[at[k]], fs, file, held);
    }
  }

  /**
    From the kernel's entries to the receiver, over the whole life of the daemon: every frame it ever sends was
    sent in a round all of whose predecessors went on, and says about that round's kernel table exactly what
    the table says.
   */
  lemma {:induction false} EveryFrameSays(rs: seq<Reading>, d: Device, f: Frame, tail: Byte)
    returns (i: nat, at: seq<nat>)
    requires DeviceWithin(d, 505) && f in SentOver(rs, d)
    ensures i < |rs| && AllAgain(rs[..i], d) && ReadyToSend(rs[i]) && f in SentIn(rs[i], d)
    ensures SaysAll(f.payload, tail, Interfaces(rs[i]).value, rs[i].bridge.value, at)
  {
    hide SentOver, SentIn, AllAgain, Tells, SaysAll, DeviceWithin, Interfaces, Forwarded, Holds;
    i, at := EveryFrameTruthful(rs, d, f, tail);
    UnreadyRound(rs[i], d);
    var held := ForwardedHolds(rs[i]);
    TellsIsSaysAll(f.payload, tail, Interfaces(rs[i]).value, Forwarded(rs[i]).value, rs[i].bridge.value, held, at);
  }
}
