/**
  The switch daemon's loop: each round reads interfaces and bridge anew, sends, and drops both tables,
  so what it sends depends on that round's readings alone.
 */
module Switch {
  import opened Common
  import opened Tlv
  import opened TlvHeader
  import opened LinkInfo
  import opened TlvWriter
  import opened Htip
  import opened HtipProofs
  import F = Fdb
  import I = IfInfo

  /** What the system answers during one round. */
  datatype Reading = Reading(
    addrs: Option<seq<I.IfAddr>>,
    iftypeOf: I.Name -> Option<U32>,
    fdOf: I.Name -> int,
    bridge: F.Forwarding,
    bridgeMac: Option<Mac>,
    accepts: nat -> bool)

  /** Go on, stop because the scan failed, or stop because something later failed. */
  datatype Status = Again | ScanFailed | Finalized

  // ---------------------------------------------------------------- a round as a function

  /** The records of the scan, when it is complete. */
  function Records(r: Reading): Option<seq<I.IfInfo>> {
    match r.addrs
    case None => None
    case Some(addrs) =>
      var recs := I.Scanned(addrs);
      if I.Accepted(recs) == |recs| then Some(recs) else None
  }

  /** The interfaces as they are when sending starts, when every type is known. */
  function Interfaces(r: Reading): Option<seq<I.IfInfo>> {
    match Records(r)
    case None => None
    case Some(recs) =>
      if I.FirstUntyped(recs, r.iftypeOf) == |recs|
      then Some(I.Opened(I.TypedUpTo(recs, r.iftypeOf, |recs|), r.fdOf)) else None
  }

  /** The forwarding entries, when the bridge could be read. */
  function Forwarded(r: Reading): Option<seq<F.FdbEntry>> {
    match r.bridge
    case None => None
    case Some(file) =>
      var es := F.Copied(F.Readable(file));
      Some(F.FirstOccurrences(es, |es|))
  }

  predicate ReadyToSend(r: Reading) {
    Interfaces(r).Some? && Forwarded(r).Some?
  }

  function RoundFrames(r: Reading, d: Device): seq<Frame>
    requires ReadyToSend(r)
  {
    var es, fs := Interfaces(r).value, Forwarded(r).value;
    LinkFrames(es, fs, d, r.bridgeMac, LinksOf(es, fs))
  }

  /** The frames really sent: all up to the first the system refuses. */
  function SentIn(r: Reading, d: Device): seq<Frame> {
    if ReadyToSend(r) then RoundFrames(r, d)[..FirstRefused(r.accepts, |RoundFrames(r, d)|)] else []
  }

  function StatusOf(r: Reading, d: Device): Status {
    if Records(r).None? then ScanFailed
    else if !ReadyToSend(r) then Finalized
    else if FirstRefused(r.accepts, |RoundFrames(r, d)|) == |RoundFrames(r, d)| then Again
    else Finalized
  }

  /** What the round needs of its readings: names and frames that fit, whenever it gets to send. */
  predicate RoundSendable(r: Reading, d: Device) {
    ReadyToSend(r) ==> Sendable(Interfaces(r).value, Forwarded(r).value, d)
  }

  // ---------------------------------------------------------------- a round as the daemon runs it

  /** read_ifinfo, read_net_type and open_netif: the interface table, or how the round ends. */
  method ReadInterfaces(ifs: I.InterfaceTable, r: Reading) returns (status: Status)
    requires ifs.Valid()
    modifies ifs, ifs.list
    ensures ifs.Valid() && (ifs.list == old(ifs.list) || fresh(ifs.list))
    ensures status == if Records(r).None? then ScanFailed else if Interfaces(r).None? then Finalized else Again
    ensures status == Again ==> ifs.Entries() == Interfaces(r).value
  {
    hide I.Scanned, I.Accepted, I.FirstUntyped, I.TypedUpTo, I.Opened, I.CStr, I.DistinctNames, I.AllZero;
    var ok := ifs.ReadIfinfo(r.addrs);
    if !ok {
      return ScanFailed;
    }
    ghost var recs := Records(r).value;
    assert recs[..|recs|] == recs;
    assert ifs.Entries() == recs;
    ok := ifs.ReadNetType(r.iftypeOf);
    if !ok {
      return Finalized;
    }
    ifs.OpenNetif(r.fdOf);
    status := Again;
  }

  lemma {:induction false} LoadedTable(r: Reading)
    requires r.bridge.Some?
    ensures F.LoadTable(r.bridge, F.MAX_FDB_ENTRY_SIZE) == F.Table(F.MAX_FDB_ENTRY_SIZE, Forwarded(r).value)
  {
    F.LoadIsDeduplication(r.bridge.value, F.MAX_FDB_ENTRY_SIZE);
  }

  /**
    One round, from whatever state the tables are in: what it sends and how it ends is a function of its
    readings, so earlier rounds cannot matter. A failed scan leaves at once; every other end leaves both
    tables released, but only a complete round closes its descriptors.
   */
  method Round(ifs: I.InterfaceTable, fdb: F.ForwardingTable, wire: Wire, d: Device, r: Reading)
    returns (status: Status, closed: seq<int>)
    requires ifs.Valid() && fdb.Valid() && RoundSendable(r, d)
    modifies ifs, ifs.list, fdb, fdb.list, wire
    ensures ifs.Valid() && fdb.Valid() && (ifs.list == old(ifs.list) || fresh(ifs.list) || ifs.list == null)
    ensures wire.sent == old(wire.sent) + SentIn(r, d)
    ensures status == StatusOf(r, d)
    ensures status != ScanFailed ==> ifs.View() == I.Closed && fdb.View() == F.Unallocated
    ensures status == ScanFailed ==> fdb.View() == old(fdb.View())
    ensures closed == if status == Again && Interfaces(r).Some? then I.OpenDescriptors(Interfaces(r).value) else []
  {
    hide SentIn, StatusOf, Interfaces, Records, RoundSendable, I.AllZero, I.DistinctNames, I.CStr, F.AllZero,
      F.Distinct, I.OpenDescriptors;
    closed := [];
    status := ReadInterfaces(ifs, r);
    if status != Again {
      NothingSentUnready(r, d);
    }
    if status == ScanFailed {
      return;
    }
    if status == Again {
      status := SendRound(ifs, fdb, wire, d, r);
    }
    if status == Again {
      closed := ifs.CloseNetif();
    } else {
      ifs.Free();
    }
    fdb.Free();
  }

  /** The second half of a round: load the bridge's table and send. */
  method SendRound(ifs: I.InterfaceTable, fdb: F.ForwardingTable, wire: Wire, d: Device, r: Reading)
    returns (status: Status)
    requires ifs.Valid() && fdb.Valid() && RoundSendable(r, d)
    requires Interfaces(r).Some? && ifs.Entries() == Interfaces(r).value
    modifies fdb, fdb.list, wire
    ensures fdb.Valid()
    ensures wire.sent == old(wire.sent) + SentIn(r, d)
    ensures status == StatusOf(r, d) != ScanFailed
  {
    hide Interfaces, Sendable, FirstRefused, LinkFrames, LinksOf, F.LoadTable, F.FirstOccurrences, F.AllZero,
      F.Distinct, I.AllZero, I.DistinctNames, I.CStr;
    var loaded := fdb.LoadFdb(r.bridge, F.MAX_FDB_ENTRY_SIZE);
    ReadRecords(r);
    if !loaded {
      return Finalized;
    }
    LoadedTable(r);
    assert fdb.Entries() == Forwarded(r).value;
    var sent := SendDeviceLinkInfo(ifs, fdb, d, r.bridgeMac, wire, r.accepts);
    status := if sent < 0 then Finalized else Again;
  }

  lemma {:induction false} ReadRecords(r: Reading)
    requires Interfaces(r).Some?
    ensures Records(r).Some?
  {
  }

  lemma {:induction false} NothingSentUnready(r: Reading, d: Device)
    requires Records(r).None? || Interfaces(r).None?
    ensures SentIn(r, d) == [] && StatusOf(r, d) == if Records(r).None? then ScanFailed else Finalized
  {
  }

  // ---------------------------------------------------------------- readings that are safe to send

  lemma {:induction false} ScannedTerminated(addrs: seq<I.IfAddr>)
    requires forall i :: 0 <= i < |addrs| ==> |addrs[i].name| < I.IFNAMSIZ
    ensures forall i :: 0 <= i < |I.Scanned(addrs)| ==> I.Terminated(I.Scanned(addrs)[i].ifname)
  {
    hide I.Terminated, I.Padded;
    if addrs != [] {
      ScannedTerminated(addrs[..|addrs| - 1]);
      I.PaddedTerminated(addrs[|addrs| - 1].name);
    }
  }

  /**
    Conditions on the readings alone under which a round may run: names shorter than the name field, a
    port of its own for each bridged interface, and not too much to say.
   */
  lemma {:induction false} RoundSendableWhen(r: Reading, d: Device)
    requires |d.manufacturerCode| == MANUFACTURER_CODE_LEN
    requires r.addrs.Some? ==>
               forall i :: 0 <= i < |r.addrs.value| ==> |r.addrs.value[i].name| < I.IFNAMSIZ
    requires ReadyToSend(r) ==>
               var es, fs := Interfaces(r).value, Forwarded(r).value;
               && F.DistinctPorts(BridgedPorts(es, fs))
               && |d.category| + |d.modelName| + |d.modelNumber| + 11 * |es| + 6 * |F.NonLocal(fs)| <= 1388
    ensures RoundSendable(r, d)
  {
    hide I.Terminated, I.Scanned, I.Accepted, F.DistinctPorts, BridgedPorts, F.NonLocal, Sendable;
    if ReadyToSend(r) {
      ScannedTerminated(r.addrs.value);
      SendableWhen(Interfaces(r).value, Forwarded(r).value, d);
    }
  }

  // ---------------------------------------------------------------- the loop

  /** Everything sent until a round ends the loop. */
  function SentOver(rs: seq<Reading>, d: Device): seq<Frame> {
    if rs == [] then []
    else SentIn(rs[0], d) + if StatusOf(rs[0], d) == Again then SentOver(rs[1..], d) else []
  }

  predicate AllAgain(rs: seq<Reading>, d: Device) {
    forall i :: 0 <= i < |rs| ==> StatusOf(rs[i], d) == Again
  }

  /** Rounds in front and behind leave what a round contributes in its place. */
  lemma {:induction false} RoundsIndependent(before: seq<Reading>, r: Reading, after: seq<Reading>, d: Device)
    requires AllAgain(before, d)
    ensures SentOver(before + [r] + after, d)
            == SentOver(before, d) + SentIn(r, d) + (if StatusOf(r, d) == Again then SentOver(after, d) else [])
  {
    hide SentIn, StatusOf;
    if before == [] {
      assert before + [r] + after == [r] + after;
      assert ([r] + after)[1..] == after;
    } else {
      assert (before + [r] + after)[1..] == before[1..] + [r] + after;
      RoundsIndependent(before[1..], r, after, d);
    }
  }

  lemma {:induction false} SentFrom(was: seq<Frame>, rs: seq<Reading>, d: Device, i: nat)
    requires i < |rs|
    ensures was + SentOver(rs[i..], d)
            == if StatusOf(rs[i], d) == Again then was + SentIn(rs[i], d) + SentOver(rs[i + 1..], d)
               else was + SentIn(rs[i], d)
  {
    hide SentIn, StatusOf;
    assert rs[i..][0] == rs[i] && rs[i..][1..] == rs[i + 1..];
  }

  lemma {:induction false} SentAtEnds(was: seq<Frame>, rs: seq<Reading>, d: Device)
    ensures [] + SentOver(rs[0..], d) == SentOver(rs, d)
    ensures was + SentOver(rs[|rs|..], d) == was
  {
    hide SentIn, StatusOf;
    assert rs[0..] == rs;
  }

  /** The daemon from its start, over the readings of as many rounds as the loop makes. */
  method Daemon(d: Device, readings: seq<Reading>) returns (wire: Wire)
    requires forall i :: 0 <= i < |readings| ==> RoundSendable(readings[i], d)
    ensures fresh(wire) && wire.sent == SentOver(readings, d)
  {
    hide SentIn, StatusOf, SentOver, RoundSendable;
    var ifs := new I.InterfaceTable();
    var fdb := new F.ForwardingTable();
    wire := new Wire();
    SentAtEnds([], readings, d);
    var i := 0;
    while i < |readings|
      invariant 0 <= i <= |readings|
      invariant fresh(ifs) && fresh(fdb) && fresh(fdb.list) && fresh(wire)
      invariant ifs.list == null || fresh(ifs.list)
      invariant ifs.Valid() && fdb.Valid()
      invariant wire.sent + SentOver(readings[i..], d) == SentOver(readings, d)
    {
      SentFrom(wire.sent, readings, d, i);
      var status, closed := Round(ifs, fdb, wire, d, readings[i]);
      if status != Again {
        return;
      }
      i := i + 1;
    }
    SentAtEnds(wire.sent, readings, d);
  }

  // ---------------------------------------------------------------- from the kernel's table to the receiver

  /**
    Every frame a round sends tells a receiver, about each interface with a port, the remote addresses the
    kernel listed on it: the first entry of each address and port, each once, in the kernel's order.
   */
  lemma {:induction false} RoundEndToEnd(r: Reading, d: Device, f: Frame, tail: Byte) returns (at: seq<nat>)
    requires ReadyToSend(r) && DeviceWithin(d, 505) && f in SentIn(r, d)
    ensures Tells(f.payload, tail, Interfaces(r).value, Forwarded(r).value, at)
  {
    var es, fs := Interfaces(r).value, Forwarded(r).value;
    var entries := F.Copied(F.Readable(r.bridge.value));
    F.FirstOccurrencesDistinct(entries, |entries|);
    at := EndToEnd(es, fs, d, r.bridgeMac, f, tail);
  }

  /** The round a frame was sent in: all rounds before it went on, and it got to sending. */
  lemma {:induction false} RoundOf(rs: seq<Reading>, d: Device, f: Frame) returns (i: nat)
    requires f in SentOver(rs, d)
    ensures i < |rs| && AllAgain(rs[..i], d) && ReadyToSend(rs[i]) && f in SentIn(rs[i], d)
  {
    hide StatusOf, SentIn, ReadyToSend, AllAgain;
    if f in SentIn(rs[0], d) {
      i := 0;
      NoneYet(d);
      SentWhenReady(rs[0], d);
    } else {
      i := RoundOf(rs[1..], d, f);
      OneMoreAgain(rs, d, i);
      i := i + 1;
    }
  }

  lemma {:induction false} NoneYet(d: Device)
    ensures AllAgain([], d)
  {
  }

  lemma {:induction false} SentWhenReady(r: Reading, d: Device)
    requires SentIn(r, d) != []
    ensures ReadyToSend(r)
  {
  }

  lemma {:induction false} OneMoreAgain(rs: seq<Reading>, d: Device, i: nat)
    requires i < |rs| && StatusOf(rs[0], d) == Again && AllAgain(rs[1..][..i], d)
    ensures AllAgain(rs[..i + 1], d)
  {
    hide StatusOf;
    assert rs[..i + 1] == [rs[0]] + rs[1..][..i];
  }

  /**
    Over the whole life of the daemon: every frame it ever sends belongs to a round and tells a receiver the
    truth about that round's readings, with no trace of the rounds before.
   */
  lemma {:induction false} EveryFrameTruthful(rs: seq<Reading>, d: Device, f: Frame, tail: Byte)
    returns (i: nat, at: seq<nat>)
    requires DeviceWithin(d, 505) && f in SentOver(rs, d)
    ensures i < |rs| && AllAgain(rs[..i], d) && ReadyToSend(rs[i]) && f in SentIn(rs[i], d)
    ensures Tells(f.payload, tail, Interfaces(rs[i]).value, Forwarded(rs[i]).value, at)
  {
    hide SentOver, SentIn, AllAgain, ReadyToSend, Tells, DeviceWithin;
    i := RoundOf(rs, d, f);
    at := RoundEndToEnd(rs[i], d, f, tail);
  }

  // ---------------------------------------------------------------- the strings the daemon announces

  /** sizeof of a C pointer, where the lengths of the strings behind the pointers are meant. */
  const ADDRESS_SIZE: nat := 8

  /** A setting as a C string, and what memory holds behind its NUL. */
  datatype Memory = Memory(text: seq<Byte>, after: seq<Byte>)

  /** `n` bytes from where a string starts, whatever the string's length. */
  function BytesAt(m: Memory, n: nat): (r: seq<Byte>)
    requires |m.after| >= n
    ensures |r| == n
  {
    (m.text + [0] + m.after)[..n]
  }

  predicate Backed(category: Memory, manufacturerCode: Memory, modelName: Memory, modelNumber: Memory) {
    && |category.after| >= ADDRESS_SIZE && |manufacturerCode.after| >= MANUFACTURER_CODE_LEN
    && |modelName.after| >= ADDRESS_SIZE && |modelNumber.after| >= ADDRESS_SIZE
  }

  function DaemonDevice(category: Memory, manufacturerCode: Memory, modelName: Memory, modelNumber: Memory): Device
    requires Backed(category, manufacturerCode, modelName, modelNumber)
  {
    Device(BytesAt(category, ADDRESS_SIZE), BytesAt(manufacturerCode, MANUFACTURER_CODE_LEN),
           BytesAt(modelName, ADDRESS_SIZE), BytesAt(modelNumber, ADDRESS_SIZE))
  }

  /** Exactly the strings of the announced length arrive as they were set; longer ones are cut. */
  lemma {:induction false} AnnouncedWhole(m: Memory, n: nat)
    requires |m.after| >= n
    ensures BytesAt(m, n) == m.text <==> |m.text| == n
    ensures |m.text| >= n ==> BytesAt(m, n) == m.text[..n]
    ensures |m.text| < n ==> BytesAt(m, n) == m.text + [0] + m.after[..n - |m.text| - 1]
  {
  }

  /** Whatever is set, the daemon's strings suit both readers and take 24 bytes besides the code. */
  lemma {:induction false} DaemonDeviceSize(category: Memory, manufacturerCode: Memory, modelName: Memory,
      modelNumber: Memory)
    requires Backed(category, manufacturerCode, modelName, modelNumber)
    ensures var d := DaemonDevice(category, manufacturerCode, modelName, modelNumber);
            && d.category == BytesAt(category, 8) && d.modelName == BytesAt(modelName, 8)
            && d.manufacturerCode == BytesAt(manufacturerCode, 6) && d.modelNumber == BytesAt(modelNumber, 8)
            && DeviceWithin(d, 249)
            && |d.manufacturerCode| == MANUFACTURER_CODE_LEN
            && |d.category| + |d.modelName| + |d.modelNumber| == 24
  {
  }
}
