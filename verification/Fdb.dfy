/**
  The forwarding table: a fixed array of 256 slots whose life cycle is malloc, add, load and free,
  and the queries that scan it.
 */
module Fdb {
  import opened Common
  import opened Positions

  const MAX_FDB_ENTRY_SIZE: nat := 256
  const FDB_ENTRY_LIST_INVALID: int := -1
  const FDB_ENTRY_PORT_INVALID: U16 := 0xFFFF
  const PORT_IS_LOCAL: Byte := 1
  const PORT_NOT_LOCAL: Byte := 0

  datatype Timeval = Timeval(sec: nat, usec: nat)

  datatype FdbEntry = FdbEntry(macaddr: Mac, portNo: U16, isLocal: Byte, age: Timeval)

  const ZERO_ENTRY: FdbEntry := FdbEntry(ZERO_MAC, 0, 0, Timeval(0, 0))

  /** An entry as the kernel hands it out. */
  datatype KernelEntry = KernelEntry(macAddr: Mac, portNo: U16, isLocal: Byte, ageingTimer: nat)

  // ---------------------------------------------------------------- ageing timer

  /** Hundredths of a second to seconds and microseconds, in 64-bit unsigned arithmetic. */
  function JiffiesToTv(jiffies: nat): Timeval {
    var tvusec := (10000 * jiffies) % 0x1_0000_0000_0000_0000;
    Timeval(tvusec / 1000000, tvusec - 1000000 * (tvusec / 1000000))
  }

  /** The conversion loses nothing exactly while the microseconds fit 64 bits. */
  lemma {:induction false} JiffiesExact(jiffies: nat)
    ensures var tv := JiffiesToTv(jiffies);
            && tv.usec < 1000000
            && tv.sec * 1000000 + tv.usec == (10000 * jiffies) % 0x1_0000_0000_0000_0000
            && (tv.sec * 1000000 + tv.usec == 10000 * jiffies <==> 10000 * jiffies < 0x1_0000_0000_0000_0000)
  {
  }

  function CopyFdb(f: KernelEntry): FdbEntry {
    FdbEntry(f.macAddr, f.portNo, f.isLocal, JiffiesToTv(f.ageingTimer))
  }

  /** Address, port and the local mark stay what they are. */
  function Copied(fs: seq<KernelEntry>): (r: seq<FdbEntry>)
    ensures |r| == |fs|
    ensures forall i :: 0 <= i < |fs| ==> r[i] == CopyFdb(fs[i])
    ensures forall i :: 0 <= i < |fs| ==>
              && r[i].macaddr == fs[i].macAddr && r[i].portNo == fs[i].portNo && r[i].isLocal == fs[i].isLocal
              && r[i].age == JiffiesToTv(fs[i].ageingTimer)
  {
    seq(|fs|, i requires 0 <= i < |fs| => CopyFdb(fs[i]))
  }

  // ---------------------------------------------------------------- the abstract table

  datatype Table = Unallocated | Table(size: nat, entries: seq<FdbEntry>)

  /** Entries are told apart by address and port alone. */
  predicate SameKey(a: FdbEntry, b: FdbEntry) {
    a.macaddr == b.macaddr && a.portNo == b.portNo
  }

  predicate Has(es: seq<FdbEntry>, e: FdbEntry) {
    exists i :: 0 <= i < |es| && SameKey(es[i], e)
  }

  /** Every entry was new to the entries before it. */
  predicate Distinct(es: seq<FdbEntry>) {
    es == [] || (Distinct(es[..|es| - 1]) && !Has(es[..|es| - 1], es[|es| - 1]))
  }

  predicate KeysDiffer(es: seq<FdbEntry>) {
    forall i, j :: 0 <= i < j < |es| ==> es[i].macaddr != es[j].macaddr || es[i].portNo != es[j].portNo
  }

  /** That is: no two entries share address and port. */
  lemma {:induction false} DistinctPairwise(es: seq<FdbEntry>)
    ensures Distinct(es) <==> KeysDiffer(es)
  {
    if es != [] {
      var before := es[..|es| - 1];
      DistinctPairwise(before);
      assert forall i :: 0 <= i < |before| ==> before[i] == es[i];
    }
  }

  lemma {:induction false} AddedKeeps(es: seq<FdbEntry>, e: FdbEntry)
    requires |es| <= MAX_FDB_ENTRY_SIZE && Distinct(es)
    ensures |Added(es, e)| <= MAX_FDB_ENTRY_SIZE && Distinct(Added(es, e))
  {
    assert (es + [e])[..|es|] == es;
  }

  /** The array capacity counts here, not the size the table was allocated with. */
  function Added(es: seq<FdbEntry>, e: FdbEntry): seq<FdbEntry> {
    if |es| >= MAX_FDB_ENTRY_SIZE || Has(es, e) then es else es + [e]
  }

  /** One entry after the other, each refused if the table is full or has its key. */
  function AddAll(es: seq<FdbEntry>, news: seq<FdbEntry>): seq<FdbEntry> {
    if news == [] then es
    else Added(AddAll(es, news[..|news| - 1]), news[|news| - 1])
  }

  function MallocTable(t: Table, size: int): Table {
    if size < 1 || size > MAX_FDB_ENTRY_SIZE then t else Table(size, [])
  }

  /** The kernel file, of which at most 256 entries are read; None when it cannot be opened. */
  type Forwarding = Option<seq<KernelEntry>>

  function Readable(file: seq<KernelEntry>): (r: seq<KernelEntry>)
    ensures |r| <= MAX_FDB_ENTRY_SIZE
    ensures r == if |file| <= 256 then file else file[..256]
  {
    file[..Min(|file|, MAX_FDB_ENTRY_SIZE)]
  }

  function LoadTable(file: Forwarding, size: int): Table {
    match MallocTable(Unallocated, size)
    case Unallocated => Unallocated
    case Table(n, _) => if file.None? then Table(n, []) else Table(n, AddAll([], Copied(Readable(file.value))))
  }

  // ---------------------------------------------------------------- every run

  datatype Op = Malloc(size: int) | Add(e: FdbEntry) | Free | Load(file: Forwarding, size: int)

  /** The counter as the code holds it. */
  function NumOf(t: Table): int {
    if t.Table? then |t.entries| else FDB_ENTRY_LIST_INVALID
  }

  function EntriesOf(t: Table): seq<FdbEntry> {
    if t.Table? then t.entries else []
  }

  /** The slot add_fdb_entry writes to, when its two checks let it get there. */
  function AddSlot(t: Table, e: FdbEntry): Option<int> {
    if NumOf(t) >= MAX_FDB_ENTRY_SIZE || Has(EntriesOf(t), e) then None else Some(NumOf(t))
  }

  /** Adding is for allocated tables. */
  predicate Legal(t: Table, op: Op) {
    op.Add? ==> t.Table?
  }

  /** An unallocated table makes the slot before the array the target; in all other cases none or one inside is. */
  lemma {:induction false} AddInBounds(t: Table, e: FdbEntry)
    requires TableOk(t)
    ensures (AddSlot(t, e).Some? ==> 0 <= AddSlot(t, e).value < MAX_FDB_ENTRY_SIZE) <==> Legal(t, Op.Add(e))
    ensures t == Unallocated ==> AddSlot(t, e) == Some(-1)
    ensures t.Table? ==>
              var es := t.entries;
              && Added(es, e) == (if AddSlot(t, e).Some? then es + [e] else es)
              && (AddSlot(t, e).Some? ==> AddSlot(t, e).value == |es|)
  {
    hide Distinct;
  }

  function Step(t: Table, op: Op): Table
    requires Legal(t, op)
  {
    match op
    case Malloc(size) => MallocTable(t, size)
    case Add(e) => t.(entries := Added(t.entries, e))
    case Free => Unallocated
    case Load(file, size) => LoadTable(file, size)
  }

  predicate LegalRun(t: Table, ops: seq<Op>)
    decreases |ops|
  {
    ops == [] || (Legal(t, ops[0]) && LegalRun(Step(t, ops[0]), ops[1..]))
  }

  function Run(t: Table, ops: seq<Op>): Table
    requires LegalRun(t, ops)
    decreases |ops|
  {
    if ops == [] then t else Run(Step(t, ops[0]), ops[1..])
  }

  predicate TableOk(t: Table) {
    t.Table? ==> 1 <= t.size <= MAX_FDB_ENTRY_SIZE && |t.entries| <= MAX_FDB_ENTRY_SIZE && Distinct(t.entries)
  }

  lemma {:induction false} AddAllKeeps(es: seq<FdbEntry>, news: seq<FdbEntry>)
    requires |es| <= MAX_FDB_ENTRY_SIZE && Distinct(es)
    ensures |AddAll(es, news)| <= MAX_FDB_ENTRY_SIZE && Distinct(AddAll(es, news))
  {
    if news != [] {
      AddAllKeeps(es, news[..|news| - 1]);
      AddedKeeps(AddAll(es, news[..|news| - 1]), news[|news| - 1]);
    }
  }

  /** Whatever is done to the table, in any order, it stays within capacity and free of duplicate keys. */
  lemma {:induction false} EveryRunOk(t: Table, ops: seq<Op>)
    requires TableOk(t) && LegalRun(t, ops)
    ensures TableOk(Run(t, ops))
    decreases |ops|
  {
    if ops != [] {
      match ops[0]
      case Load(file, _) =>
        if file.Some? {
          AddAllKeeps([], Copied(Readable(file.value)));
        }
        EveryRunOk(Step(t, ops[0]), ops[1..]);
      case Add(e) =>
        AddedKeeps(t.entries, e);
        EveryRunOk(Step(t, ops[0]), ops[1..]);
      case _ =>
        EveryRunOk(Step(t, ops[0]), ops[1..]);
    }
  }

  // ---------------------------------------------------------------- loading is deduplication

  predicate IsFirst(es: seq<FdbEntry>, i: nat)
    requires i < |es|
  {
    forall j :: 0 <= j < i ==> es[j].macaddr != es[i].macaddr || es[j].portNo != es[i].portNo
  }

  /** The entries among the first `n` that no earlier entry shares its key with, in order. */
  function FirstOccurrences(es: seq<FdbEntry>, n: nat): (r: seq<FdbEntry>)
    requires n <= |es|
    ensures |r| <= n
  {
    if n == 0 then []
    else if IsFirst(es, n - 1) then FirstOccurrences(es, n - 1) + [es[n - 1]]
    else FirstOccurrences(es, n - 1)
  }

  lemma {:induction false} FirstOccurrencesHas(es: seq<FdbEntry>, n: nat, e: FdbEntry)
    requires n <= |es|
    ensures Has(FirstOccurrences(es, n), e) <==> exists j :: 0 <= j < n && SameKey(es[j], e)
  {
    hide SameKey, IsFirst;
    if n > 0 {
      var last, before := es[n - 1], FirstOccurrences(es, n - 1);
      FirstOccurrencesHas(es, n - 1, e);
      if IsFirst(es, n - 1) {
        HasSnoc(before, last, e);
      } else if SameKey(last, e) {
        var j := SeenBefore(es, n - 1, e);
      }
    }
  }

  lemma {:induction false} HasSnoc(es: seq<FdbEntry>, last: FdbEntry, e: FdbEntry)
    ensures Has(es + [last], e) <==> Has(es, e) || SameKey(last, e)
  {
    hide SameKey;
    var r := es + [last];
    assert r[|es|] == last;
    assert forall i :: 0 <= i < |es| ==> r[i] == es[i];
  }

  lemma {:induction false} SeenBefore(es: seq<FdbEntry>, n: nat, e: FdbEntry) returns (j: nat)
    requires n < |es| && !IsFirst(es, n) && SameKey(es[n], e)
    ensures j < n && SameKey(es[j], e)
  {
    j :| 0 <= j < n && es[j].macaddr == es[n].macaddr && es[j].portNo == es[n].portNo;
  }

  /** What is kept: in order, exactly the positions whose key is not seen earlier. */
  lemma {:induction false} FirstOccurrencesPositions(es: seq<FdbEntry>, n: nat) returns (at: seq<nat>)
    requires n <= |es|
    ensures Increasing(at, n) && Picks(FirstOccurrences(es, n), es[..n], at)
    ensures forall i :: 0 <= i < n ==> (i in at <==> IsFirst(es, i))
  {
    hide IsFirst, Increasing, Picks;
    if n == 0 {
      at := [];
      NothingPicked(es[..0]);
    } else {
      var was := FirstOccurrencesPositions(es, n - 1);
      at := Extend(was, n - 1, IsFirst(es, n - 1));
      assert es[..n][..n - 1] == es[..n - 1];
      PicksExtend(FirstOccurrences(es, n - 1), es[..n], was, IsFirst(es, n - 1));
      OneMoreOccurrence(es, n - 1);
    }
  }

  lemma {:induction false} OneMoreOccurrence(es: seq<FdbEntry>, n: nat)
    requires n < |es|
    ensures FirstOccurrences(es, n + 1)
            == if IsFirst(es, n) then FirstOccurrences(es, n) + [es[n]] else FirstOccurrences(es, n)
  {
    hide IsFirst;
  }

  /** An entry is new exactly when the entries kept so far do not have its key. */
  lemma {:induction false} FirstIsNew(es: seq<FdbEntry>, n: nat)
    requires n < |es|
    ensures Has(FirstOccurrences(es, n), es[n]) <==> !IsFirst(es, n)
  {
    hide FirstOccurrences;
    FirstOccurrencesHas(es, n, es[n]);
  }

  /** What of a list finds room in the array. */
  function Capped(es: seq<FdbEntry>): seq<FdbEntry> {
    if |es| <= 256 then es else es[..256]
  }

  lemma {:induction false} CappedMore(es: seq<FdbEntry>, e: FdbEntry)
    ensures Capped(es + [e]) == if |es| >= 256 then Capped(es) else Capped(es) + [e]
  {
  }

  /** Adding one by one keeps the first entry of each key, up to the array's capacity. */
  lemma {:induction false} AddAllIsFirstOccurrences(es: seq<FdbEntry>, n: nat)
    requires n <= |es|
    ensures AddAll([], es[..n]) == Capped(FirstOccurrences(es, n))
  {
    hide IsFirst, Has;
    if n > 0 {
      AddAllIsFirstOccurrences(es, n - 1);
      assert es[..n][..n - 1] == es[..n - 1];
      FirstIsNew(es, n - 1);
      OneMoreOccurrence(es, n - 1);
      CappedMore(FirstOccurrences(es, n - 1), es[n - 1]);
    }
  }

  /** So it does when the table holds something already: the old entries come first. */
  lemma {:induction false} AddAllContinues(es: seq<FdbEntry>, news: seq<FdbEntry>)
    requires |es| <= MAX_FDB_ENTRY_SIZE && Distinct(es)
    ensures AddAll(es, news) == Capped(FirstOccurrences(es + news, |es + news|))
  {
    hide Distinct, Has, FirstOccurrences;
    AddAllIsFirstOccurrences(es + news, |es + news|);
    assert (es + news)[..|es + news|] == es + news;
    AddAllAfter(es, news);
    AddAllIsFirstOccurrences(es, |es|);
    AllFirst(es, |es|);
    assert es[..|es|] == es;
  }

  lemma {:induction false} AddAllAfter(es: seq<FdbEntry>, news: seq<FdbEntry>)
    ensures AddAll([], es + news) == AddAll(AddAll([], es), news)
  {
    hide Added;
    if news == [] {
      assert es + news == es;
    } else {
      var n := |news| - 1;
      assert (es + news)[..|es + news| - 1] == es + news[..n];
      AddAllAfter(es, news[..n]);
    }
  }

  /**
    Loading keeps, of what could be read, exactly the first entry of each address and port, in the
    kernel's order, and never meets a full table.
   */
  lemma {:induction false} LoadIsDeduplication(file: seq<KernelEntry>, size: int)
    requires 1 <= size <= MAX_FDB_ENTRY_SIZE
    ensures var es := Copied(Readable(file));
            LoadTable(Some(file), size) == Table(size, FirstOccurrences(es, |es|))
  {
    var es := Copied(Readable(file));
    AddAllIsFirstOccurrences(es, |es|);
    assert es[..|es|] == es;
    assert |FirstOccurrences(es, |es|)| <= |es| <= 256;
  }

  lemma {:induction false} DistinctSnoc(es: seq<FdbEntry>, e: FdbEntry)
    requires Distinct(es) && !Has(es, e)
    ensures Distinct(es + [e])
  {
    assert (es + [e])[..|es|] == es;
  }

  lemma {:induction false} NothingKept(es: seq<FdbEntry>)
    ensures Distinct(FirstOccurrences(es, 0))
  {
  }

  lemma {:induction false} FirstOccurrencesDistinct(es: seq<FdbEntry>, n: nat)
    requires n <= |es|
    ensures Distinct(FirstOccurrences(es, n))
  {
    hide IsFirst, Has, Distinct, FirstOccurrences;
    if n == 0 {
      NothingKept(es);
    } else {
      FirstOccurrencesDistinct(es, n - 1);
      FirstIsNew(es, n - 1);
      OneMoreOccurrence(es, n - 1);
      if IsFirst(es, n - 1) {
        DistinctSnoc(FirstOccurrences(es, n - 1), es[n - 1]);
      }
    }
  }

  lemma {:induction false} AllFirst(es: seq<FdbEntry>, n: nat)
    requires n <= |es| && Distinct(es)
    ensures FirstOccurrences(es, n) == es[..n]
  {
    if n > 0 {
      AllFirst(es, n - 1);
      DistinctPairwise(es);
      assert es[..n] == es[..n - 1] + [es[n - 1]];
    }
  }

  /** Adding does not look at the configured size: it bounds the table only when it is the full 256. */
  lemma {:induction false} ConfiguredSizeBounds(size: int)
    requires 1 <= size <= MAX_FDB_ENTRY_SIZE
    ensures (forall file :: |LoadTable(Some(file), size).entries| <= size) <==> size == MAX_FDB_ENTRY_SIZE
  {
    var ports := seq(MAX_FDB_ENTRY_SIZE, i requires 0 <= i < MAX_FDB_ENTRY_SIZE => KernelEntry(ZERO_MAC, i, 0, 0));
    var es := Copied(Readable(ports));
    assert Readable(ports) == ports;
    assert forall i :: 0 <= i < |es| ==> es[i].portNo == i;
    DistinctPairwise(es);
    LoadIsDeduplication(ports, size);
    AllFirst(es, |es|);
    forall file: seq<KernelEntry> ensures |LoadTable(Some(file), size).entries| <= MAX_FDB_ENTRY_SIZE {
      LoadIsDeduplication(file, size);
    }
  }

  // ---------------------------------------------------------------- queries

  predicate LocalFor(e: FdbEntry, macaddr: Mac) {
    e.macaddr == macaddr && e.isLocal == PORT_IS_LOCAL
  }

  /** The port of the first local entry of an address. */
  function PortOf(es: seq<FdbEntry>, macaddr: Mac): U16 {
    if es == [] then FDB_ENTRY_PORT_INVALID
    else if LocalFor(es[0], macaddr) then es[0].portNo
    else PortOf(es[1..], macaddr)
  }

  predicate RemoteOn(e: FdbEntry, portNo: U16) {
    e.portNo == portNo && e.isLocal == PORT_NOT_LOCAL
  }

  function RemoteEntries(es: seq<FdbEntry>, portNo: U16): (r: seq<FdbEntry>)
    ensures |r| <= |es|
  {
    if es == [] then []
    else
      var rest := RemoteEntries(es[..|es| - 1], portNo);
      if RemoteOn(es[|es| - 1], portNo) then rest + [es[|es| - 1]] else rest
  }

  function Macs(es: seq<FdbEntry>): (r: seq<Mac>)
    ensures |r| == |es|
    ensures forall i :: 0 <= i < |es| ==> r[i] == es[i].macaddr
  {
    seq(|es|, i requires 0 <= i < |es| => es[i].macaddr)
  }

  function RemoteMacs(es: seq<FdbEntry>, portNo: U16): seq<Mac> {
    Macs(RemoteEntries(es, portNo))
  }

  lemma {:induction false} NoRemoteMacs(es: seq<FdbEntry>, portNo: U16)
    ensures RemoteMacs(es[..0], portNo) == []
  {
  }

  lemma {:induction false} OneMoreRemoteMac(es: seq<FdbEntry>, portNo: U16, i: nat)
    requires i < |es|
    ensures var before := RemoteMacs(es[..i], portNo);
            RemoteMacs(es[..i + 1], portNo) == if RemoteOn(es[i], portNo) then before + [es[i].macaddr] else before
  {
    assert es[..i + 1][..i] == es[..i];
  }

  /** What get_remote_entry_num_by_macaddr collects: nothing for an address without a port. */
  function RemoteOf(es: seq<FdbEntry>, macaddr: Mac): seq<Mac> {
    if PortOf(es, macaddr) == FDB_ENTRY_PORT_INVALID then [] else RemoteMacs(es, PortOf(es, macaddr))
  }

  /** No entry among the first `n` is a local one of the address. */
  predicate NoLocalBelow(es: seq<FdbEntry>, macaddr: Mac, n: nat)
    requires n <= |es|
  {
    forall j :: 0 <= j < n ==> es[j].macaddr != macaddr || es[j].isLocal != 1
  }

  predicate FirstLocalAt(es: seq<FdbEntry>, macaddr: Mac, i: nat) {
    i < |es| && es[i].macaddr == macaddr && es[i].isLocal == 1 && NoLocalBelow(es, macaddr, i)
  }

  /** The first local entry of the address names this port, which is a valid one. */
  ghost predicate PortIs(es: seq<FdbEntry>, macaddr: Mac, portNo: U16) {
    portNo != 0xFFFF && exists i: nat :: FirstLocalAt(es, macaddr, i) && es[i].portNo == portNo
  }

  /** An address has a port exactly when some local entry says so, the first such entry decides. */
  lemma {:induction false} PortOfFirstLocal(es: seq<FdbEntry>, macaddr: Mac, i: nat)
    requires FirstLocalAt(es, macaddr, i)
    ensures PortOf(es, macaddr) == es[i].portNo
  {
    if i > 0 {
      assert es[0].macaddr != macaddr || es[0].isLocal != 1;
      assert forall j :: 0 <= j < i - 1 ==> es[1..][j] == es[j + 1];
      PortOfFirstLocal(es[1..], macaddr, i - 1);
    }
  }

  lemma {:induction false} PortOfNone(es: seq<FdbEntry>, macaddr: Mac)
    requires NoLocalBelow(es, macaddr, |es|)
    ensures PortOf(es, macaddr) == 0xFFFF
  {
    if es != [] {
      assert es[0].macaddr != macaddr || es[0].isLocal != 1;
      assert forall j :: 0 <= j < |es| - 1 ==> es[1..][j] == es[j + 1];
      PortOfNone(es[1..], macaddr);
    }
  }

  lemma {:induction false} FindLocal(es: seq<FdbEntry>, macaddr: Mac, n: nat) returns (i: nat)
    requires n <= |es| && NoLocalBelow(es, macaddr, n)
    ensures FirstLocalAt(es, macaddr, i) || (i == |es| && NoLocalBelow(es, macaddr, i))
    decreases |es| - n
  {
    i := n;
    if n < |es| && !(es[n].macaddr == macaddr && es[n].isLocal == 1) {
      i := FindLocal(es, macaddr, n + 1);
    }
  }

  /** The scan for a port finds exactly the port the first local entry names. */
  lemma {:induction false} PortIsExact(es: seq<FdbEntry>, macaddr: Mac, portNo: U16)
    ensures PortIs(es, macaddr, portNo) <==> portNo != 0xFFFF && PortOf(es, macaddr) == portNo
  {
    hide PortOf;
    var i := FindLocal(es, macaddr, 0);
    if i == |es| {
      PortOfNone(es, macaddr);
      assert forall k: nat :: !FirstLocalAt(es, macaddr, k);
    } else {
      PortOfFirstLocal(es, macaddr, i);
      assert forall k: nat :: FirstLocalAt(es, macaddr, k) ==> k == i;
    }
  }

  ghost predicate HasPort(es: seq<FdbEntry>, macaddr: Mac) {
    exists portNo: U16 :: PortIs(es, macaddr, portNo)
  }

  lemma {:induction false} HasPortExact(es: seq<FdbEntry>, macaddr: Mac)
    ensures HasPort(es, macaddr) <==> PortOf(es, macaddr) != 0xFFFF
    ensures HasPort(es, macaddr) ==> PortIs(es, macaddr, PortOf(es, macaddr))
  {
    hide PortOf, PortIs;
    forall portNo: U16
      ensures PortIs(es, macaddr, portNo) <==> portNo != 0xFFFF && PortOf(es, macaddr) == portNo
    {
      PortIsExact(es, macaddr, portNo);
    }
    var p := PortOf(es, macaddr);
    assert PortIs(es, macaddr, p) <==> p != 0xFFFF;
  }

  /** `at` lists, in order, exactly the remote entries of the port. */
  predicate RemotePositions(es: seq<FdbEntry>, portNo: U16, at: seq<nat>) {
    && Increasing(at, |es|)
    && forall i :: 0 <= i < |es| ==> (i in at <==> es[i].portNo == portNo && es[i].isLocal == 0)
  }

  predicate MacsAt(es: seq<FdbEntry>, at: seq<nat>, macs: seq<Mac>)
    requires Increasing(at, |es|)
  {
    |macs| == |at| && forall k :: 0 <= k < |at| ==> macs[k] == es[at[k]].macaddr
  }

  /** `macs` are the addresses heard on the port: those of its remote entries, all of them, in table order. */
  ghost predicate Heard(es: seq<FdbEntry>, portNo: U16, macs: seq<Mac>) {
    exists at :: RemotePositions(es, portNo, at) && MacsAt(es, at, macs)
  }

  /** The filter keeps order and drops nothing: it picks, in increasing order, exactly the matching positions. */
  lemma {:induction false} RemoteEntriesPositions(es: seq<FdbEntry>, portNo: U16) returns (at: seq<nat>)
    ensures Increasing(at, |es|) && Picks(RemoteEntries(es, portNo), es, at)
    ensures RemotePositions(es, portNo, at)
  {
    hide Increasing, Picks;
    if es == [] {
      at := [];
      NothingPicked(es);
    } else {
      var n, before := |es| - 1, es[..|es| - 1];
      var was := RemoteEntriesPositions(before, portNo);
      at := Extend(was, n, RemoteOn(es[n], portNo));
      PicksExtend(RemoteEntries(before, portNo), es, was, RemoteOn(es[n], portNo));
      assert forall i :: 0 <= i < n ==> before[i] == es[i];
    }
  }

  /** The addresses collected are exactly the ones heard on the port. */
  lemma {:induction false} RemoteMacsHeard(es: seq<FdbEntry>, portNo: U16, macs: seq<Mac>)
    ensures Heard(es, portNo, macs) <==> macs == RemoteMacs(es, portNo)
  {
    hide RemoteEntries, Increasing;
    var at := RemoteEntriesPositions(es, portNo);
    assert MacsAt(es, at, RemoteMacs(es, portNo));
    if Heard(es, portNo, macs) {
      var at' :| RemotePositions(es, portNo, at') && MacsAt(es, at', macs);
      SamePositions(at, at', |es|);
    }
  }

  predicate RemoteAt(es: seq<FdbEntry>, portNo: U16, i: nat) {
    i < |es| && es[i].portNo == portNo && es[i].isLocal == 0
  }

  /** Something was heard on the port of the address. */
  ghost predicate HearsAny(es: seq<FdbEntry>, macaddr: Mac) {
    exists portNo: U16, i: nat :: PortIs(es, macaddr, portNo) && RemoteAt(es, portNo, i)
  }

  lemma {:induction false} RemoteOfExact(es: seq<FdbEntry>, macaddr: Mac)
    ensures forall portNo: U16 :: PortIs(es, macaddr, portNo) ==> Heard(es, portNo, RemoteOf(es, macaddr))
    ensures RemoteOf(es, macaddr) != [] <==> HearsAny(es, macaddr)
  {
    hide PortOf, PortIs, Heard, RemoteEntries;
    forall portNo: U16
      ensures PortIs(es, macaddr, portNo) <==> portNo != 0xFFFF && PortOf(es, macaddr) == portNo
    {
      PortIsExact(es, macaddr, portNo);
    }
    var p := PortOf(es, macaddr);
    RemoteMacsHeard(es, p, RemoteMacs(es, p));
    var at := RemoteEntriesPositions(es, p);
    if at == [] {
      assert forall i: nat :: !RemoteAt(es, p, i);
    } else {
      assert at[0] in at;
      assert RemoteAt(es, p, at[0]);
    }
  }

  /** In a table without duplicate keys no address is listed twice for one port. */
  lemma {:induction false} RemoteNoDuplicates(es: seq<FdbEntry>, portNo: U16)
    requires Distinct(es)
    ensures forall k, l :: 0 <= k < l < |RemoteMacs(es, portNo)| ==>
        RemoteMacs(es, portNo)[k] != RemoteMacs(es, portNo)[l]
  {
    var at := RemoteEntriesPositions(es, portNo);
    DistinctPairwise(es);
    forall k, l | 0 <= k < l < |at| ensures RemoteMacs(es, portNo)[k] != RemoteMacs(es, portNo)[l] {
      assert !SameKey(es[at[k]], es[at[l]]);
      assert RemoteOn(es[at[k]], portNo) && RemoteOn(es[at[l]], portNo);
    }
  }

  // ---------------------------------------------------------------- ports partition the remote entries

  function NonLocal(es: seq<FdbEntry>): (r: seq<FdbEntry>)
    ensures |r| <= |es|
  {
    if es == [] then []
    else
      var rest := NonLocal(es[..|es| - 1]);
      if es[|es| - 1].isLocal == PORT_NOT_LOCAL then rest + [es[|es| - 1]] else rest
  }

  function Gather(es: seq<FdbEntry>, ports: seq<U16>): seq<FdbEntry> {
    if ports == [] then [] else RemoteEntries(es, ports[0]) + Gather(es, ports[1..])
  }

  predicate DistinctPorts(ports: seq<U16>) {
    forall i, j :: 0 <= i < j < |ports| ==> ports[i] != ports[j]
  }

  lemma {:induction false} GatherNone(es: seq<FdbEntry>, ports: seq<U16>)
    requires es == []
    ensures Gather(es, ports) == []
  {
    if ports != [] {
      GatherNone(es, ports[1..]);
    }
  }

  /** The last entry, as often as the query for one port adds it. */
  function IfOn(e: FdbEntry, portNo: U16): multiset<FdbEntry> {
    if RemoteOn(e, portNo) then multiset{e} else multiset{}
  }

  function IfOnAny(e: FdbEntry, ports: seq<U16>): multiset<FdbEntry> {
    if e.isLocal == PORT_NOT_LOCAL && e.portNo in ports then multiset{e} else multiset{}
  }

  lemma {:induction false} RemoteSnoc(es: seq<FdbEntry>, portNo: U16)
    requires es != []
    ensures multiset(RemoteEntries(es, portNo))
            == multiset(RemoteEntries(es[..|es| - 1], portNo)) + IfOn(es[|es| - 1], portNo)
  {
  }

  lemma {:induction false} IfOnFirst(e: FdbEntry, ports: seq<U16>)
    requires ports != [] && DistinctPorts(ports)
    ensures IfOnAny(e, ports) == IfOn(e, ports[0]) + IfOnAny(e, ports[1..])
  {
    assert ports == [ports[0]] + ports[1..];
  }

  lemma {:induction false} GatherCons(es: seq<FdbEntry>, ports: seq<U16>)
    requires ports != []
    ensures multiset(Gather(es, ports)) == multiset(RemoteEntries(es, ports[0])) + multiset(Gather(es, ports[1..]))
  {
    hide RemoteEntries;
  }

  lemma {:induction false} NoPorts(es: seq<FdbEntry>)
    ensures multiset(Gather(es, [])) == multiset{}
    ensures forall e :: IfOnAny(e, []) == multiset{}
  {
  }

  /** One more entry turns up once if its port is among the ports, and nowhere else. */
  lemma {:induction false} GatherSnoc(es: seq<FdbEntry>, ports: seq<U16>)
    requires es != [] && DistinctPorts(ports)
    ensures var e := es[|es| - 1];
            multiset(Gather(es, ports)) == multiset(Gather(es[..|es| - 1], ports)) + IfOnAny(e, ports)
  {
    hide RemoteEntries, Gather, IfOn, IfOnAny;
    if ports == [] {
      NoPorts(es);
      NoPorts(es[..|es| - 1]);
      assert IfOnAny(es[|es| - 1], ports) == multiset{};
    } else {
      var before, e := es[..|es| - 1], es[|es| - 1];
      GatherSnoc(es, ports[1..]);
      GatherCons(es, ports);
      GatherCons(before, ports);
      RemoteSnoc(es, ports[0]);
      IfOnFirst(e, ports);
    }
  }

  predicate Covers(ports: seq<U16>, es: seq<FdbEntry>) {
    forall i :: 0 <= i < |es| && es[i].isLocal == PORT_NOT_LOCAL ==> es[i].portNo in ports
  }

  lemma {:induction false} CoversSnoc(ports: seq<U16>, es: seq<FdbEntry>, e: FdbEntry)
    ensures Covers(ports, es + [e]) <==> Covers(ports, es) && (e.isLocal == PORT_NOT_LOCAL ==> e.portNo in ports)
  {
    assert (es + [e])[|es|] == e;
    assert forall i :: 0 <= i < |es| ==> (es + [e])[i] == es[i];
  }

  lemma {:induction false} NonLocalSnoc(es: seq<FdbEntry>, e: FdbEntry)
    ensures multiset(NonLocal(es + [e]))
            == multiset(NonLocal(es)) + (if e.isLocal == PORT_NOT_LOCAL then multiset{e} else multiset{})
  {
    assert (es + [e])[..|es|] == es;
  }

  lemma {:induction false} OneMore<T>(a: multiset<T>, b: multiset<T>, x: T)
    requires a <= b
    ensures a + multiset{x} == b + multiset{x} <==> a == b
    ensures a != b + multiset{x}
  {
    assert (a + multiset{x})[x] == a[x] + 1;
    assert (a + multiset{x}) - multiset{x} == a && (b + multiset{x}) - multiset{x} == b;
    assert (b + multiset{x})[x] == b[x] + 1;
  }

  /**
    Distinct ports never list an entry twice; they list every remote entry exactly when each
    one's port is among them.
   */
  lemma {:induction false} PortsPartition(es: seq<FdbEntry>, ports: seq<U16>)
    requires DistinctPorts(ports)
    ensures multiset(Gather(es, ports)) <= multiset(NonLocal(es))
    ensures multiset(Gather(es, ports)) == multiset(NonLocal(es)) <==> Covers(ports, es)
  {
    if es == [] {
      GatherNone(es, ports);
    } else {
      var before, e := es[..|es| - 1], es[|es| - 1];
      assert es == before + [e];
      PortsPartition(before, ports);
      GatherSnoc(es, ports);
      NonLocalSnoc(before, e);
      CoversSnoc(ports, before, e);
      OneMore(multiset(Gather(before, ports)), multiset(NonLocal(before)), e);
    }
  }

  lemma {:induction false} GatherSize(es: seq<FdbEntry>, ports: seq<U16>)
    requires DistinctPorts(ports)
    ensures |Gather(es, ports)| <= |NonLocal(es)| <= |es|
  {
    PortsPartition(es, ports);
    var a, b := multiset(Gather(es, ports)), multiset(NonLocal(es));
    assert b == a + (b - a);
    assert |b| == |a| + |b - a|;
  }

  // ---------------------------------------------------------------- reading into a table

  function AddedTo(t: Table, news: seq<FdbEntry>): Table {
    if t.Table? then Table(t.size, AddAll(t.entries, news)) else t
  }

  lemma {:induction false} AddNothing(es: seq<FdbEntry>, news: seq<FdbEntry>)
    ensures AddAll(es, news[..0]) == es
  {
  }

  lemma {:induction false} AddOneMore(t: Table, news: seq<FdbEntry>, i: nat)
    requires t.Table? && i < |news|
    ensures Legal(AddedTo(t, news[..i]), Op.Add(news[i]))
    ensures AddedTo(t, news[..i + 1]) == Step(AddedTo(t, news[..i]), Op.Add(news[i]))
  {
    hide Added;
    assert news[..i + 1][..i] == news[..i];
  }

  // ---------------------------------------------------------------- the table in memory

  predicate AllZero(es: seq<FdbEntry>) {
    es == [] || (es[0] == ZERO_ENTRY && AllZero(es[1..]))
  }

  lemma {:induction false} AllZeroIs(es: seq<FdbEntry>)
    ensures AllZero(es)
            <==> forall i :: 0 <= i < |es| ==> es[i] == FdbEntry([0, 0, 0, 0, 0, 0], 0, 0, Timeval(0, 0))
  {
    if es != [] {
      AllZeroIs(es[1..]);
      assert forall i :: 0 < i < |es| ==> es[i] == es[1..][i - 1];
    }
  }

  class ForwardingTable {
    const list: array<FdbEntry>
    var num: int
    var size: int

    function Count(): nat
      reads this
    {
      if num < 0 then 0 else num
    }

    /** Unallocated, or within capacity; nothing but zeroes behind the entries; no key twice. */
    ghost predicate Valid()
      reads this, list
    {
      && list.Length == MAX_FDB_ENTRY_SIZE
      && ((num == FDB_ENTRY_LIST_INVALID && size == FDB_ENTRY_LIST_INVALID)
          || (0 <= num <= MAX_FDB_ENTRY_SIZE && 1 <= size <= MAX_FDB_ENTRY_SIZE))
      && AllZero(list[Count()..])
      && Distinct(list[..Count()])
    }

    ghost function Entries(): seq<FdbEntry>
      requires Valid()
      reads this, list
    {
      list[..Count()]
    }

    ghost function View(): (t: Table)
      requires Valid()
      reads this, list
      ensures TableOk(t)
    {
      if num == FDB_ENTRY_LIST_INVALID then Unallocated else Table(size, Entries())
    }

    /** Program start. */
    constructor ()
      ensures Valid() && View() == Unallocated && fresh(list)
    {
      list := new FdbEntry[MAX_FDB_ENTRY_SIZE](_ => ZERO_ENTRY);
      num := FDB_ENTRY_LIST_INVALID;
      size := FDB_ENTRY_LIST_INVALID;
      new;
      AllZeroIs(list[0..]);
    }

    method SetNum(n: int) returns (ok: bool)
      modifies this`num
      ensures ok <==> 0 <= n <= MAX_FDB_ENTRY_SIZE
      ensures num == if ok then n else old(num)
    {
      if n <= FDB_ENTRY_LIST_INVALID || n > MAX_FDB_ENTRY_SIZE {
        return false;
      }
      num := n;
      ok := true;
    }

    method SetSize(n: int) returns (ok: bool)
      modifies this`size
      ensures ok <==> 0 <= n <= MAX_FDB_ENTRY_SIZE
      ensures size == if ok then n else old(size)
    {
      if n <= FDB_ENTRY_LIST_INVALID || n > MAX_FDB_ENTRY_SIZE {
        return false;
      }
      size := n;
      ok := true;
    }

    method Clear()
      modifies list
      ensures AllZero(list[0..])
    {
      forall i | 0 <= i < list.Length {
        list[i] := ZERO_ENTRY;
      }
      AllZeroIs(list[0..]);
    }

    method Malloc(n: int) returns (ok: bool)
      requires Valid()
      modifies this, list
      ensures Valid() && View() == Step(old(View()), Op.Malloc(n))
      ensures ok <==> 1 <= n <= 256
      ensures View() == if ok then Table(n, []) else old(View())
    {
      if n < 1 || n > MAX_FDB_ENTRY_SIZE {
        return false;
      }
      Clear();
      ok := SetNum(0);
      if ok {
        ok := SetSize(n);
      }
    }

    method Free()
      requires Valid()
      modifies this, list
      ensures Valid() && View() == Step(old(View()), Op.Free) == Unallocated
    {
      Clear();
      num := FDB_ENTRY_LIST_INVALID;
      size := FDB_ENTRY_LIST_INVALID;
    }

    method Exist(e: FdbEntry) returns (r: bool)
      requires Valid()
      ensures r <==> Has(Entries(), e)
      ensures r <==> exists i :: 0 <= i < |Entries()| && Entries()[i].macaddr == e.macaddr
                                 && Entries()[i].portNo == e.portNo
    {
      var i := 0;
      while i < num
        invariant 0 <= i <= Count()
        invariant forall k :: 0 <= k < i ==> !SameKey(list[k], e)
      {
        if EtherAddrCmp(list[i].macaddr, e.macaddr) && list[i].portNo == e.portNo {
          assert SameKey(Entries()[i], e);
          return true;
        }
        i := i + 1;
      }
      r := false;
    }

    method Add(e: FdbEntry) returns (ok: bool)
      requires Valid() && View().Table?
      modifies this, list
      ensures Valid() && View() == Step(old(View()), Op.Add(e))
      ensures ok <==> |old(Entries())| < 256 && !Has(old(Entries()), e)
      ensures View() == Table(old(size), if ok then old(Entries()) + [e] else old(Entries()))
    {
      var n := num;
      if n >= MAX_FDB_ENTRY_SIZE {
        return false;
      }
      var exists_ := Exist(e);
      if exists_ {
        return false;
      }
      AddedKeeps(Entries(), e);
      ghost var zeroes := list[n..];
      list[n] := e;
      ok := SetNum(n + 1);
      assert list[n + 1..] == zeroes[1..];
      assert list[..n] == old(Entries());
      assert list[..n + 1] == old(Entries()) + [e];
    }

    method GetPortno(macaddr: Mac) returns (r: U16)
      requires Valid()
      ensures r == PortOf(Entries(), macaddr)
    {
      var i := 0;
      while i < num
        invariant 0 <= i <= Count()
        invariant NoLocalBelow(Entries(), macaddr, i)
      {
        if EtherAddrCmp(list[i].macaddr, macaddr) && list[i].isLocal == PORT_IS_LOCAL {
          PortOfFirstLocal(Entries(), macaddr, i);
          return list[i].portNo;
        }
        i := i + 1;
      }
      PortOfNone(Entries(), macaddr);
      r := FDB_ENTRY_PORT_INVALID;
    }

    /** Fills the front of the caller's array; what lies behind it stays. */
    method RemoteByPort(portNo: U16, macaddrs: array<Mac>) returns (c: nat)
      requires Valid() && macaddrs.Length == MAX_FDB_ENTRY_SIZE
      modifies macaddrs
      ensures Valid() && View() == old(View()) && Entries() == old(Entries())
      ensures c <= MAX_FDB_ENTRY_SIZE
      ensures macaddrs[..c] == RemoteMacs(Entries(), portNo)
      ensures macaddrs[c..] == old(macaddrs[c..])
    {
      hide RemoteMacs, Distinct, AllZero;
      c := 0;
      var i := 0;
      ghost var es := Entries();
      NoRemoteMacs(es, portNo);
      while i < num
        invariant 0 <= i <= Count() && c <= i
        invariant Valid() && Entries() == es
        invariant macaddrs[..c] == RemoteMacs(es[..i], portNo)
        invariant forall k :: c <= k < macaddrs.Length ==> macaddrs[k] == old(macaddrs[k])
      {
        OneMoreRemoteMac(es, portNo, i);
        assert list[i] == es[i];
        if list[i].portNo == portNo && list[i].isLocal == PORT_NOT_LOCAL {
          ghost var before := macaddrs[..c];
          macaddrs[c] := list[i].macaddr;
          assert macaddrs[..c] == before;
          assert macaddrs[..c + 1] == before + [es[i].macaddr];
          c := c + 1;
        }
        i := i + 1;
      }
      assert es[..i] == es;
    }

    method RemoteByMac(macaddr: Mac, macaddrs: array<Mac>) returns (c: nat)
      requires Valid() && macaddrs.Length == MAX_FDB_ENTRY_SIZE
      modifies macaddrs
      ensures Valid() && View() == old(View()) && Entries() == old(Entries())
      ensures c <= MAX_FDB_ENTRY_SIZE
      ensures macaddrs[..c] == RemoteOf(Entries(), macaddr)
      ensures macaddrs[c..] == old(macaddrs[c..])
    {
      var portNo := GetPortno(macaddr);
      if portNo == FDB_ENTRY_PORT_INVALID {
        return 0;
      }
      c := RemoteByPort(portNo, macaddrs);
    }

    /**
      Refused entries only cause a message; the count returned is the number read. The table must be
      allocated only when there is something to add.
     */
    method ReadFdb(file: Forwarding) returns (n: int)
      requires Valid()
      requires file.Some? && file.value != [] ==> View().Table?
      modifies this, list
      ensures Valid()
      ensures file.None? ==> n == -1 && View() == old(View())
      ensures file.Some? ==> n == |Readable(file.value)|
      ensures file.Some? && View().Unallocated? ==> View() == old(View())
      ensures file.Some? && old(View()).Table? ==>
                View() == Table(old(View()).size, AddAll(old(View()).entries, Copied(Readable(file.value))))
    {
      hide Distinct, AllZero, AddAll, Copied, Step;
      if file.None? {
        return -1;
      }
      var fe := Readable(file.value);
      n := |fe|;
      ghost var t0, news := View(), Copied(fe);
      var i := 0;
      AddNothing(EntriesOf(t0), news);
      while i < n
        invariant 0 <= i <= n
        invariant Valid() && View() == AddedTo(t0, news[..i])
      {
        AddOneMore(t0, news, i);
        var ok := Add(CopyFdb(fe[i]));
        i := i + 1;
      }
      assert news[..n] == news;
    }

    method LoadFdb(file: Forwarding, n: int) returns (ok: bool)
      requires Valid()
      modifies this, list
      ensures Valid() && View() == Step(old(View()), Op.Load(file, n))
      ensures ok <==> 1 <= n <= 256 && file.Some?
      ensures ok ==> var es := Copied(Readable(file.value)); View() == Table(n, FirstOccurrences(es, |es|))
      ensures !ok ==> View() == if 1 <= n <= 256 then Table(n, []) else Unallocated
    {
      Free();
      ok := Malloc(n);
      if !ok {
        return;
      }
      var read := ReadFdb(file);
      ok := read != -1;
      if ok {
        LoadIsDeduplication(file.value, n);
      }
    }
  }
}
