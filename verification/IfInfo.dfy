/**
  The table of network interfaces: an allocated list of at most 20 records found by name,
  filled from the readings of one scan.
 */
module IfInfo {
  import opened Common
  import opened Positions

  const IFINFO_LIST_MAX_SIZE: nat := 20
  const IFINFO_LIST_INVALID: int := -1
  const IFNAMSIZ: nat := 16
  const INET6_ADDRSTRLEN: nat := 46

  // ---------------------------------------------------------------- names

  function Zeros(n: nat): (r: seq<Byte>)
    ensures |r| == n
    ensures forall i :: 0 <= i < n ==> r[i] == 0
  {
    if n == 0 then [] else [0] + Zeros(n - 1)
  }

  /** A name field: a C string padded or cut to IFNAMSIZ bytes. */
  type Name = s: seq<Byte> | |s| == IFNAMSIZ witness Zeros(IFNAMSIZ)

  type AddrText = s: seq<Byte> | |s| == INET6_ADDRSTRLEN witness Zeros(INET6_ADDRSTRLEN)

  /** The string in a field: everything before the first NUL. Its length is strlen. */
  function CStr(s: seq<Byte>): (r: seq<Byte>)
    ensures |r| <= |s|
  {
    if s == [] || s[0] == 0 then [] else [s[0]] + CStr(s[1..])
  }

  lemma {:induction false} CStrStopsAtNul(s: seq<Byte>)
    ensures CStr(s) == s[..|CStr(s)|] && 0 !in CStr(s)
    ensures |CStr(s)| < |s| ==> s[|CStr(s)|] == 0
  {
    if s != [] && s[0] != 0 {
      CStrStopsAtNul(s[1..]);
    }
  }

  /** strlen stays inside the field. */
  predicate Terminated(name: Name) {
    |CStr(name)| < IFNAMSIZ
  }

  /** strncmp(a, b, IFNAMSIZ) == 0, from byte `i` on. */
  predicate StrncmpZero(a: Name, b: Name, i: nat)
    requires i <= IFNAMSIZ
    decreases IFNAMSIZ - i
  {
    i == IFNAMSIZ || (a[i] == b[i] && (a[i] == 0 || StrncmpZero(a, b, i + 1)))
  }

  lemma {:induction false} StrncmpFrom(a: Name, b: Name, i: nat)
    requires i <= IFNAMSIZ
    ensures StrncmpZero(a, b, i) <==> CStr(a[i..]) == CStr(b[i..])
    decreases IFNAMSIZ - i
  {
    if i < IFNAMSIZ {
      StrncmpFrom(a, b, i + 1);
      assert a[i..][1..] == a[i + 1..] && b[i..][1..] == b[i + 1..];
      assert a[i] != 0 ==> CStr(a[i..]) == [a[i]] + CStr(a[i + 1..]);
      assert b[i] != 0 ==> CStr(b[i..]) == [b[i]] + CStr(b[i + 1..]);
      assert ([a[i]] + CStr(a[i + 1..]))[1..] == CStr(a[i + 1..]);
      assert ([b[i]] + CStr(b[i + 1..]))[1..] == CStr(b[i + 1..]);
    }
  }

  /** Comparing name fields compares the strings in them, whatever lies behind the NUL. */
  lemma {:induction false} StrncmpIsStringEquality(a: Name, b: Name)
    ensures StrncmpZero(a, b, 0) <==> CStr(a) == CStr(b)
  {
    StrncmpFrom(a, b, 0);
    assert a[0..] == a && b[0..] == b;
  }

  /** strncpy into a zeroed field. */
  function Padded(s: seq<Byte>): Name {
    if |s| >= IFNAMSIZ then s[..IFNAMSIZ] else s + Zeros(IFNAMSIZ - |s|)
  }

  /** The bytes of a name field: the string, cut to the field, and NULs behind it. */
  predicate NameField(field: Name, s: seq<Byte>) {
    forall i :: 0 <= i < 16 ==> field[i] == if i < |s| then s[i] else 0
  }

  lemma {:induction false} PaddedField(s: seq<Byte>)
    ensures NameField(Padded(s), s)
  {
  }

  lemma {:induction false} CStrOf(s: seq<Byte>, rest: seq<Byte>)
    requires 0 !in s && (rest == [] || rest[0] == 0)
    ensures CStr(s + rest) == s
  {
    if s == [] {
      assert s + rest == rest;
    } else {
      assert (s + rest)[1..] == s[1..] + rest;
      CStrOf(s[1..], rest);
    }
  }

  /** A copied name is NUL-terminated and intact exactly when it is shorter than the field. */
  lemma {:induction false} PaddedTerminated(s: seq<Byte>)
    requires 0 !in s
    ensures Terminated(Padded(s)) <==> |s| < IFNAMSIZ
    ensures |s| <= IFNAMSIZ ==> CStr(Padded(s)) == s
  {
    if |s| >= IFNAMSIZ {
      CStrOf(s[..IFNAMSIZ], []);
      assert s[..IFNAMSIZ] + [] == s[..IFNAMSIZ];
      assert |s| == IFNAMSIZ ==> s[..IFNAMSIZ] == s;
    } else {
      CStrOf(s, Zeros(IFNAMSIZ - |s|));
    }
  }

  /** The string in a copied name: all of it, or its first sixteen bytes. */
  lemma {:induction false} PaddedString(s: seq<Byte>)
    requires 0 !in s
    ensures CStr(Padded(s)) == if |s| <= 16 then s else s[..16]
  {
    if |s| > 16 {
      CStrOf(s[..16], []);
      assert s[..16] + [] == s[..16];
    } else {
      PaddedTerminated(s);
    }
  }

  // ---------------------------------------------------------------- records

  datatype IfInfo = IfInfo(
    fd: int, ifname: Name, ipaddr: AddrText, netmask: AddrText, macaddr: Mac, iftype: U32, portNo: U16)

  /** A record with a name and nothing else. */
  function Blank(name: Name): IfInfo {
    IfInfo(0, name, Zeros(INET6_ADDRSTRLEN), Zeros(INET6_ADDRSTRLEN), ZERO_MAC, 0, 0)
  }

  function ZeroRecord(): IfInfo {
    Blank(Zeros(IFNAMSIZ))
  }

  /** The name, and every other byte zero. */
  predicate NothingBut(e: IfInfo, name: Name) {
    && e.ifname == name && e.fd == 0 && e.iftype == 0 && e.portNo == 0 && e.macaddr == [0, 0, 0, 0, 0, 0]
    && forall i :: 0 <= i < INET6_ADDRSTRLEN ==> e.ipaddr[i] == 0 && e.netmask[i] == 0
  }

  lemma {:induction false} BlankIsZero(name: Name)
    ensures NothingBut(Blank(name), name)
  {
  }

  /** Position of the first record of a name, or -1. */
  function Find(es: seq<IfInfo>, name: Name): (r: int)
    ensures -1 <= r < |es|
  {
    if es == [] then -1
    else if CStr(es[0].ifname) == CStr(name) then 0
    else
      var r := Find(es[1..], name);
      if r < 0 then -1 else r + 1
  }

  predicate NameBelow(es: seq<IfInfo>, name: Name, n: nat)
    requires n <= |es|
  {
    exists i :: 0 <= i < n && CStr(es[i].ifname) == CStr(name)
  }

  /** Find is characterised by what lies at and before its result. */
  lemma {:induction false} FindMeaning(es: seq<IfInfo>, name: Name)
    ensures var r := Find(es, name);
            if r < 0 then !NameBelow(es, name, |es|)
            else CStr(es[r].ifname) == CStr(name) && !NameBelow(es, name, r)
  {
    if es != [] {
      FindMeaning(es[1..], name);
      assert forall i :: 0 < i < |es| ==> es[i] == es[1..][i - 1];
    }
  }

  lemma {:induction false} NoNameBelow(es: seq<IfInfo>, name: Name)
    ensures !NameBelow(es, name, 0)
  {
  }

  lemma {:induction false} NameBelowStep(es: seq<IfInfo>, name: Name, n: nat)
    requires n < |es| && !NameBelow(es, name, n) && CStr(es[n].ifname) != CStr(name)
    ensures !NameBelow(es, name, n + 1)
  {
    hide CStr;
  }

  lemma {:induction false} FindIs(es: seq<IfInfo>, name: Name, k: nat)
    requires k <= |es| && !NameBelow(es, name, k)
    requires k < |es| ==> CStr(es[k].ifname) == CStr(name)
    ensures Find(es, name) == if k < |es| then k else -1
  {
    FindMeaning(es, name);
  }

  predicate AllZero(es: seq<IfInfo>) {
    es == [] || (es[0] == ZeroRecord() && AllZero(es[1..]))
  }

  lemma {:induction false} AllZeroIs(es: seq<IfInfo>)
    ensures AllZero(es) <==> forall i :: 0 <= i < |es| ==> es[i] == ZeroRecord()
  {
    if es != [] {
      AllZeroIs(es[1..]);
      assert forall i :: 0 < i < |es| ==> es[i] == es[1..][i - 1];
    }
  }

  /** Every record was new to the records before it. */
  predicate DistinctNames(es: seq<IfInfo>) {
    es == [] || (DistinctNames(es[..|es| - 1]) && Find(es[..|es| - 1], es[|es| - 1].ifname) < 0)
  }

  predicate NamesDiffer(es: seq<IfInfo>) {
    forall i, j :: 0 <= i < j < |es| ==> CStr(es[i].ifname) != CStr(es[j].ifname)
  }

  /** That is: no two records have the same name. */
  lemma {:induction false} DistinctNamesPairwise(es: seq<IfInfo>)
    ensures DistinctNames(es) <==> NamesDiffer(es)
  {
    if es != [] {
      var before, e := es[..|es| - 1], es[|es| - 1];
      DistinctNamesPairwise(before);
      FindMeaning(before, e.ifname);
      assert forall i :: 0 <= i < |before| ==> before[i] == es[i];
    }
  }

  // ---------------------------------------------------------------- an insertion-ordered map

  /** The names, oldest first. */
  function Keys(es: seq<IfInfo>): (r: seq<seq<Byte>>)
    ensures |r| == |es|
    ensures forall i :: 0 <= i < |es| ==> r[i] == CStr(es[i].ifname)
  {
    seq(|es|, i requires 0 <= i < |es| => CStr(es[i].ifname))
  }

  /** The table as a finite map from name to record. */
  function ToMap(es: seq<IfInfo>): map<seq<Byte>, IfInfo> {
    if es == [] then map[]
    else ToMap(es[..|es| - 1])[CStr(es[|es| - 1].ifname) := es[|es| - 1]]
  }

  lemma {:induction false} ToMapLookup(es: seq<IfInfo>, key: seq<Byte>)
    requires DistinctNames(es)
    ensures key in ToMap(es) <==> exists i :: 0 <= i < |es| && CStr(es[i].ifname) == key
    ensures forall i :: 0 <= i < |es| && CStr(es[i].ifname) == key ==> key in ToMap(es) && ToMap(es)[key] == es[i]
  {
    if es != [] {
      ToMapLookup(es[..|es| - 1], key);
      DistinctNamesPairwise(es);
    }
  }

  /** First-match search is the map's lookup. */
  lemma {:induction false} FindIsLookup(es: seq<IfInfo>, name: Name)
    requires DistinctNames(es)
    ensures CStr(name) in ToMap(es) <==> Find(es, name) >= 0
    ensures Find(es, name) >= 0 ==> ToMap(es)[CStr(name)] == es[Find(es, name)]
  {
    ToMapLookup(es, CStr(name));
    FindMeaning(es, name);
  }

  lemma {:induction false} AppendKeepsNames(es: seq<IfInfo>, e: IfInfo)
    requires DistinctNames(es) && Find(es, e.ifname) < 0
    ensures DistinctNames(es + [e])
  {
    assert (es + [e])[..|es|] == es;
  }

  /** Adding a record whose name is new inserts one key, behind the others. */
  lemma {:induction false} AppendIsInsert(es: seq<IfInfo>, e: IfInfo)
    requires DistinctNames(es) && Find(es, e.ifname) < 0
    ensures CStr(e.ifname) !in ToMap(es)
    ensures ToMap(es + [e]) == ToMap(es)[CStr(e.ifname) := e]
    ensures Keys(es + [e]) == Keys(es) + [CStr(e.ifname)]
  {
    hide CStr, Find;
    FindIsLookup(es, e.ifname);
    assert (es + [e])[..|es|] == es;
  }

  lemma {:induction false} UpdateKeepsNames(es: seq<IfInfo>, i: nat, e: IfInfo)
    requires DistinctNames(es) && i < |es| && e.ifname == es[i].ifname
    ensures DistinctNames(es[i := e]) && Keys(es[i := e]) == Keys(es)
  {
    DistinctNamesPairwise(es);
    assert forall j :: 0 <= j < |es| ==> es[i := e][j].ifname == es[j].ifname;
    DistinctNamesPairwise(es[i := e]);
  }

  /** Changing a record without renaming it changes that key's value, no other key and no order. */
  lemma {:induction false} UpdateIsOverwrite(es: seq<IfInfo>, i: nat, e: IfInfo)
    requires DistinctNames(es) && i < |es| && e.ifname == es[i].ifname
    ensures DistinctNames(es[i := e]) && Keys(es[i := e]) == Keys(es)
    ensures ToMap(es[i := e]) == ToMap(es)[CStr(e.ifname) := e]
    decreases |es|
  {
    hide CStr, Find;
    UpdateKeepsNames(es, i, e);
    DistinctNamesPairwise(es);
    var before, n := es[..|es| - 1], |es| - 1;
    if i < n {
      UpdateIsOverwrite(before, i, e);
      DistinctNamesPairwise(before);
      assert es[i := e][..n] == before[i := e];
      assert CStr(es[n].ifname) != CStr(e.ifname);
    } else {
      assert es[i := e][..n] == before;
    }
  }

  // ---------------------------------------------------------------- the abstract table

  /**
    Closed: not allocated. Refused: an allocation of size -1, which the size check lets pass,
    set the count to 0 and then failed.
   */
  datatype IfTable = Closed | Refused | Open(size: nat, entries: seq<IfInfo>)

  predicate IfTableOk(t: IfTable) {
    t.Open? ==> |t.entries| <= t.size <= IFINFO_LIST_MAX_SIZE && DistinctNames(t.entries)
  }

  function MallocIfTable(t: IfTable, size: int): IfTable {
    if size < IFINFO_LIST_INVALID || size > IFINFO_LIST_MAX_SIZE then t
    else if size == IFINFO_LIST_INVALID then Refused
    else Open(size, [])
  }

  predicate CanAdd(t: IfTable, name: Name) {
    t.Open? && Find(t.entries, name) < 0 && |t.entries| < t.size
  }

  function AddName(t: IfTable, name: Name): IfTable {
    if CanAdd(t, name) then Open(t.size, t.entries + [Blank(name)]) else t
  }

  function EntriesOf(t: IfTable): seq<IfInfo> {
    if t.Open? then t.entries else []
  }

  /** The record of a name replaced by `e`; nothing happens when there is none. */
  function Put(t: IfTable, name: Name, e: IfInfo): IfTable {
    var i := Find(EntriesOf(t), name);
    if i < 0 then t else Open(t.size, t.entries[i := e])
  }

  /** The first record of the name is now `e`, and nothing else is different. */
  predicate Changed(t: IfTable, t': IfTable, name: Name, e: IfInfo) {
    && t.Open? && t'.Open? && t'.size == t.size && |t'.entries| == |t.entries|
    && Find(t.entries, name) >= 0
    && forall i :: 0 <= i < |t.entries| ==> t'.entries[i] == if i == Find(t.entries, name) then e else t.entries[i]
  }

  lemma {:induction false} PutChanges(t: IfTable, name: Name, e: IfInfo)
    requires Find(EntriesOf(t), name) >= 0
    ensures Changed(t, Put(t, name, e), name, e)
  {
  }

  // ---------------------------------------------------------------- every run

  /** What can be done to the table; a setter changes any field but the name. */
  datatype Op = Malloc(size: int) | Free | Add(name: Name) | Set(name: Name, change: IfInfo)

  function Step(t: IfTable, op: Op): IfTable {
    match op
    case Malloc(size) => MallocIfTable(t, size)
    case Free => Closed
    case Add(name) => AddName(t, name)
    case Set(name, change) =>
      var i := Find(EntriesOf(t), name);
      if i < 0 then t else Put(t, name, change.(ifname := t.entries[i].ifname))
  }

  function Run(t: IfTable, ops: seq<Op>): IfTable
    decreases |ops|
  {
    if ops == [] then t else Run(Step(t, ops[0]), ops[1..])
  }

  lemma {:induction false} StepOk(t: IfTable, op: Op)
    requires IfTableOk(t)
    ensures IfTableOk(Step(t, op))
  {
    hide Find, CStr, Blank;
    match op
    case Add(name) =>
      if CanAdd(t, name) {
        BlankName(name);
        AppendKeepsNames(t.entries, Blank(name));
      }
    case Set(name, change) =>
      var i := Find(EntriesOf(t), name);
      if i >= 0 {
        UpdateKeepsNames(t.entries, i, change.(ifname := t.entries[i].ifname));
      }
    case _ =>
  }

  lemma {:induction false} BlankName(name: Name)
    ensures Blank(name).ifname == name
  {
  }

  /** Whatever is done to the table, it stays within its size, that within 20, and no name occurs twice. */
  lemma {:induction false} EveryRunOk(t: IfTable, ops: seq<Op>)
    requires IfTableOk(t)
    ensures IfTableOk(Run(t, ops))
    decreases |ops|
  {
    hide Step, IfTableOk;
    if ops != [] {
      StepOk(t, ops[0]);
      EveryRunOk(Step(t, ops[0]), ops[1..]);
    }
  }

  /** A record just appended under a new name is the one its name finds. */
  lemma {:induction false} FoundLast(es: seq<IfInfo>, e: IfInfo)
    requires Find(es, e.ifname) < 0
    ensures Find(es + [e], e.ifname) == |es|
  {
    if es == [] {
      assert es + [e] == [e];
    } else {
      assert (es + [e])[1..] == es[1..] + [e];
      FoundLast(es[1..], e);
    }
  }

  /** Changing the record just appended, through its name. */
  lemma {:induction false} PutLast(size: nat, es: seq<IfInfo>, e: IfInfo, changed: IfInfo)
    requires Find(es, e.ifname) < 0
    ensures Find(es + [e], e.ifname) == |es|
    ensures Put(Open(size, es + [e]), e.ifname, changed) == Open(size, es + [changed])
  {
    FoundLast(es, e);
    assert (es + [e])[|es| := changed] == es + [changed];
  }

  /** With distinct names every record is the one its name finds. */
  lemma {:induction false} FoundAt(es: seq<IfInfo>, i: nat)
    requires DistinctNames(es) && i < |es|
    ensures Find(es, es[i].ifname) == i
  {
    DistinctNamesPairwise(es);
    FindIs(es, es[i].ifname, i);
  }

  // ---------------------------------------------------------------- one scan of the interfaces

  type CString = s: seq<Byte> | 0 !in s

  /** What the system says about one address record; `usable` is is_valid_ifaddr's answer. */
  datatype IfAddr = IfAddr(name: CString, usable: bool, hwaddr: Option<Mac>, ipaddr: AddrText, netmask: AddrText)

  function RecordOf(a: IfAddr): IfInfo
    requires a.hwaddr.Some?
  {
    Blank(Padded(a.name)).(macaddr := a.hwaddr.value, ipaddr := a.ipaddr, netmask := a.netmask)
  }

  /** The records a scan wants to store: usable ones whose hardware address could be read. */
  function Scanned(addrs: seq<IfAddr>): (r: seq<IfInfo>) {
    if addrs == [] then []
    else
      var before, a := Scanned(addrs[..|addrs| - 1]), addrs[|addrs| - 1];
      if a.usable && a.hwaddr.Some? then before + [RecordOf(a)] else before
  }

  /** The record holds what the system said, its name cut to the field, and nothing else yet. */
  predicate Stores(e: IfInfo, a: IfAddr) {
    && a.hwaddr == Some(e.macaddr) && e.ipaddr == a.ipaddr && e.netmask == a.netmask
    && NameField(e.ifname, a.name) && CStr(e.ifname) == (if |a.name| <= 16 then a.name else a.name[..16])
    && e.fd == 0 && e.iftype == 0 && e.portNo == 0
  }

  lemma {:induction false} RecordStores(a: IfAddr)
    requires a.hwaddr.Some?
    ensures Stores(RecordOf(a), a)
  {
    PaddedField(a.name);
    PaddedString(a.name);
  }

  predicate AllStored(recs: seq<IfInfo>, addrs: seq<IfAddr>, at: seq<nat>)
    requires Increasing(at, |addrs|)
  {
    |recs| == |at| && forall k :: 0 <= k < |at| ==> Stores(recs[k], addrs[at[k]])
  }

  lemma {:induction false} AllStoredStep(recs: seq<IfInfo>, addrs: seq<IfAddr>, was: seq<nat>, take: bool)
    requires addrs != [] && Increasing(was, |addrs| - 1) && AllStored(recs, addrs[..|addrs| - 1], was)
    requires take ==> addrs[|addrs| - 1].hwaddr.Some?
    ensures var n := |addrs| - 1;
            var at := if take then was + [n] else was;
            && Increasing(at, |addrs|)
            && AllStored(if take then recs + [RecordOf(addrs[n])] else recs, addrs, at)
  {
    hide Stores, RecordOf;
    var n := |addrs| - 1;
    var at := Extend(was, n, take);
    if take {
      RecordStores(addrs[n]);
    }
    var more := if take then recs + [RecordOf(addrs[n])] else recs;
    forall k | 0 <= k < |at| ensures Stores(more[k], addrs[at[k]]) {
      if k < |was| {
        assert more[k] == recs[k] && at[k] == was[k];
        assert Stores(recs[k], addrs[..n][was[k]]);
      }
    }
  }

  /** A scan keeps, in order, exactly the usable addresses whose hardware address could be read. */
  lemma {:induction false} ScannedPositions(addrs: seq<IfAddr>) returns (at: seq<nat>)
    ensures Increasing(at, |addrs|) && AllStored(Scanned(addrs), addrs, at)
    ensures forall i :: 0 <= i < |addrs| ==> (i in at <==> addrs[i].usable && addrs[i].hwaddr.Some?)
  {
    hide Stores, RecordOf, Increasing, AllStored;
    if addrs == [] {
      at := [];
      NothingStored(addrs);
    } else {
      var n, before := |addrs| - 1, addrs[..|addrs| - 1];
      var was := ScannedPositions(before);
      at := Extend(was, n, addrs[n].usable && addrs[n].hwaddr.Some?);
      assert forall i :: 0 <= i < n ==> before[i] == addrs[i];
      AllStoredStep(Scanned(before), addrs, was, addrs[n].usable && addrs[n].hwaddr.Some?);
    }
  }

  lemma {:induction false} NothingStored(addrs: seq<IfAddr>)
    requires addrs == []
    ensures Increasing([], |addrs|) && AllStored(Scanned(addrs), addrs, [])
  {
  }

  lemma {:induction false} ScannedPrefix(addrs: seq<IfAddr>, i: nat)
    requires i <= |addrs|
    ensures Scanned(addrs[..i]) <= Scanned(addrs)
    decreases |addrs|
  {
    if i < |addrs| {
      ScannedPrefix(addrs[..|addrs| - 1], i);
      assert addrs[..|addrs| - 1][..i] == addrs[..i];
    } else {
      assert addrs[..i] == addrs;
    }
  }

  /** How many of the records are stored before one is refused. */
  function Accepted(recs: seq<IfInfo>): (k: nat)
    ensures k <= |recs| && k <= IFINFO_LIST_MAX_SIZE
  {
    if recs == [] then 0
    else
      var k := Accepted(recs[..|recs| - 1]);
      if k == |recs| - 1 && k < IFINFO_LIST_MAX_SIZE && Find(recs[..k], recs[k].ifname) < 0 then k + 1 else k
  }

  /** A scan is stored completely exactly when it has at most 20 records with different names. */
  lemma {:induction false} AcceptedAll(recs: seq<IfInfo>)
    ensures Accepted(recs) == |recs| <==> |recs| <= IFINFO_LIST_MAX_SIZE && DistinctNames(recs)
  {
    if recs != [] {
      var k := |recs| - 1;
      AcceptedAll(recs[..k]);
    }
  }

  /** The first `k` have different names, and the next one has a name among them or finds no room. */
  predicate StopsAt(recs: seq<IfInfo>, k: nat) {
    && k <= |recs| && k <= 20 && DistinctNames(recs[..k])
    && (k < |recs| ==> k == 20 || NameBelow(recs, recs[k].ifname, k))
  }

  lemma {:induction false} NameBelowPrefix(recs: seq<IfInfo>, name: Name, k: nat, n: nat)
    requires k <= n <= |recs|
    ensures NameBelow(recs[..n], name, k) <==> NameBelow(recs, name, k)
  {
    hide CStr;
    assert forall i :: 0 <= i < n ==> recs[..n][i] == recs[i];
  }

  /** One record more does not move the stop, unless all before it were stored and it can be, too. */
  lemma {:induction false} StopsAfter(recs: seq<IfInfo>, k: nat)
    requires recs != [] && StopsAt(recs[..|recs| - 1], k)
    ensures var n := |recs| - 1;
            var more := k == n && k < 20 && Find(recs[..k], recs[n].ifname) < 0;
            StopsAt(recs, if more then k + 1 else k)
  {
    hide CStr, Find, NameBelow, DistinctNames;
    var n := |recs| - 1;
    assert recs[..n][..k] == recs[..k];
    if k == n {
      FindMeaning(recs[..k], recs[n].ifname);
      NameBelowPrefix(recs, recs[n].ifname, k, k);
      if k < 20 && Find(recs[..k], recs[n].ifname) < 0 {
        AppendKeepsNames(recs[..k], recs[k]);
        assert recs[..k + 1] == recs[..k] + [recs[k]];
      } else if k < 20 {
        FoundBelow(recs[..k], recs[n].ifname);
      }
    } else {
      NameBelowPrefix(recs, recs[k].ifname, k, n);
    }
  }

  lemma {:induction false} FoundBelow(es: seq<IfInfo>, name: Name)
    requires Find(es, name) >= 0
    ensures NameBelow(es, name, |es|)
  {
    hide CStr;
    FindMeaning(es, name);
  }

  /** What is stored has different names, and the first record refused has a name stored before or finds no room. */
  lemma {:induction false} AcceptedIs(recs: seq<IfInfo>)
    ensures StopsAt(recs, Accepted(recs))
  {
    hide CStr, Find, NameBelow, StopsAt;
    if recs == [] {
      NoneStored();
    } else {
      AcceptedIs(recs[..|recs| - 1]);
      StopsAfter(recs, Accepted(recs[..|recs| - 1]));
      StopBounded(recs[..|recs| - 1], Accepted(recs[..|recs| - 1]));
    }
  }

  lemma {:induction false} StopBounded(recs: seq<IfInfo>, k: nat)
    requires StopsAt(recs, k)
    ensures k <= |recs| && k <= 20
  {
  }

  lemma {:induction false} NoneStored()
    ensures StopsAt([], 0)
  {
  }

  /** After a refusal nothing more is stored. */
  lemma {:induction false} AcceptedStuck(recs: seq<IfInfo>, j: nat)
    requires j <= |recs| && Accepted(recs[..j]) < j
    ensures Accepted(recs) == Accepted(recs[..j])
  {
    if j < |recs| {
      assert recs[..|recs| - 1][..j] == recs[..j];
      AcceptedStuck(recs[..|recs| - 1], j);
    } else {
      assert recs[..j] == recs;
    }
  }

  /** Types are looked up by name; None stands for the invalid hardware type. */
  function WithType(e: IfInfo, iftypeOf: Name -> Option<U32>): IfInfo {
    match iftypeOf(e.ifname)
    case None => e
    case Some(t) => e.(iftype := t)
  }

  /** The first `k` records typed, the others as they were. */
  function TypedUpTo(es: seq<IfInfo>, iftypeOf: Name -> Option<U32>, k: nat): (r: seq<IfInfo>)
    ensures |r| == |es|
    ensures forall i :: 0 <= i < |es| ==> r[i] == if i < k then WithType(es[i], iftypeOf) else es[i]
    ensures forall i :: 0 <= i < |es| ==>
              var t := iftypeOf(es[i].ifname);
              r[i] == es[i].(iftype := if i < k && t.Some? then t.value else es[i].iftype)
  {
    seq(|es|, i requires 0 <= i < |es| => if i < k then WithType(es[i], iftypeOf) else es[i])
  }

  /** Position of the first record without a type, or the length. */
  function FirstUntyped(es: seq<IfInfo>, iftypeOf: Name -> Option<U32>): (k: nat)
    ensures k <= |es|
  {
    if es == [] || iftypeOf(es[0].ifname).None? then 0 else 1 + FirstUntyped(es[1..], iftypeOf)
  }

  predicate TypedBelow(es: seq<IfInfo>, iftypeOf: Name -> Option<U32>, k: nat)
    requires k <= |es|
  {
    forall i :: 0 <= i < k ==> iftypeOf(es[i].ifname).Some?
  }

  lemma {:induction false} FirstUntypedAt(es: seq<IfInfo>, iftypeOf: Name -> Option<U32>, k: nat)
    requires k <= |es| && TypedBelow(es, iftypeOf, k)
    requires k < |es| ==> iftypeOf(es[k].ifname).None?
    ensures FirstUntyped(es, iftypeOf) == k
  {
    if k > 0 {
      FirstUntypedAt(es[1..], iftypeOf, k - 1);
    }
  }

  function Opened(es: seq<IfInfo>, fdOf: Name -> int): (r: seq<IfInfo>)
    ensures |r| == |es|
    ensures forall i :: 0 <= i < |es| ==> r[i] == es[i].(fd := fdOf(es[i].ifname))
  {
    seq(|es|, i requires 0 <= i < |es| => es[i].(fd := fdOf(es[i].ifname)))
  }

  lemma {:induction false} AcceptStep(before: seq<IfInfo>, r: IfInfo)
    requires Accepted(before) == |before|
    ensures Accepted(before + [r])
            == |before| + (if CanAdd(Open(IFINFO_LIST_MAX_SIZE, before), r.ifname) then 1 else 0)
  {
    assert (before + [r])[..|before|] == before;
  }

  lemma {:induction false} ScanStep(all: seq<IfAddr>, i: nat)
    requires i < |all| && all[i].usable && all[i].hwaddr.Some?
    ensures Scanned(all[..i + 1]) == Scanned(all[..i]) + [RecordOf(all[i])]
  {
    assert all[..i + 1][..i] == all[..i];
  }

  lemma {:induction false} PrefixAccepted(recs: seq<IfInfo>, before: seq<IfInfo>, r: IfInfo)
    requires before + [r] <= recs && Accepted(before) == |before|
    requires !CanAdd(Open(IFINFO_LIST_MAX_SIZE, before), r.ifname)
    ensures Accepted(recs) == |before| && recs[..|before|] == before
  {
    AcceptStep(before, r);
    assert recs[..|before| + 1] == before + [r];
    AcceptedStuck(recs, |before| + 1);
    assert recs[..|before|] == recs[..|before| + 1][..|before|];
  }

  /** A refused record is the scan's last word. */
  lemma {:induction false} ScanRefused(all: seq<IfAddr>, i: nat)
    requires i < |all| && all[i].usable && all[i].hwaddr.Some?
    requires Accepted(Scanned(all[..i])) == |Scanned(all[..i])|
    requires !CanAdd(Open(IFINFO_LIST_MAX_SIZE, Scanned(all[..i])), RecordOf(all[i]).ifname)
    ensures Accepted(Scanned(all)) == |Scanned(all[..i])| < |Scanned(all)|
    ensures Scanned(all)[..|Scanned(all[..i])|] == Scanned(all[..i])
  {
    ScanStep(all, i);
    ScannedPrefix(all, i + 1);
    PrefixAccepted(Scanned(all), Scanned(all[..i]), RecordOf(all[i]));
  }

  lemma {:induction false} ScanNothing(all: seq<IfAddr>)
    ensures Scanned(all[..0]) == [] && Accepted(Scanned(all[..0])) == 0
  {
  }

  lemma {:induction false} ScanSkip(all: seq<IfAddr>, i: nat)
    requires i < |all| && !(all[i].usable && all[i].hwaddr.Some?)
    ensures Scanned(all[..i + 1]) == Scanned(all[..i])
  {
    assert all[..i + 1][..i] == all[..i];
  }

  /** The descriptors that are not negative, in list order. */
  function OpenDescriptors(es: seq<IfInfo>): seq<int> {
    if es == [] then []
    else
      var before, e := OpenDescriptors(es[..|es| - 1]), es[|es| - 1];
      if e.fd >= 0 then before + [e.fd] else before
  }

  function Descriptors(es: seq<IfInfo>): (r: seq<int>)
    ensures |r| == |es|
    ensures forall i :: 0 <= i < |es| ==> r[i] == es[i].fd
  {
    seq(|es|, i requires 0 <= i < |es| => es[i].fd)
  }

  lemma {:induction false} OpenDescriptorsStep(es: seq<IfInfo>)
    requires es != []
    ensures var n := |es| - 1;
            && Descriptors(es)[..n] == Descriptors(es[..n]) && Descriptors(es)[n] == es[n].fd
            && OpenDescriptors(es)
               == if es[n].fd >= 0 then OpenDescriptors(es[..n]) + [es[n].fd] else OpenDescriptors(es[..n])
  {
  }

  lemma {:induction false} NothingOpen(es: seq<IfInfo>)
    requires es == []
    ensures OpenDescriptors(es) == []
  {
  }

  /** Every descriptor that is not negative is closed once, in list order. */
  lemma {:induction false} OpenDescriptorsPositions(es: seq<IfInfo>) returns (at: seq<nat>)
    ensures Increasing(at, |es|) && Picks(OpenDescriptors(es), Descriptors(es), at)
    ensures forall i :: 0 <= i < |es| ==> (i in at <==> es[i].fd >= 0)
  {
    hide Increasing, Picks, Descriptors, OpenDescriptors;
    if es == [] {
      at := [];
      NothingOpen(es);
      NothingPicked(Descriptors(es));
    } else {
      var n, before := |es| - 1, es[..|es| - 1];
      var was := OpenDescriptorsPositions(before);
      at := Extend(was, n, es[n].fd >= 0);
      assert forall i :: 0 <= i < n ==> before[i] == es[i];
      OpenDescriptorsStep(es);
      PicksExtend(OpenDescriptors(before), Descriptors(es), was, es[n].fd >= 0);
    }
  }

  // ---------------------------------------------------------------- the table in memory

  class InterfaceTable {
    var list: array?<IfInfo>
    var num: int
    var size: int

    /** Not allocated; refused; or counted, with zeroed records behind and no name twice. */
    ghost predicate Valid()
      reads this, list
    {
      || (list == null && num == IFINFO_LIST_INVALID && size == IFINFO_LIST_INVALID)
      || (num == 0 && size == IFINFO_LIST_INVALID)
      || (&& list != null && list.Length == size
          && 0 <= num <= size <= IFINFO_LIST_MAX_SIZE
          && AllZero(list[num..])
          && DistinctNames(list[..num]))
    }

    ghost function View(): (t: IfTable)
      requires Valid()
      reads this, list
      ensures IfTableOk(t)
    {
      if num == IFINFO_LIST_INVALID then Closed
      else if size == IFINFO_LIST_INVALID then Refused
      else Open(size, list[..num])
    }

    ghost function Entries(): seq<IfInfo>
      requires Valid()
      reads this, list
    {
      EntriesOf(View())
    }

    constructor ()
      ensures Valid() && View() == Closed && list == null
    {
      list := null;
      num := IFINFO_LIST_INVALID;
      size := IFINFO_LIST_INVALID;
    }

    /** get_ifinfo_list_num: -1 when there is no list, and then nothing to loop over. */
    method GetNum() returns (n: int)
      requires Valid()
      ensures n == num && |Entries()| == if n < 0 then 0 else n
    {
      n := num;
    }

    /** get_ifinfo_list() + i, dereferenced. */
    method At(i: nat) returns (e: IfInfo)
      requires Valid() && i < |Entries()|
      ensures e == Entries()[i]
    {
      e := list[i];
    }

    method SetNum(n: int) returns (ok: bool)
      modifies this`num
      ensures ok <==> IFINFO_LIST_INVALID <= n <= IFINFO_LIST_MAX_SIZE
      ensures num == if ok then n else old(num)
    {
      ok := !(n < IFINFO_LIST_INVALID || n > IFINFO_LIST_MAX_SIZE);
      if ok {
        num := n;
      }
    }

    method SetSize(n: int) returns (ok: bool)
      modifies this`size
      ensures ok <==> IFINFO_LIST_INVALID <= n <= IFINFO_LIST_MAX_SIZE
      ensures size == if ok then n else old(size)
    {
      ok := !(n < IFINFO_LIST_INVALID || n > IFINFO_LIST_MAX_SIZE);
      if ok {
        size := n;
      }
    }

    method IncrementNum() returns (ok: bool)
      modifies this`num
      ensures ok <==> old(num) < size
      ensures num == old(num) + if ok then 1 else 0
    {
      if num >= size {
        return false;
      }
      num := num + 1;
      ok := true;
    }

    method Malloc(n: int) returns (ok: bool)
      requires Valid()
      modifies this
      ensures Valid() && View() == MallocIfTable(old(View()), n)
      ensures ok <==> 0 <= n <= IFINFO_LIST_MAX_SIZE
      ensures if ok then fresh(list) else list == old(list)
      ensures View() == if ok then Open(n, []) else if n == -1 then Refused else old(View())
    {
      ok := SetSize(n);
      if !ok {
        return;
      }
      ok := SetNum(0);
      if n < 0 {
        // the byte count wraps to more than any allocator can give
        return false;
      }
      list := new IfInfo[n](_ => ZeroRecord());
      AllZeroIs(list[..]);
      assert list[0..] == list[..];
    }

    method Free()
      requires Valid()
      modifies this
      ensures Valid() && View() == Closed && list == null
    {
      var ok := SetSize(IFINFO_LIST_INVALID);
      ok := SetNum(IFINFO_LIST_INVALID);
      if list != null {
        list := null;
      }
    }

    /** The position of the record found, or -1 for NULL. */
    method Search(name: Name) returns (r: int)
      requires Valid()
      ensures r == Find(Entries(), name)
    {
      hide CStr, StrncmpZero, Find, NameBelow, DistinctNames, AllZero;
      ghost var es := Entries();
      NoNameBelow(es, name);
      var i := 0;
      while i < num
        invariant 0 <= i <= |es|
        invariant !NameBelow(es, name, i)
      {
        assert list[i] == es[i];
        StrncmpIsStringEquality(name, list[i].ifname);
        if StrncmpZero(name, list[i].ifname, 0) {
          FindIs(es, name, i);
          return i;
        }
        NameBelowStep(es, name, i);
        i := i + 1;
      }
      FindIs(es, name, i);
      r := -1;
    }

    method GetEmpty() returns (r: int)
      requires Valid()
      ensures r == if View().Open? && num < size then num else -1
    {
      if num >= size {
        return -1;
      }
      r := num;
    }

    method SetIfname(name: Name) returns (ok: bool)
      requires Valid()
      modifies this`num, list
      ensures Valid() && View() == AddName(old(View()), name)
      ensures ok <==> CanAdd(old(View()), name)
      ensures ok <==> old(View()).Open? && |old(Entries())| < old(size)
                      && !NameBelow(old(Entries()), name, |old(Entries())|)
      ensures !ok ==> View() == old(View())
      ensures ok ==> View().Open? && View().size == old(size) && |Entries()| == |old(Entries())| + 1
                     && Entries()[..|old(Entries())|] == old(Entries())
                     && NothingBut(Entries()[|old(Entries())|], name)
    {
      hide Zeros, CStr, Find, DistinctNames, NothingBut;
      FindMeaning(Entries(), name);
      BlankIsZero(name);
      var found := Search(name);
      if found >= 0 {
        return false;
      }
      var slot := GetEmpty();
      if slot < 0 {
        return false;
      }
      AppendKeepsNames(Entries(), Blank(name));
      assert list[slot] == list[slot..][0];
      ok := IncrementNum();
      if !ok {
        return;
      }
      WriteSlot(slot, list[slot].(ifname := name));
    }

    /** A write to one slot: the slots in front and behind keep their records. */
    method WriteSlot(slot: nat, e: IfInfo)
      requires list != null && slot < list.Length
      modifies list
      ensures list[..slot + 1] == old(list[..slot]) + [e]
      ensures list[slot + 1..] == old(list[slot..])[1..]
    {
      list[slot] := e;
    }

    /** Fields of one record changed in place, never its name. */
    method PutAt(i: nat, e: IfInfo)
      requires Valid() && i < |Entries()| && e.ifname == Entries()[i].ifname
      modifies list
      ensures Valid() && View() == Open(size, old(Entries())[i := e])
    {
      ghost var es := Entries();
      UpdateKeepsNames(es, i, e);
      ghost var zeroes := list[num..];
      list[i] := e;
      assert list[num..] == zeroes;
      assert list[..num] == es[i := e];
    }

    method SetAddr(name: Name, ipaddr: AddrText, netmask: AddrText) returns (ok: bool)
      requires Valid()
      modifies list
      ensures Valid()
      ensures ok <==> Find(old(Entries()), name) >= 0
      ensures !ok ==> View() == old(View())
      ensures ok ==>
                var e := old(Entries())[Find(old(Entries()), name)];
                && View() == Put(old(View()), name, e.(ipaddr := ipaddr, netmask := netmask))
                && Changed(old(View()), View(), name, e.(ipaddr := ipaddr, netmask := netmask))
    {
      hide Changed, CStr, Find, DistinctNames, AllZero;
      var i := Search(name);
      if i < 0 {
        return false;
      }
      PutChanges(View(), name, list[i].(ipaddr := ipaddr, netmask := netmask));
      PutAt(i, list[i].(ipaddr := ipaddr, netmask := netmask));
      ok := true;
    }

    method SetHwaddr(name: Name, macaddr: Mac) returns (ok: bool)
      requires Valid()
      modifies list
      ensures Valid()
      ensures ok <==> Find(old(Entries()), name) >= 0
      ensures !ok ==> View() == old(View())
      ensures ok ==>
                var e := old(Entries())[Find(old(Entries()), name)].(macaddr := macaddr);
                View() == Put(old(View()), name, e) && Changed(old(View()), View(), name, e)
    {
      hide Changed, CStr, Find, DistinctNames, AllZero;
      var i := Search(name);
      if i < 0 {
        return false;
      }
      PutChanges(View(), name, list[i].(macaddr := macaddr));
      PutAt(i, list[i].(macaddr := macaddr));
      ok := true;
    }

    method SetIftype(name: Name, iftype: U32) returns (ok: bool)
      requires Valid()
      modifies list
      ensures Valid()
      ensures ok <==> Find(old(Entries()), name) >= 0
      ensures !ok ==> View() == old(View())
      ensures ok ==>
                var e := old(Entries())[Find(old(Entries()), name)].(iftype := iftype);
                View() == Put(old(View()), name, e) && Changed(old(View()), View(), name, e)
    {
      hide Changed, CStr, Find, DistinctNames, AllZero;
      var i := Search(name);
      if i < 0 {
        return false;
      }
      PutChanges(View(), name, list[i].(iftype := iftype));
      PutAt(i, list[i].(iftype := iftype));
      ok := true;
    }

    method SetPortno(name: Name, portNo: U16) returns (ok: bool)
      requires Valid()
      modifies list
      ensures Valid()
      ensures ok <==> Find(old(Entries()), name) >= 0
      ensures !ok ==> View() == old(View())
      ensures ok ==>
                var e := old(Entries())[Find(old(Entries()), name)].(portNo := portNo);
                View() == Put(old(View()), name, e) && Changed(old(View()), View(), name, e)
    {
      hide Changed, CStr, Find, DistinctNames, AllZero;
      var i := Search(name);
      if i < 0 {
        return false;
      }
      PutChanges(View(), name, list[i].(portNo := portNo));
      PutAt(i, list[i].(portNo := portNo));
      ok := true;
    }

    // ---------------------------------------------------------------- filling the table

    /** A scan into a new list; it stops at the first record the table refuses. */
    method ReadIfinfo(addrs: Option<seq<IfAddr>>) returns (ok: bool)
      requires Valid()
      modifies this, list
      ensures Valid() && (list == old(list) || fresh(list))
      ensures addrs.None? ==> !ok && View() == old(View())
      ensures addrs.Some? ==>
                var recs := Scanned(addrs.value);
                && View() == Open(IFINFO_LIST_MAX_SIZE, recs[..Accepted(recs)])
                && (ok <==> Accepted(recs) == |recs|)
    {
      hide Scanned, Accepted, Zeros, Padded, CStr, Find, DistinctNames, AllZero;
      if addrs.None? {
        return false;
      }
      var all := addrs.value;
      ok := Malloc(IFINFO_LIST_MAX_SIZE);
      ScanNothing(all);
      var i := 0;
      while i < |all|
        invariant 0 <= i <= |all|
        invariant list != null && fresh(list)
        invariant Valid() && View() == Open(IFINFO_LIST_MAX_SIZE, Scanned(all[..i]))
        invariant Accepted(Scanned(all[..i])) == |Scanned(all[..i])|
      {
        if all[i].usable && all[i].hwaddr.Some? {
          ScanStep(all, i);
          AcceptStep(Scanned(all[..i]), RecordOf(all[i]));
          ok := Store(all[i]);
          if !ok {
            ScanRefused(all, i);
            return;
          }
        } else {
          ScanSkip(all, i);
        }
        i := i + 1;
      }
      assert all[..i] == all;
      assert Scanned(all)[..|Scanned(all)|] == Scanned(all);
      ok := true;
    }

    /** One record: name, hardware address, then the two address texts. */
    method Store(a: IfAddr) returns (ok: bool)
      requires Valid() && View().Open? && a.hwaddr.Some?
      modifies this`num, list
      ensures Valid() && View().Open? && View().size == old(View()).size
      ensures ok <==> CanAdd(old(View()), Padded(a.name))
      ensures Entries() == if ok then old(Entries()) + [RecordOf(a)] else old(Entries())
    {
      hide Changed, NothingBut, NameBelow, CStr, Find, DistinctNames, AllZero, Zeros;
      var name := Padded(a.name);
      ghost var es, sz := Entries(), View().size;
      ok := SetIfname(name);
      if !ok {
        return;
      }
      ghost var named := Blank(name).(macaddr := a.hwaddr.value);
      PutLast(sz, es, Blank(name), named);
      PutLast(sz, es, named, RecordOf(a));
      ok := SetHwaddr(name, a.hwaddr.value);
      assert View() == Open(sz, es + [named]);
      ok := SetAddr(name, a.ipaddr, a.netmask);
    }

    /** One record's type, set through its name, which finds that very record. */
    method TypeRecord(i: nat, iftypeOf: Name -> Option<U32>) returns (ok: bool)
      requires Valid() && i < |Entries()|
      modifies list
      ensures Valid() && View().Open? && View().size == old(View()).size && num == old(num)
      ensures ok <==> iftypeOf(old(Entries())[i].ifname).Some?
      ensures Entries() == old(Entries())[i := WithType(old(Entries())[i], iftypeOf)]
    {
      assert list[i] == Entries()[i];
      var name := list[i].ifname;
      var dlt := iftypeOf(name);
      if dlt.None? {
        return false;
      }
      FoundAt(Entries(), i);
      ok := SetIftype(name, dlt.value);
    }

    /** Types for all records; it stops at the first name without a type. */
    method ReadNetType(iftypeOf: Name -> Option<U32>) returns (ok: bool)
      requires Valid()
      modifies list
      ensures Valid() && View().Open? == old(View()).Open?
      ensures !View().Open? ==> View() == old(View())
      ensures View().Open? ==> View().size == old(View()).size
      ensures ok <==> FirstUntyped(old(Entries()), iftypeOf) == |old(Entries())|
      ensures Entries() == TypedUpTo(old(Entries()), iftypeOf, FirstUntyped(old(Entries()), iftypeOf))
    {
      hide CStr, Find, DistinctNames, AllZero;
      ghost var es, t0 := Entries(), View();
      var i := 0;
      while i < num
        invariant 0 <= i <= |es| && num == old(num)
        invariant Valid() && View().Open? == t0.Open?
        invariant !View().Open? ==> View() == t0
        invariant View().Open? ==> View().size == t0.size
        invariant |Entries()| == |es|
        invariant forall k :: 0 <= k < i ==> iftypeOf(es[k].ifname).Some? && Entries()[k] == WithType(es[k], iftypeOf)
        invariant forall k :: i <= k < |es| ==> Entries()[k] == es[k]
      {
        ok := TypeRecord(i, iftypeOf);
        if !ok {
          FirstUntypedAt(es, iftypeOf, i);
          return;
        }
        i := i + 1;
      }
      FirstUntypedAt(es, iftypeOf, i);
      ok := true;
    }

    /** Every record gets the descriptor its name opens with, a negative one where that failed. */
    method OpenNetif(fdOf: Name -> int)
      requires Valid()
      modifies list
      ensures Valid() && View().Open? == old(View()).Open?
      ensures !View().Open? ==> View() == old(View())
      ensures View().Open? ==> View().size == old(View()).size
      ensures Entries() == Opened(old(Entries()), fdOf)
    {
      hide CStr, Find, DistinctNames, AllZero, WithType;
      ghost var es, t0 := Entries(), View();
      var i := 0;
      while i < num
        invariant 0 <= i <= |es| && num == old(num)
        invariant Valid() && View().Open? == t0.Open?
        invariant !View().Open? ==> View() == t0
        invariant View().Open? ==> View().size == t0.size
        invariant |Entries()| == |es|
        invariant forall k :: 0 <= k < i ==> Entries()[k] == es[k].(fd := fdOf(es[k].ifname))
        invariant forall k :: i <= k < |es| ==> Entries()[k] == es[k]
      {
        assert list[i] == Entries()[i];
        PutAt(i, list[i].(fd := fdOf(list[i].ifname)));
        i := i + 1;
      }
    }

    /** Hands every open descriptor to the system for closing, in list order; then the list goes away. */
    method CloseNetif() returns (closed: seq<int>)
      requires Valid()
      modifies this
      ensures Valid() && View() == Closed && list == null
      ensures closed == OpenDescriptors(old(Entries()))
    {
      hide CStr, Find, DistinctNames, AllZero;
      ghost var es := Entries();
      closed := [];
      var i := 0;
      while i < num
        invariant 0 <= i <= |es|
        invariant closed == OpenDescriptors(es[..i])
      {
        assert es[..i + 1][..i] == es[..i];
        assert list[i] == es[i];
        if list[i].fd >= 0 {
          closed := closed + [list[i].fd];
        }
        i := i + 1;
      }
      assert es[..i] == es;
      Free();
    }
  }
}
