/**
  Streams of TLVs: what the encoders put on the wire, how print_tlvs walks a buffer,
  and that the two are inverse to each other exactly while every length fits the reader.
 */
module Tlv {
  import opened Common
  import opened TlvHeader

  datatype Tlv = Tlv(typ: TlvType, body: seq<Byte>)

  function Encode(t: Tlv): (r: seq<Byte>)
    ensures |r| == TLV_HEADER_LEN + |t.body|
  {
    Pack(MakeHeader(t.typ, |t.body|)) + t.body
  }

  function EncodeAll(ts: seq<Tlv>): seq<Byte> {
    if ts == [] then [] else Encode(ts[0]) + EncodeAll(ts[1..])
  }

  lemma {:induction false} EncodeAllAppend(a: seq<Tlv>, b: seq<Tlv>)
    ensures EncodeAll(a + b) == EncodeAll(a) + EncodeAll(b)
  {
    if a == [] {
      assert a + b == b;
    } else {
      assert (a + b)[1..] == a[1..] + b;
      EncodeAllAppend(a[1..], b);
    }
  }

  /** One TLV more at the end of a stream. */
  lemma {:induction false} EncodeAllSnoc(a: seq<Tlv>, t: Tlv)
    ensures EncodeAll(a + [t]) == EncodeAll(a) + Encode(t)
    ensures |EncodeAll([t])| == |Encode(t)|
  {
    EncodeAllAppend(a, [t]);
    assert EncodeAll([t]) == Encode(t) + EncodeAll([]);
  }

  // ---------------------------------------------------------------- walking

  /** One step of print_tlvs: where a header was read and what it said. */
  datatype Visit = Visit(at: nat, typ: TlvType, len: nat) {
    function End(): nat {
      at + TLV_HEADER_LEN + len
    }
  }

  /**
    The header at offset `p`. The reader takes two bytes even when only one is left,
    so `tail` stands for whatever byte follows the buffer in memory.
   */
  function HeaderAt(buf: seq<Byte>, tail: Byte, p: nat): Header
    requires p < |buf|
  {
    Unpack(buf[p], if p + 1 < |buf| then buf[p + 1] else tail)
  }

  function VisitAt(r: Reader, buf: seq<Byte>, tail: Byte, p: nat): Visit
    requires p < |buf|
  {
    var h := HeaderAt(buf, tail, p);
    Visit(p, h.typ, r.Len(h))
  }

  function Walk(r: Reader, buf: seq<Byte>, tail: Byte, p: nat): seq<Visit>
    decreases |buf| - p
  {
    if p >= |buf| then []
    else
      var v := VisitAt(r, buf, tail, p);
      [v] + Walk(r, buf, tail, v.End())
  }

  /** print_tlvs over the first `len` bytes of a buffer, with what it visits collected. */
  method PrintTlvs(r: Reader, buf: array<Byte>, len: nat, tail: Byte) returns (visits: seq<Visit>)
    requires len <= buf.Length
    ensures visits == Walk(r, buf[..len], tail, 0)
  {
    var p := 0;
    visits := [];
    while p < len
      invariant visits + Walk(r, buf[..len], tail, p) == Walk(r, buf[..len], tail, 0)
      decreases len - p
    {
      var h := Unpack(buf[p], if p + 1 < len then buf[p + 1] else tail);
      var tlvLen := r.Len(h);
      assert VisitAt(r, buf[..len], tail, p) == Visit(p, h.typ, tlvLen);
      visits := visits + [Visit(p, h.typ, tlvLen)];
      p := p + TLV_HEADER_LEN + tlvLen;
    }
  }

  /** Visits one behind the other from `p`, all but the last ending inside `n` bytes, the last not. */
  predicate Tiles(vs: seq<Visit>, p: nat, n: nat) {
    && |vs| > 0
    && vs[0].at == p
    && (forall i :: 0 <= i < |vs| - 1 ==> vs[i + 1].at == vs[i].End() && vs[i].End() < n)
    && vs[|vs| - 1].End() >= n
  }

  lemma {:induction false} TilesCons(v: Visit, rest: seq<Visit>, n: nat)
    requires v.End() < n && Tiles(rest, v.End(), n)
    ensures Tiles([v] + rest, v.at, n)
  {
    var vs := [v] + rest;
    forall i | 0 <= i < |vs| - 1 ensures vs[i + 1].at == vs[i].End() && vs[i].End() < n {
      if i > 0 {
        assert vs[i] == rest[i - 1] && vs[i + 1] == rest[i];
      }
    }
  }

  lemma {:induction false} WalkStep(r: Reader, buf: seq<Byte>, tail: Byte, p: nat)
    requires p < |buf|
    ensures VisitAt(r, buf, tail, p).at == p
    ensures Walk(r, buf, tail, p)
            == [VisitAt(r, buf, tail, p)] + Walk(r, buf, tail, VisitAt(r, buf, tail, p).End())
  {
  }

  /** On any bytes at all the walk tiles: it advances at least two bytes a step and ends past the buffer. */
  lemma {:induction false} WalkTiles(r: Reader, buf: seq<Byte>, tail: Byte, p: nat)
    requires p < |buf|
    ensures Tiles(Walk(r, buf, tail, p), p, |buf|)
    ensures |Walk(r, buf, tail, p)| <= (|buf| - p + 1) / 2
    decreases |buf| - p
  {
    hide VisitAt, Tiles;
    var v := VisitAt(r, buf, tail, p);
    WalkStep(r, buf, tail, p);
    if v.End() < |buf| {
      WalkTiles(r, buf, tail, v.End());
      TilesCons(v, Walk(r, buf, tail, v.End()), |buf|);
    } else {
      assert Walk(r, buf, tail, p) == [v];
      OneTile(v, |buf|);
    }
  }

  lemma {:induction false} OneTile(v: Visit, n: nat)
    requires v.End() >= n
    ensures Tiles([v], v.at, n)
  {
  }

  /** The type in the upper seven bits; the length from the lowest one, worth 128 or 256, and the byte behind it. */
  predicate ReadsBytes(v: Visit, r: Reader, buf: seq<Byte>, tail: Byte) {
    && v.at < |buf| && v.typ == buf[v.at] / 2
    && v.len == (buf[v.at] % 2) * (if r == Committed then 128 else 256)
                + if v.at + 1 < |buf| then buf[v.at + 1] else tail
  }

  /** Every visit says what the two bytes at its place say. */
  lemma {:induction false} WalkReads(r: Reader, buf: seq<Byte>, tail: Byte, p: nat)
    ensures forall i :: 0 <= i < |Walk(r, buf, tail, p)| ==> ReadsBytes(Walk(r, buf, tail, p)[i], r, buf, tail)
    decreases |buf| - p
  {
    if p < |buf| {
      WalkReads(r, buf, tail, VisitAt(r, buf, tail, p).End());
    }
  }

  /** The bodies behind the visited headers, when none of them reaches past the buffer. */
  function Bodies(buf: seq<Byte>, visits: seq<Visit>): Option<seq<Tlv>> {
    if visits == [] then Some([])
    else
      var v := visits[0];
      if v.End() > |buf| then None
      else
        Consed(Tlv(v.typ, buf[v.at + TLV_HEADER_LEN..v.End()]), Bodies(buf, visits[1..]))
  }

  function Consed(t: Tlv, rest: Option<seq<Tlv>>): Option<seq<Tlv>> {
    match rest
    case None => None
    case Some(ts) => Some([t] + ts)
  }

  function ParseFrom(r: Reader, buf: seq<Byte>, tail: Byte, p: nat): Option<seq<Tlv>> {
    Bodies(buf, Walk(r, buf, tail, p))
  }

  function Parse(r: Reader, buf: seq<Byte>, tail: Byte): Option<seq<Tlv>> {
    ParseFrom(r, buf, tail, 0)
  }

  predicate AllShorter(ts: seq<Tlv>, limit: nat) {
    forall i :: 0 <= i < |ts| ==> |ts[i].body| < limit
  }

  lemma {:induction false} EncodeHeader(t: Tlv)
    ensures Unpack(Encode(t)[0], Encode(t)[1]) == MakeHeader(t.typ, |t.body|)
  {
    PackUnpack(MakeHeader(t.typ, |t.body|), 0, 0);
  }

  /** Where a TLV was written, the walk sees its type, and its length as the reader reads it. */
  lemma {:induction false} FirstVisit(r: Reader, pre: seq<Byte>, t: Tlv, rest: seq<Byte>, tail: Byte)
    ensures VisitAt(r, pre + (Encode(t) + rest), tail, |pre|)
            == Visit(|pre|, t.typ, r.Len(MakeHeader(t.typ, |t.body|)))
  {
    var bytes := Encode(t);
    var buf := pre + (bytes + rest);
    assert buf[|pre|] == bytes[0];
    assert buf[|pre| + 1] == bytes[1];
    assert HeaderAt(buf, tail, |pre|) == Unpack(bytes[0], bytes[1]);
    EncodeHeader(t);
    assert HeaderAt(buf, tail, |pre|) == MakeHeader(t.typ, |t.body|);
  }

  lemma {:induction false} FirstBody(pre: seq<Byte>, t: Tlv, rest: seq<Byte>)
    ensures (pre + (Encode(t) + rest))[|pre| + TLV_HEADER_LEN..|pre| + TLV_HEADER_LEN + |t.body|] == t.body
  {
  }

  /** A body the reader can hold is recovered, and parsing goes on right behind it. */
  lemma {:induction false} ParseStep(r: Reader, pre: seq<Byte>, t: Tlv, rest: seq<Byte>, tail: Byte)
    requires |t.body| < r.Limit()
    ensures var buf := pre + (Encode(t) + rest);
            ParseFrom(r, buf, tail, |pre|) == Consed(t, ParseFrom(r, buf, tail, |pre + Encode(t)|))
  {
    var buf := pre + (Encode(t) + rest);
    FirstVisit(r, pre, t, rest, tail);
    ReadBackLength(r, t.typ, |t.body|);
    var v := VisitAt(r, buf, tail, |pre|);
    var after := Walk(r, buf, tail, v.End());
    assert Walk(r, buf, tail, |pre|) == [v] + after;
    assert ([v] + after)[1..] == after;
    FirstBody(pre, t, rest);
  }

  /** A body too long for the reader is never recovered. */
  lemma {:induction false} ParseStray(r: Reader, pre: seq<Byte>, t: Tlv, rest: seq<Byte>, tail: Byte)
    requires |t.body| >= r.Limit()
    ensures var buf := pre + (Encode(t) + rest);
            var parsed := ParseFrom(r, buf, tail, |pre|);
            parsed.Some? ==> parsed.value != [] && parsed.value[0] != t
  {
    var buf := pre + (Encode(t) + rest);
    FirstVisit(r, pre, t, rest, tail);
    ReadBackLength(r, t.typ, |t.body|);
    var v := VisitAt(r, buf, tail, |pre|);
    assert Walk(r, buf, tail, |pre|)[0] == v;
  }

  lemma {:induction false} ConsedIs(t: Tlv, ts: seq<Tlv>, rest: Option<seq<Tlv>>)
    ensures rest == Some(ts) <==> Consed(t, rest) == Some([t] + ts)
  {
    if rest.Some? {
      assert ([t] + rest.value)[1..] == rest.value && ([t] + ts)[1..] == ts;
    }
  }

  lemma {:induction false} ParseNothing(r: Reader, buf: seq<Byte>, tail: Byte, limit: nat)
    ensures ParseFrom(r, buf, tail, |buf|) == Some([]) && AllShorter([], limit)
  {
  }

  lemma {:induction false} AllShorterCons(t: Tlv, ts: seq<Tlv>, limit: nat)
    ensures AllShorter([t] + ts, limit) <==> |t.body| < limit && AllShorter(ts, limit)
  {
    assert ([t] + ts)[0] == t;
    assert forall i :: 0 <= i < |ts| ==> ([t] + ts)[i + 1] == ts[i];
  }

  lemma {:induction false} ParseEncodedFrom(r: Reader, pre: seq<Byte>, ts: seq<Tlv>, tail: Byte)
    ensures ParseFrom(r, pre + EncodeAll(ts), tail, |pre|) == Some(ts) <==> AllShorter(ts, r.Limit())
    decreases |ts|
  {
    hide ParseFrom, AllShorter, Encode, Consed;
    if ts == [] {
      assert pre + EncodeAll(ts) == pre;
      ParseNothing(r, pre, tail, r.Limit());
    } else {
      var t, us, rest := ts[0], ts[1..], EncodeAll(ts[1..]);
      var pre' := pre + Encode(t);
      assert ts == [t] + us;
      assert EncodeAll(ts) == Encode(t) + rest;
      AllShorterCons(t, us, r.Limit());
      if |t.body| < r.Limit() {
        ParseStep(r, pre, t, rest, tail);
        assert pre + (Encode(t) + rest) == pre' + rest;
        ConsedIs(t, us, ParseFrom(r, pre' + rest, tail, |pre'|));
        ParseEncodedFrom(r, pre', us, tail);
      } else {
        ParseStray(r, pre, t, rest, tail);
      }
    }
  }

  /** Reading back a stream gives the TLVs that were written if and only if every body fits the reader. */
  lemma {:induction false} ParseEncoded(r: Reader, ts: seq<Tlv>, tail: Byte)
    ensures Parse(r, EncodeAll(ts), tail) == Some(ts) <==> AllShorter(ts, r.Limit())
  {
    assert [] + EncodeAll(ts) == EncodeAll(ts);
    ParseEncodedFrom(r, [], ts, tail);
  }

  /** One visit that stays inside the buffer, encoded again, gives the bytes it covers. */
  lemma {:induction false} EncodeVisited(buf: seq<Byte>, tail: Byte, p: nat)
    requires p < |buf|
    requires VisitAt(NineBit, buf, tail, p).End() <= |buf|
    ensures var v := VisitAt(NineBit, buf, tail, p);
            Encode(Tlv(v.typ, buf[v.at + TLV_HEADER_LEN..v.End()])) == buf[p..v.End()] && v.len < NineBit.Limit()
  {
    var h := HeaderAt(buf, tail, p);
    var v := VisitAt(NineBit, buf, tail, p);
    assert MakeHeader(v.typ, v.len) == h;
    PackUnpack(h, buf[p], buf[p + 1]);
    assert buf[p..v.End()] == [buf[p], buf[p + 1]] + buf[p + 2..v.End()];
  }

  lemma {:induction false} EncodeParsedFrom(buf: seq<Byte>, tail: Byte, p: nat)
    requires p <= |buf|
    requires ParseFrom(NineBit, buf, tail, p).Some?
    ensures EncodeAll(ParseFrom(NineBit, buf, tail, p).value) == buf[p..]
    ensures AllShorter(ParseFrom(NineBit, buf, tail, p).value, NineBit.Limit())
    decreases |buf| - p
  {
    if p < |buf| {
      var v := VisitAt(NineBit, buf, tail, p);
      var rest := Walk(NineBit, buf, tail, v.End());
      assert ([v] + rest)[1..] == rest;
      EncodeParsedFrom(buf, tail, v.End());
      var ts := ParseFrom(NineBit, buf, tail, v.End()).value;
      var t := Tlv(v.typ, buf[v.at + TLV_HEADER_LEN..v.End()]);
      assert ParseFrom(NineBit, buf, tail, p).value == [t] + ts;
      assert ([t] + ts)[1..] == ts;
      EncodeVisited(buf, tail, p);
      AllShorterCons(t, ts, NineBit.Limit());
      assert buf[p..] == buf[p..v.End()] + buf[v.End()..];
    }
  }

  /**
    With the nine-bit reader parsing loses nothing: whatever stream is recovered encodes to
    exactly the buffer it was read from, so no two buffers parse alike.
   */
  lemma {:induction false} EncodeParsed(buf: seq<Byte>, tail: Byte)
    requires Parse(NineBit, buf, tail).Some?
    ensures EncodeAll(Parse(NineBit, buf, tail).value) == buf
    ensures AllShorter(Parse(NineBit, buf, tail).value, NineBit.Limit())
  {
    EncodeParsedFrom(buf, tail, 0);
    assert buf[0..] == buf;
  }
}
