/**
  What a byte string means to a message parser: the sequence of its records, applied in
  order. The emitted `_InternalParse` is proved to accept exactly the byte strings that are
  such sequences (up to the point where it stops reading) and to compute exactly this meaning.
*/
module Meaning {
  import opened Varint
  import opened Wire
  import opened Schema
  import opened Codec

  /** The field a record is dispatched to: same number and same wire type. */
  function Target(fs: seq<Field>, tag: nat): (i: int)
    ensures -1 <= i < |fs|
  {
    var i := Find(fs, tag / 8);
    if i >= 0 && tag % 8 == WireType(fs[i].kind) then i else -1
  }

  function Body(p: Payload): seq<byte>
  {
    match p
    case PBytes(_, body) => body
    case PRecords(_, inner, tail) => EncRecs(inner) + tail
    case _ => []
  }

  function Prefix(p: Payload): seq<byte>
  {
    match p
    case PBytes(prefix, _) => prefix
    case PRecords(prefix, _, _) => prefix
    case _ => []
  }

  /**
    Bytes at which the parse loop stops without failing: none, a tag that reads as 0, or a
    tag varint of more than ten bytes.
  */
  predicate Stops(tail: seq<byte>)
  {
    tail == [] || match ScanEnd(tail, 0, 10) {
      case At(q) => q <= |tail| && Low32(tail[..q]) == 0
      case Null => true
      case Overrun => false
    }
  }

  /** How far into the tail the returned pointer is: past a zero tag, before an over-long one. */
  function StopAt(tail: seq<byte>): nat
  {
    if tail == [] then 0 else match ScanEnd(tail, 0, 10) { case At(q) => q case _ => 0 }
  }

  // ---- well-formed records and their meaning ----------------------------------------------------------

  /** The payload suits a field of kind `k`; an eager submessage is itself well-formed. */
  predicate PayloadOk(E: Env, k: Kind, p: Payload)
    decreases p
  {
    match k
    case KVarint(_) => p.PVarint? && IsVarint(p.raw, 10)
    case KFixed64(_) => p.PFixed64? && |p.eight| == 8
    case KFixed32(_) => p.PFixed32? && |p.four| == 4
    case KString => p.PBytes? && IsVarint(p.prefix, 10) && RawValue(p.prefix) % TWO64 == |p.body|
    case KMessage(u) =>
      && p.PRecords? && IsVarint(p.prefix, 10)
      && RawValue(p.prefix) % TWO64 == |EncRecs(p.inner) + p.tail| < INT_MAX_SPAN
      && u < |E| && RecsOk(E, u, p.inner) && Stops(p.tail)
    case KLazy(_) =>
      (p.PBytes? || p.PRecords?) && IsVarint(Prefix(p), 5) && Low32(Prefix(p)) == |Body(p)|
  }

  /** A record the parser consumes: known fields suit their kind, anything else can be skipped. */
  predicate RecOk(E: Env, t: nat, r: Rec)
    requires t < |E|
    decreases r
  {
    && IsVarint(r.tag, 10) && Low32(r.tag) != 0
    && var i := Target(E[t], Low32(r.tag));
       if i < 0 then WfPayload(Inline, r.payload, Low32(r.tag)) else PayloadOk(E, E[t][i].kind, r.payload)
  }

  predicate RecsOk(E: Env, t: nat, rs: seq<Rec>)
    requires t < |E|
    decreases rs
  {
    rs == [] || (RecOk(E, t, rs[0]) && RecsOk(E, t, rs[1..]))
  }

  /** The member's new content; `prev` matters only to the default flag of a string set to empty. */
  function CellOf(E: Env, k: Kind, prev: Cell, p: Payload): Cell
    decreases p
  {
    match k
    case KVarint(vt) => if p.PVarint? then Num(FromU64(vt, RawValue(p.raw) % TWO64)) else prev
    case KFixed64(_) => if p.PFixed64? then Fix(p.eight) else prev
    case KFixed32(_) => if p.PFixed32? then Fix(p.four) else prev
    case KString => SetStr(prev, Body(p))
    case KMessage(u) => if p.PRecords? && u < |E| then Sub(ApplyAll(E, u, Default(E, u), p.inner)) else prev
    case KLazy(_) => Lazy(Raw(Body(p)))
  }

  function Apply(E: Env, t: nat, m: Msg, r: Rec): (m': Msg)
    requires t < |E| && |m.cells| == |E[t]|
    ensures |m'.cells| == |E[t]|
    decreases r
  {
    var i := Target(E[t], Low32(r.tag));
    if i < 0 then m else Msg(m.cells[i := CellOf(E, E[t][i].kind, m.cells[i], r.payload)])
  }

  function ApplyAll(E: Env, t: nat, m: Msg, rs: seq<Rec>): (m': Msg)
    requires t < |E| && |m.cells| == |E[t]|
    ensures |m'.cells| == |E[t]|
    decreases rs
  {
    if rs == [] then m else ApplyAll(E, t, Apply(E, t, m, rs[0]), rs[1..])
  }

  // ---- the parser computes the meaning ------------------------------------------------------------------

  lemma {:induction false} ScanShift(buf: seq<byte>, pos: nat, at: nat, max: nat)
    requires pos + at <= |buf|
    ensures ScanEnd(buf, pos + at, max) ==
            if ScanEnd(buf[pos..], at, max).At? then At(pos + ScanEnd(buf[pos..], at, max).pos) else ScanEnd(buf[pos..], at, max)
    decreases max
  {
    if max > 0 && pos + at < |buf| {
      assert buf[pos..][at] == buf[pos + at];
      ScanShift(buf, pos, at + 1, max - 1);
    }
  }

  lemma PrefixFound(buf: seq<byte>, q: nat, prefix: seq<byte>, body: seq<byte>, max: nat)
    requires IsVarint(prefix, max) && HasAt(buf, q, prefix + body)
    ensures ScanEnd(buf, q, max) == At(q + |prefix|)
    ensures buf[q..q + |prefix|] == prefix
    ensures q + |prefix| + |body| <= |buf| && buf[q + |prefix|..q + |prefix| + |body|] == body
  {
    HasAtSplit(buf, q, prefix, body);
    ScanFinds(buf, q, prefix, max);
  }

  lemma SubAccepts(E: Env, u: nat, buf: seq<byte>, q: nat, s: nat, inner: seq<Rec>, tail: seq<byte>)
    requires u < |E| && q < s && HasAt(buf, s, EncRecs(inner) + tail) && |EncRecs(inner) + tail| < INT_MAX_SPAN
    requires RecsOk(E, u, inner) && Stops(tail)
    ensures ParseSub(E, u, buf, q, s, |EncRecs(inner) + tail|) ==
            FieldOk(Sub(ApplyAll(E, u, Default(E, u), inner)), s + |EncRecs(inner) + tail|)
    decreases inner, 4
  {
    hide IsVarint, RawValue, ScanEnd, RecsOk, Stops, ApplyAll, ParseFrom, EncRecs;
    var body := EncRecs(inner) + tail;
    assert |body| % TWO32 == |body|;
    assert body[0..] == body;
    ParseAccepts(E, u, Default(E, u), inner, tail, body, 0);
  }

  lemma {:induction false} MessageAccepts(E: Env, u: nat, c: Cell, p: Payload, buf: seq<byte>, q: nat)
    requires u < |E| && PayloadOk(E, KMessage(u), p) && HasAt(buf, q, EncPayload(p))
    ensures ParseField(E, KMessage(u), c, buf, q) == FieldOk(CellOf(E, KMessage(u), c, p), q + |EncPayload(p)|)
    decreases p, 0
  {
    hide IsVarint, RawValue, ScanEnd, RecsOk, Stops, ApplyAll, ParseSub, EncRecs;
    PrefixFound(buf, q, p.prefix, EncRecs(p.inner) + p.tail, 10);
    SubAccepts(E, u, buf, q, q + |p.prefix|, p.inner, p.tail);
  }

  lemma StringAccepts(E: Env, c: Cell, p: Payload, buf: seq<byte>, q: nat)
    requires PayloadOk(E, KString, p) && HasAt(buf, q, EncPayload(p))
    ensures ParseField(E, KString, c, buf, q) == FieldOk(CellOf(E, KString, c, p), q + |EncPayload(p)|)
  {
    hide IsVarint, ScanEnd, RawValue;
    PrefixFound(buf, q, p.prefix, p.body, 10);
  }

  lemma LazyAccepts(E: Env, u: nat, c: Cell, p: Payload, buf: seq<byte>, q: nat)
    requires PayloadOk(E, KLazy(u), p) && HasAt(buf, q, EncPayload(p))
    ensures ParseField(E, KLazy(u), c, buf, q) == FieldOk(CellOf(E, KLazy(u), c, p), q + |EncPayload(p)|)
  {
    hide IsVarint, ScanEnd, RawValue, EncRecs;
    PrefixFound(buf, q, Prefix(p), Body(p), 5);
  }

  lemma VarintAccepts(E: Env, vt: VarType, c: Cell, p: Payload, buf: seq<byte>, q: nat)
    requires PayloadOk(E, KVarint(vt), p) && HasAt(buf, q, EncPayload(p))
    ensures ParseField(E, KVarint(vt), c, buf, q) == FieldOk(CellOf(E, KVarint(vt), c, p), q + |EncPayload(p)|)
  {
    hide IsVarint, ScanEnd, RawValue;
    ScanFinds(buf, q, p.raw, 10);
  }

  lemma {:induction false} FieldAccepts(E: Env, k: Kind, c: Cell, p: Payload, buf: seq<byte>, q: nat)
    requires k.KMessage? ==> k.sub < |E|
    requires PayloadOk(E, k, p) && HasAt(buf, q, EncPayload(p))
    ensures ParseField(E, k, c, buf, q) == FieldOk(CellOf(E, k, c, p), q + |EncPayload(p)|)
    decreases p, 1
  {
    hide IsVarint, ScanEnd, RawValue, EncRecs, RecsOk, Stops, SetStr;
    match k
    case KVarint(vt) => VarintAccepts(E, vt, c, p, buf, q);
    case KFixed64(_) =>
    case KFixed32(_) =>
    case KString => StringAccepts(E, c, p, buf, q);
    case KMessage(u) => MessageAccepts(E, u, c, p, buf, q);
    case KLazy(u) => LazyAccepts(E, u, c, p, buf, q);
  }

  lemma {:induction false} RecordAccepts(E: Env, t: nat, m: Msg, r: Rec, buf: seq<byte>, q: nat)
    requires t < |E| && |m.cells| == |E[t]| && RecOk(E, t, r)
    requires HasAt(buf, q, EncPayload(r.payload))
    ensures ParseRecord(E, t, m, buf, q, Low32(r.tag)) == Ok(Apply(E, t, m, r), q + |EncPayload(r.payload)|)
    decreases r, 1
  {
    assert WfFields(E[t], t, |E|);
    var i := Target(E[t], Low32(r.tag));
    if i < 0 {
      SkipAccepts(Inline, buf, q, r.payload, Low32(r.tag));
    } else {
      FieldAccepts(E, E[t][i].kind, m.cells[i], r.payload, buf, q);
    }
  }

  /** One turn of the parse loop. */
  lemma ParseStep(E: Env, t: nat, m: Msg, buf: seq<byte>, pos: nat, q: nat, r: Parse)
    requires t < |E| && |m.cells| == |E[t]| && pos < q <= |buf|
    requires ScanEnd(buf, pos, 10) == At(q) && Low32(buf[pos..q]) != 0
    requires r == ParseRecord(E, t, m, buf, q, Low32(buf[pos..q]))
    ensures ParseFrom(E, t, m, buf, pos) == if r.Ok? then ParseFrom(E, t, r.msg, buf, r.pos) else r
  {
  }

  lemma ParseStop(E: Env, t: nat, m: Msg, buf: seq<byte>, pos: nat)
    requires t < |E| && |m.cells| == |E[t]| && pos <= |buf| && Stops(buf[pos..])
    ensures ParseFrom(E, t, m, buf, pos) == Ok(m, pos + StopAt(buf[pos..]))
  {
    hide RawValue, ParseRecord;
    var tail := buf[pos..];
    if pos < |buf| {
      ScanShift(buf, pos, 0, 10);
      if ScanEnd(tail, 0, 10).At? {
        var q := ScanEnd(tail, 0, 10).pos;
        assert buf[pos..pos + q] == tail[..q];
      }
    }
  }

  /**
    Parse meaning: on the encoding of well-formed records, whatever the starting content, the
    parser succeeds, consumes every record and applies them in order.
  */
  lemma {:induction false} ParseAccepts(E: Env, t: nat, m: Msg, rs: seq<Rec>, tail: seq<byte>, buf: seq<byte>, pos: nat)
    requires t < |E| && |m.cells| == |E[t]| && RecsOk(E, t, rs) && Stops(tail)
    requires pos <= |buf| && buf[pos..] == EncRecs(rs) + tail
    ensures ParseFrom(E, t, m, buf, pos) == Ok(ApplyAll(E, t, m, rs), pos + |EncRecs(rs)| + StopAt(tail))
    decreases rs, 3
  {
    hide ParseFrom, Stops, StopAt, RecOk, Apply, EncRec, IsVarint, ScanEnd;
    if rs == [] {
      assert EncRecs(rs) + tail == tail;
      ParseStop(E, t, m, buf, pos);
    } else {
      var r, rest := rs[0], EncRecs(rs[1..]) + tail;
      assert EncRecs(rs) + tail == EncRec(r) + rest;
      ParseOne(E, t, m, r, rest, buf, pos);
      ParseAccepts(E, t, Apply(E, t, m, r), rs[1..], tail, buf, pos + |EncRec(r)|);
    }
  }

  lemma {:induction false} ParseOne(E: Env, t: nat, m: Msg, r: Rec, rest: seq<byte>, buf: seq<byte>, pos: nat)
    requires t < |E| && |m.cells| == |E[t]| && RecOk(E, t, r)
    requires pos <= |buf| && buf[pos..] == EncRec(r) + rest
    ensures pos + |EncRec(r)| <= |buf| && buf[pos + |EncRec(r)|..] == rest
    ensures ParseFrom(E, t, m, buf, pos) == ParseFrom(E, t, Apply(E, t, m, r), buf, pos + |EncRec(r)|)
    decreases r, 2
  {
    hide ParseFrom, Apply, EncRec, ScanEnd, ParseRecord, EncPayload, PayloadOk, WfPayload, RawValue;
    var q := RecordFound(r, rest, buf, pos);
    RecordAccepts(E, t, m, r, buf, q);
    ParseStep(E, t, m, buf, pos, q, Ok(Apply(E, t, m, r), q + |EncPayload(r.payload)|));
  }

  lemma RecordFound(r: Rec, rest: seq<byte>, buf: seq<byte>, pos: nat) returns (q: nat)
    requires IsVarint(r.tag, 10) && pos <= |buf| && buf[pos..] == EncRec(r) + rest
    ensures pos < q <= |buf| && ScanEnd(buf, pos, 10) == At(q) && buf[pos..q] == r.tag
    ensures HasAt(buf, q, EncPayload(r.payload))
    ensures pos + |EncRec(r)| == q + |EncPayload(r.payload)| <= |buf|
    ensures buf[pos + |EncRec(r)|..] == rest
  {
    q := pos + |r.tag|;
    assert EncRec(r) + rest == r.tag + (EncPayload(r.payload) + rest);
    RecordLayout(buf, pos, r.tag, EncPayload(r.payload), rest);
    ScanFinds(buf, pos, r.tag, 10);
  }

  lemma RecordLayout(buf: seq<byte>, pos: nat, tag: seq<byte>, payload: seq<byte>, rest: seq<byte>)
    requires pos <= |buf| && buf[pos..] == tag + (payload + rest)
    ensures HasAt(buf, pos, tag) && HasAt(buf, pos + |tag|, payload)
    ensures buf[pos + |tag| + |payload|..] == rest
  {
    var s := buf[pos..];
    assert HasAt(buf, pos, tag + (payload + rest)) by {
      assert buf[pos..pos + |s|] == s;
    }
    HasAtSplit(buf, pos, tag, payload + rest);
    HasAtSplit(buf, pos + |tag|, payload, rest);
    assert buf[pos + |tag| + |payload|..] == s[|tag| + |payload|..] == rest;
  }

  // ---- and accepts nothing else ---------------------------------------------------------------------------

  lemma {:induction false} SubSound(E: Env, u: nat, buf: seq<byte>, q: nat, s: nat, size: nat)
    returns (inner: seq<Rec>, tail: seq<byte>)
    requires u < |E| && q < s <= |buf| < INT_MAX_SPAN && ParseSub(E, u, buf, q, s, size).FieldOk?
    ensures RecsOk(E, u, inner) && Stops(tail) && s + size <= |buf|
    ensures EncRecs(inner) + tail == buf[s..s + size]
    ensures ParseSub(E, u, buf, q, s, size).end == s + size
    decreases |buf| - s, 3
  {
    hide RecsOk, Stops, EncRecs;
    assert s + size <= |buf| && size % TWO32 == size;
    var body := buf[s..s + size];
    inner, tail := ParseSound(E, u, Default(E, u), body, 0);
    assert body[0..] == body;
  }

  lemma {:induction false} FieldSound(E: Env, k: Kind, c: Cell, buf: seq<byte>, q: nat) returns (p: Payload)
    requires q <= |buf| < INT_MAX_SPAN && (k.KMessage? ==> k.sub < |E|)
    requires ParseField(E, k, c, buf, q).FieldOk?
    ensures PayloadOk(E, k, p)
    ensures EncPayload(p) == buf[q..ParseField(E, k, c, buf, q).end]
    decreases |buf| - q, 0
  {
    hide IsVarint, RawValue, ScanEnd, RecsOk, Stops, ParseSub, EncRecs, SetStr;
    var end := ParseField(E, k, c, buf, q).end;
    match k
    case KVarint(_) =>
      ScanRecognises(buf, q, 10, end);
      p := PVarint(buf[q..end]);
    case KFixed64(_) => p := PFixed64(buf[q..end]);
    case KFixed32(_) => p := PFixed32(buf[q..end]);
    case KLazy(_) =>
      var s := ScanEnd(buf, q, 5).pos;
      ScanRecognises(buf, q, 5, s);
      p := PBytes(buf[q..s], buf[s..end]);
      assert buf[q..s] + buf[s..end] == buf[q..end];
    case KString =>
      var s := ScanEnd(buf, q, 10).pos;
      ScanRecognises(buf, q, 10, s);
      p := PBytes(buf[q..s], buf[s..end]);
      assert buf[q..s] + buf[s..end] == buf[q..end];
    case KMessage(u) =>
      var s := ScanEnd(buf, q, 10).pos;
      ScanRecognises(buf, q, 10, s);
      var inner, tail := SubSound(E, u, buf, q, s, RawValue(buf[q..s]) % TWO64);
      p := PRecords(buf[q..s], inner, tail);
      assert buf[q..s] + buf[s..end] == buf[q..end];
  }

  lemma {:induction false} RecordSound(E: Env, t: nat, m: Msg, tag: seq<byte>, buf: seq<byte>, q: nat) returns (p: Payload)
    requires t < |E| && |m.cells| == |E[t]| && q <= |buf| < INT_MAX_SPAN
    requires IsVarint(tag, 10) && Low32(tag) != 0 && ParseRecord(E, t, m, buf, q, Low32(tag)).Ok?
    ensures RecOk(E, t, Rec(tag, p))
    ensures EncPayload(p) == buf[q..ParseRecord(E, t, m, buf, q, Low32(tag)).pos]
    decreases |buf| - q, 1
  {
    assert WfFields(E[t], t, |E|);
    var i := Target(E[t], Low32(tag));
    if i < 0 {
      p := SkipSound(Inline, buf, q, Low32(tag));
    } else {
      p := FieldSound(E, E[t][i].kind, m.cells[i], buf, q);
    }
  }

  /** Whatever the parser accepts is a sequence of well-formed records followed by bytes it stops at. */
  lemma {:induction false} ParseSound(E: Env, t: nat, m: Msg, buf: seq<byte>, pos: nat)
    returns (rs: seq<Rec>, tail: seq<byte>)
    requires t < |E| && |m.cells| == |E[t]| && pos <= |buf| < INT_MAX_SPAN
    requires ParseFrom(E, t, m, buf, pos).Ok?
    ensures RecsOk(E, t, rs) && Stops(tail) && EncRecs(rs) + tail == buf[pos..]
    decreases |buf| - pos, 2
  {
    if StopsHere(buf, pos) {
      StopsHereSound(buf, pos);
      rs, tail := [], buf[pos..];
      assert EncRecs(rs) + tail == tail;
    } else {
      var q := ScanEnd(buf, pos, 10).pos;
      ScanRecognises(buf, pos, 10, q);
      var tag := buf[pos..q];
      ParseStep(E, t, m, buf, pos, q, ParseRecord(E, t, m, buf, q, Low32(tag)));
      var p := RecordSound(E, t, m, tag, buf, q);
      var step := ParseRecord(E, t, m, buf, q, Low32(tag));
      var rest;
      rest, tail := ParseSound(E, t, step.msg, buf, step.pos);
      rs := [Rec(tag, p)] + rest;
      assert rs[1..] == rest;
      JoinSlices(buf, pos, q, step.pos, |buf|, EncRecs(rest), tail);
      ConsRec(Inline, tag, p, rest);
    }
  }

  /** The loop ends here, on a buffer it does not run out of. */
  lemma StopsHereSound(buf: seq<byte>, pos: nat)
    requires pos <= |buf| && StopsHere(buf, pos)
    ensures Stops(buf[pos..])
  {
    ScanShift(buf, pos, 0, 10);
    if pos < |buf| && ScanEnd(buf, pos, 10).At? {
      var q := ScanEnd(buf, pos, 10).pos;
      ScanRecognises(buf, pos, 10, q);
      assert buf[pos..][..q - pos] == buf[pos..q];
    }
  }

  predicate StopsHere(buf: seq<byte>, pos: nat)
    requires pos <= |buf|
  {
    pos == |buf| || match ScanEnd(buf, pos, 10) {
      case At(q) => pos <= q <= |buf| && Low32(buf[pos..q]) == 0
      case Null => true
      case Overrun => false
    }
  }
}
