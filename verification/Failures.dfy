/** Parses that end in `nullptr`: when they do, and what they leave in the message. */
module Failures {
  import opened Varint
  import opened Wire
  import opened Schema
  import opened Codec
  import opened Meaning

  /** The bytes of an eager submessage whose length is at `q`, if they lie in the buffer. */
  function Slice(buf: seq<byte>, q: nat): seq<byte>
    requires q <= |buf|
  {
    match ScanEnd(buf, q, 10)
    case At(s) =>
      ScanRecognises(buf, q, 10, s);
      var size := Low32(buf[q..s]);
      if size < INT_MAX_SPAN && s + size <= |buf| then buf[s..s + size] else []
    case _ => []
  }

  /**
    The record that begins at `at` has a tag and is the one that cannot be read: its varint or
    length has more bytes than the reader takes, no payload for its tag lies there, or it is an
    eager submessage that fails inside.
  */
  predicate FailsAt(E: Env, t: nat, buf: seq<byte>, at: nat)
    requires t < |E|
  {
    && ScanEnd(buf, at, 10).At?
    && var q := ScanEnd(buf, at, 10).pos;
       ScanRecognises(buf, at, 10, q);
       var tag := Low32(buf[at..q]);
       && tag != 0
       && if Target(E[t], tag) < 0 then Skip(Inline, buf, q, tag) == Null
          else match E[t][Target(E[t], tag)].kind {
            case KVarint(_) => ScanEnd(buf, q, 10) == Null
            case KString => ScanEnd(buf, q, 10) == Null
            case KLazy(_) => ScanEnd(buf, q, 5) == Null
            case KMessage(u) =>
              assert WfFields(E[t], t, |E|);
              ScanEnd(buf, q, 10) == Null || ParseFrom(E, u, Default(E, u), Slice(buf, q), 0).Failed?
            case _ => false
          }
  }

  /** The message as the failing record leaves it: only a submessage that failed inside has changed. */
  function LeftBehind(E: Env, t: nat, before: Msg, buf: seq<byte>, at: nat): Msg
    requires t < |E| && |before.cells| == |E[t]| && FailsAt(E, t, buf, at)
  {
    var q := ScanEnd(buf, at, 10).pos;
    var i := (ScanRecognises(buf, at, 10, q); Target(E[t], Low32(buf[at..q])));
    if i >= 0 && E[t][i].kind.KMessage? && ScanEnd(buf, q, 10) != Null then
      Msg(before.cells[i := Sub(ParseFrom(E, E[t][i].kind.sub, Default(E, E[t][i].kind.sub), Slice(buf, q), 0).msg)])
    else before
  }

  lemma FieldFails(E: Env, k: Kind, c: Cell, buf: seq<byte>, q: nat)
    requires q <= |buf| && (k.KMessage? ==> k.sub < |E|)
    ensures var r := ParseField(E, k, c, buf, q);
            match k {
              case KVarint(_) => r.FieldFailed? <==> ScanEnd(buf, q, 10) == Null
              case KString => r.FieldFailed? <==> ScanEnd(buf, q, 10) == Null
              case KLazy(_) => r.FieldFailed? <==> ScanEnd(buf, q, 5) == Null
              case KMessage(u) =>
                r.FieldFailed? <==> ScanEnd(buf, q, 10) == Null || ParseFrom(E, u, Default(E, u), Slice(buf, q), 0).Failed?
              case _ => !r.FieldFailed?
            }
    ensures var r := ParseField(E, k, c, buf, q);
            r.FieldFailed? ==>
              r.cell == if k.KMessage? && ScanEnd(buf, q, 10) != Null
                        then Sub(ParseFrom(E, k.sub, Default(E, k.sub), Slice(buf, q), 0).msg) else c
  {
    hide ParseFrom, RawValue, Default, FromU64, IsVarint;
    if k.KMessage? {
      EmptySucceeds(E, k.sub);
      if ScanEnd(buf, q, 10).At? {
        ScanRecognises(buf, q, 10, ScanEnd(buf, q, 10).pos);
        TruncateTwice(RawValue(buf[q..ScanEnd(buf, q, 10).pos]));
      }
    }
  }

  lemma EmptySucceeds(E: Env, u: nat)
    requires u < |E|
    ensures ParseFrom(E, u, Default(E, u), [], 0).Ok?
  {
    hide Default;
  }

  lemma RecordFails(E: Env, t: nat, m: Msg, buf: seq<byte>, at: nat)
    requires t < |E| && |m.cells| == |E[t]| && ScanEnd(buf, at, 10).At?
    ensures at < ScanEnd(buf, at, 10).pos <= |buf|
    ensures var q := ScanEnd(buf, at, 10).pos;
            Low32(buf[at..q]) != 0 ==>
              && (FailsAt(E, t, buf, at) <==> ParseRecord(E, t, m, buf, q, Low32(buf[at..q])).Failed?)
              && (FailsAt(E, t, buf, at) ==>
                    ParseRecord(E, t, m, buf, q, Low32(buf[at..q])) == Failed(LeftBehind(E, t, m, buf, at)))
  {
    hide ParseFrom, ParseField, RawValue, Default, ScanEnd, Find, Skip, Slice;
    var q := ScanEnd(buf, at, 10).pos;
    ScanRecognises(buf, at, 10, q);
    assert WfFields(E[t], t, |E|);
    var i := Target(E[t], Low32(buf[at..q]));
    if i >= 0 {
      FieldFails(E, E[t][i].kind, m.cells[i], buf, q);
    }
  }

  /** Well-formed records are read and applied, whatever follows them. */
  lemma {:induction false} ReadsPrefix(E: Env, t: nat, m: Msg, rs: seq<Rec>, buf: seq<byte>, pos: nat)
    requires t < |E| && |m.cells| == |E[t]| && RecsOk(E, t, rs) && HasAt(buf, pos, EncRecs(rs))
    ensures ParseFrom(E, t, m, buf, pos) == ParseFrom(E, t, ApplyAll(E, t, m, rs), buf, pos + |EncRecs(rs)|)
    decreases |rs|
  {
    hide ParseFrom, RecOk, Apply, EncRec;
    if rs != [] {
      HasAtSplit(buf, pos, EncRec(rs[0]), EncRecs(rs[1..]));
      var next := pos + |EncRec(rs[0])|;
      assert buf[pos..] == EncRec(rs[0]) + buf[next..];
      ParseOne(E, t, m, rs[0], buf[next..], buf, pos);
      ReadsPrefix(E, t, Apply(E, t, m, rs[0]), rs[1..], buf, next);
    }
  }

  /** The record a successful turn of the loop read, put before those read after it. */
  lemma RecordBefore(E: Env, t: nat, m: Msg, buf: seq<byte>, pos: nat, q: nat, rest: seq<Rec>) returns (rs: seq<Rec>)
    requires t < |E| && |m.cells| == |E[t]| && pos < q <= |buf| < INT_MAX_SPAN && IsVarint(buf[pos..q], 10)
    requires Low32(buf[pos..q]) != 0 && ParseRecord(E, t, m, buf, q, Low32(buf[pos..q])).Ok?
    requires RecsOk(E, t, rest) && HasAt(buf, ParseRecord(E, t, m, buf, q, Low32(buf[pos..q])).pos, EncRecs(rest))
    ensures RecsOk(E, t, rs) && HasAt(buf, pos, EncRecs(rs))
    ensures pos + |EncRecs(rs)| == ParseRecord(E, t, m, buf, q, Low32(buf[pos..q])).pos + |EncRecs(rest)|
  {
    hide ParseRecord, RawValue, RecOk, IsVarint, EncPayload;
    var tag := buf[pos..q];
    var end := ParseRecord(E, t, m, buf, q, Low32(tag)).pos;
    var p := RecordSound(E, t, m, tag, buf, q);
    rs := [Rec(tag, p)] + rest;
    ConsRec(Inline, tag, p, rest);
    assert rs[1..] == rest;
    assert buf[pos..end] == tag + EncPayload(p);
    HasAtSplit(buf, pos, tag + EncPayload(p), EncRecs(rest));
  }

  lemma {:induction false} FailureFound(E: Env, t: nat, m: Msg, buf: seq<byte>, pos: nat) returns (rs: seq<Rec>)
    requires t < |E| && |m.cells| == |E[t]| && pos <= |buf| < INT_MAX_SPAN && ParseFrom(E, t, m, buf, pos).Failed?
    ensures RecsOk(E, t, rs) && HasAt(buf, pos, EncRecs(rs)) && FailsAt(E, t, buf, pos + |EncRecs(rs)|)
    decreases |buf| - pos
  {
    hide ParseRecord, RawValue, FailsAt, RecOk, ScanEnd, IsVarint, EncRec, HasAt, LeftBehind;
    var q := ScanEnd(buf, pos, 10).pos;
    ScanRecognises(buf, pos, 10, q);
    var step := ParseRecord(E, t, m, buf, q, Low32(buf[pos..q]));
    ParseStep(E, t, m, buf, pos, q, step);
    hide ParseFrom;
    if step.Ok? {
      var rest := FailureFound(E, t, step.msg, buf, step.pos);
      rs := RecordBefore(E, t, m, buf, pos, q, rest);
    } else {
      rs := [];
      RecordFails(E, t, m, buf, pos);
      assert HasAt(buf, pos, []) by { NothingAt(buf, pos); }
    }
  }

  lemma NothingAt(buf: seq<byte>, pos: nat)
    requires pos <= |buf|
    ensures HasAt(buf, pos, [])
  {
  }

  /**
    A parse fails exactly where some well-formed records are followed by one that fails, and
    then leaves the meaning of those records; of the failing one it leaves nothing, except that
    an eager submessage keeps what its own parse got to.
  */
  lemma FailsExactly(E: Env, t: nat, m: Msg, buf: seq<byte>)
    requires t < |E| && |m.cells| == |E[t]| && |buf| < INT_MAX_SPAN
    ensures ParseFrom(E, t, m, buf, 0).Failed? <==>
            exists rs :: RecsOk(E, t, rs) && HasAt(buf, 0, EncRecs(rs)) && FailsAt(E, t, buf, |EncRecs(rs)|)
    ensures forall rs :: RecsOk(E, t, rs) && HasAt(buf, 0, EncRecs(rs)) && FailsAt(E, t, buf, |EncRecs(rs)|) ==>
              ParseFrom(E, t, m, buf, 0) == Failed(LeftBehind(E, t, ApplyAll(E, t, m, rs), buf, |EncRecs(rs)|))
  {
    hide ParseFrom, RecsOk, FailsAt, LeftBehind, EncRecs, ApplyAll;
    if ParseFrom(E, t, m, buf, 0).Failed? {
      var rs := FailureFound(E, t, m, buf, 0);
    }
    forall rs | RecsOk(E, t, rs) && HasAt(buf, 0, EncRecs(rs)) && FailsAt(E, t, buf, |EncRecs(rs)|)
      ensures ParseFrom(E, t, m, buf, 0) == Failed(LeftBehind(E, t, ApplyAll(E, t, m, rs), buf, |EncRecs(rs)|))
    {
      ReadsPrefix(E, t, m, rs, buf, 0);
      FailsHere(E, t, ApplyAll(E, t, m, rs), buf, |EncRecs(rs)|);
    }
  }

  lemma FailsHere(E: Env, t: nat, m: Msg, buf: seq<byte>, at: nat)
    requires t < |E| && |m.cells| == |E[t]| && at <= |buf| && FailsAt(E, t, buf, at)
    ensures ParseFrom(E, t, m, buf, at) == Failed(LeftBehind(E, t, m, buf, at))
  {
    RecordFails(E, t, m, buf, at);
    var q := ScanEnd(buf, at, 10).pos;
    var tag := Low32(buf[at..q]);
    var step := ParseRecord(E, t, m, buf, q, tag);
    hide LeftBehind, ParseRecord, ParseFrom;
    ParseStep(E, t, m, buf, at, q, step);
  }
}
