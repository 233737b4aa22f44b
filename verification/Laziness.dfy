/**
  Reading through lazy members is transparent: it may change the bytes a message serialises
  to, but not what they mean.
*/
module Laziness {
  import opened Varint
  import opened Wire
  import opened Schema
  import opened Codec
  import opened Meaning
  import opened RoundTrip

  // ---- parsed messages are well-formed -------------------------------------------------------------------

  lemma {:induction false} FieldParseWf(E: Env, t: nat, i: nat, c: Cell, buf: seq<byte>, q: nat)
    requires t < |E| && i < |E[t]| && q <= |buf| && WfCell(E, E[t][i].kind, c)
    ensures var r := ParseField(E, E[t][i].kind, c, buf, q); !r.FieldOutside? ==> WfCell(E, E[t][i].kind, r.cell)
    decreases |buf| - q, 0
  {
    hide ParseFrom, ScanEnd, RawValue, WfMsg, Default, FromU64;
    assert WfFields(E[t], t, |E|);
    var k := E[t][i].kind;
    if k.KMessage? && ScanEnd(buf, q, 10).At? {
      var s := ScanEnd(buf, q, 10).pos;
      var size := RawValue(buf[q..s]) % TWO64 % TWO32;
      DefaultWf(E, k.sub);
      WfShape(E, k.sub, Default(E, k.sub));
      if s + size <= |buf| {
        ParseWf(E, k.sub, Default(E, k.sub), buf[s..s + size], 0);
      }
    }
  }

  /** Every parse leaves values of the declared types in every member. */
  lemma {:induction false} ParseWf(E: Env, t: nat, m: Msg, buf: seq<byte>, pos: nat)
    requires WfMsg(E, t, m) && pos <= |buf|
    ensures var r := ParseFrom(E, t, m, buf, pos); !r.Outside? ==> WfMsg(E, t, r.msg)
    decreases |buf| - pos, 2
  {
    hide ParseField, RawValue, WfCell, Skip, Find;
    if pos < |buf| && ScanEnd(buf, pos, 10).At? {
      var q := ScanEnd(buf, pos, 10).pos;
      var tag := Low32(buf[pos..q]);
      var i := Find(E[t], tag / 8);
      if i >= 0 {
        FieldParseWf(E, t, i, m.cells[i], buf, q);
      }
      var r := ParseRecord(E, t, m, buf, q, tag);
      if tag != 0 && r.Ok? {
        ParseWf(E, t, r.msg, buf, r.pos);
      }
    }
  }

  lemma DecodeWf(E: Env, t: nat, bytes: seq<byte>)
    requires t < |E|
    ensures WfMsg(E, t, Decode(E, t, bytes))
  {
    hide ParseFrom, WfMsg, Default;
    DefaultWf(E, t);
    WfShape(E, t, Default(E, t));
    ParseWf(E, t, Default(E, t), bytes, 0);
  }

  lemma {:induction false} MergeWf(E: Env, t: nat, to: Msg, from: Msg)
    requires WfMsg(E, t, to) && WfMsg(E, t, from)
    ensures WfMsg(E, t, Merge(E, t, to, from))
    decreases from
  {
    hide Size, Decode;
    assert WfFields(E[t], t, |E|);
    forall i | 0 <= i < |E[t]|
      ensures WfCell(E, E[t][i].kind, MergeCell(E, E[t][i].kind, to.cells[i], from.cells[i]))
    {
      var k, f := E[t][i].kind, from.cells[i];
      if k.KMessage? {
        MergeWf(E, k.sub, to.cells[i].msg, f.msg);
      } else if k.KLazy? {
        DefaultWf(E, k.sub);
        if f.val.Raw? { DecodeWf(E, k.sub, f.val.bytes); }
      }
    }
  }

  /** Stored bytes that are well-formed records decode to their meaning. */
  lemma DecodeRecords(L: Env, u: nat, inner: seq<Rec>, tail: seq<byte>)
    requires u < |L| && RecsOk(L, u, inner) && Stops(tail)
    ensures Decode(L, u, EncRecs(inner) + tail) == ApplyAll(L, u, Default(L, u), inner)
  {
    hide ParseFrom, ApplyAll, RecsOk, Stops, StopAt, EncRecs;
    var body := EncRecs(inner) + tail;
    assert body[0..] == body;
    ParseAccepts(L, u, Default(L, u), inner, tail, body, 0);
  }

  // ---- reading through lazy members -------------------------------------------------------------------------

  /** The state after calling the getters along `path`: the lazy members on it have been parsed. */
  function Touch(E: Env, t: nat, m: Msg, path: seq<nat>): (m': Msg)
    ensures |m'.cells| == |m.cells|
    decreases path, 1
  {
    if path == [] || path[0] >= Width(E, t, m) then m
    else Msg(m.cells[path[0] := TouchCell(E, E[t][path[0]].kind, m.cells[path[0]], path)])
  }

  function TouchCell(E: Env, k: Kind, c: Cell, path: seq<nat>): Cell
    requires path != []
    decreases path, 0
  {
    match c
    case Sub(m) => if k.KMessage? then Sub(Touch(E, k.sub, m, path[1..])) else c
    case Lazy(val) =>
      if k.KLazy? && k.sub < |E| && val != Unset then Lazy(Live(Touch(E, k.sub, Get(E, k.sub, val), path[1..]))) else c
    case _ => c
  }

  /** Reading changes no getter anywhere. */
  lemma {:induction false} TouchSeen(E: Env, t: nat, m: Msg, path: seq<nat>, other: seq<nat>)
    ensures See(E, t, Touch(E, t, m, path), other) == See(E, t, m, other)
    decreases |path|
  {
    hide Decode, Default;
    if path != [] && path[0] < Width(E, t, m) && other != [] && other[0] == path[0] {
      var k, c := E[t][path[0]].kind, m.cells[path[0]];
      if c.Sub? && k.KMessage? {
        TouchSeen(E, k.sub, c.msg, path[1..], other[1..]);
      } else if c.Lazy? && k.KLazy? && k.sub < |E| && c.val != Unset {
        TouchSeen(E, k.sub, Get(E, k.sub, c.val), path[1..], other[1..]);
      }
    }
  }

  lemma {:induction false} TouchWf(E: Env, t: nat, m: Msg, path: seq<nat>)
    requires WfMsg(E, t, m)
    ensures WfMsg(E, t, Touch(E, t, m, path))
    decreases |path|
  {
    hide Decode, Default;
    if path != [] && path[0] < |m.cells| {
      var k, c := E[t][path[0]].kind, m.cells[path[0]];
      assert WfFields(E[t], t, |E|);
      if k.KMessage? {
        TouchWf(E, k.sub, c.msg, path[1..]);
      } else if k.KLazy? && c.val != Unset {
        if c.val.Raw? { DecodeWf(E, k.sub, c.val.bytes); }
        TouchWf(E, k.sub, Get(E, k.sub, c.val), path[1..]);
      }
    }
  }

  /** Any number of getter chains, one after the other. */
  function TouchAll(E: Env, t: nat, m: Msg, paths: seq<seq<nat>>): (m': Msg)
    decreases |paths|
  {
    if paths == [] then m else Touch(E, t, TouchAll(E, t, m, paths[..|paths| - 1]), paths[|paths| - 1])
  }

  lemma {:induction false} TouchAllSeen(E: Env, t: nat, m: Msg, paths: seq<seq<nat>>, other: seq<nat>)
    ensures See(E, t, TouchAll(E, t, m, paths), other) == See(E, t, m, other)
    decreases |paths|
  {
    hide See, Touch;
    if paths != [] {
      var before := paths[..|paths| - 1];
      TouchSeen(E, t, TouchAll(E, t, m, before), paths[|paths| - 1], other);
      TouchAllSeen(E, t, m, before, other);
    }
  }

  lemma {:induction false} TouchAllWf(E: Env, t: nat, m: Msg, paths: seq<seq<nat>>)
    requires WfMsg(E, t, m)
    ensures WfMsg(E, t, TouchAll(E, t, m, paths))
    decreases |paths|
  {
    hide WfMsg, Touch;
    if paths != [] {
      var before := paths[..|paths| - 1];
      TouchAllWf(E, t, m, before);
      TouchWf(E, t, TouchAll(E, t, m, before), paths[|paths| - 1]);
    }
  }

  /**
    Forwarding with or without access means the same: whatever was read before serialising,
    in any order and any number of times, the receiver's getters all return what the sender's
    return.
  */
  lemma ForwardAfterAccess(E: Env, t: nat, start: Msg, m: Msg, paths: seq<seq<nat>>, other: seq<nat>)
    requires WfMsg(E, t, m) && Blank(E, t, start)
    requires Size(E, t, m) < INT_MAX_SPAN && Size(E, t, TouchAll(E, t, m, paths)) < INT_MAX_SPAN
    ensures var r := ParseFrom(E, t, start, Enc(E, t, m), 0);
            var r' := ParseFrom(E, t, start, Enc(E, t, TouchAll(E, t, m, paths)), 0);
            && r.Ok? && r'.Ok?
            && See(E, t, r'.msg, other) == See(E, t, r.msg, other) == See(E, t, m, other)
  {
    hide ParseFrom, Enc, Size, See, TouchAll, WfMsg;
    TouchAllWf(E, t, m, paths);
    TouchAllSeen(E, t, m, paths, other);
    RoundTrips(E, t, start, m, other);
    RoundTrips(E, t, start, TouchAll(E, t, m, paths), other);
  }

  /** An untouched lazy member is forwarded as length plus exactly the bytes it received. */
  lemma UntouchedIsVerbatim(E: Env, u: nat, buf: seq<byte>, q: nat, c: Cell)
    requires u < |E| && q <= |buf| < INT_MAX_SPAN && ParseField(E, KLazy(u), c, buf, q).FieldOk?
    ensures var r := ParseField(E, KLazy(u), c, buf, q);
            exists s :: && q < s <= r.end && ScanEnd(buf, q, 5) == At(s)
                        && EncLazy(E, KLazy(u), r.cell.val) == Encode(r.end - s) + buf[s..r.end]
  {
    hide RawValue, Encode, IsVarint;
    var s := ScanEnd(buf, q, 5).pos;
    var size := Low32(buf[q..s]);
    assert size % TWO32 == size;
    hide ScanEnd;
  }

  /** After an access the bytes may differ: here a padded varint becomes a default and vanishes. */
  lemma AccessMayChangeBytes()
    ensures var E: Env := [[Field(1, KVarint(Int32))]];
            var bytes: seq<byte> := [0x08, 0x80, 0x00];
            && EncLazy(E, KLazy(0), Raw(bytes)) == [3] + bytes
            && EncLazy(E, KLazy(0), Live(Decode(E, 0, bytes))) == [0]
  {
    var E: Env := [[Field(1, KVarint(Int32))]];
    var bytes: seq<byte> := [0x08, 0x80, 0x00];
    DecodesPadded(E, bytes);
    hide *;
    ShortForms(E, 0, bytes, Decode(E, 0, bytes));
  }

  lemma ShortForms(E: Env, u: nat, bytes: seq<byte>, d: Msg)
    requires u < |E| && |bytes| < 128 && |E[u]| == |d.cells| == 1 && d.cells[0] == Num(0)
    ensures EncLazy(E, KLazy(u), Raw(bytes)) == [|bytes|] + bytes
    ensures EncLazy(E, KLazy(u), Live(d)) == [0]
  {
    assert SizeTo(E, u, d, 0) == 0;
    assert SizeTo(E, u, d, 1) == 0;
    SizeIsLength(E, u, d);
    assert Enc(E, u, d) == [];
  }

  lemma DecodesPadded(E: Env, bytes: seq<byte>)
    requires |E| > 0 && E[0] == [Field(1, KVarint(Int32))] && bytes == [0x08, 0x80, 0x00]
    ensures Decode(E, 0, bytes).cells == [Num(0)]
  {
    hide Decode, ParseFrom, Default, ApplyAll;
    var r := Rec([0x08], PVarint([0x80, 0x00]));
    PaddedZero(E, r);
    assert [r][1..] == [];
    assert EncRec(r) == [0x08] + [0x80, 0x00];
    assert EncRecs([r]) + [] == bytes;
    EmptyTailStops();
    DecodeRecords(E, 0, [r], []);
  }

  lemma PaddedZero(E: Env, r: Rec)
    requires |E| > 0 && E[0] == [Field(1, KVarint(Int32))] && r == Rec([0x08], PVarint([0x80, 0x00]))
    ensures RecsOk(E, 0, [r])
    ensures ApplyAll(E, 0, Default(E, 0), [r]).cells == [Num(0)]
  {
    PaddedRecord(E, r);
    hide *;
    OneRecord(E, r, Default(E, 0));
  }

  lemma PaddedRecord(E: Env, r: Rec)
    requires |E| > 0 && E[0] == [Field(1, KVarint(Int32))] && r == Rec([0x08], PVarint([0x80, 0x00]))
    ensures RecOk(E, 0, r)
    ensures Apply(E, 0, Default(E, 0), r).cells == [Num(0)]
  {
    PaddedValues();
    hide RawValue;
    assert FromU64(Int32, 0) == 0;
    assert Target(E[0], Low32(r.tag)) == 0;
  }

  lemma OneRecord(E: Env, r: Rec, m: Msg)
    requires |E| > 0 && RecOk(E, 0, r) && |m.cells| == |E[0]|
    ensures RecsOk(E, 0, [r]) && ApplyAll(E, 0, m, [r]) == Apply(E, 0, m, r)
  {
    hide RecOk, Apply;
    assert [r][1..] == [];
  }

  lemma PaddedValues()
    ensures RawValue([0x08]) == 8 && RawValue([0x80, 0x00]) == 0
  {
    assert [0x08 as byte][1..] == [] && [0x80 as byte, 0x00][1..] == [0x00] && [0x00 as byte][1..] == [];
  }
}
