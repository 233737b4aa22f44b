/**
  Which payloads a lazy member forwards unchanged after an access: exactly those that are
  written the way `_InternalSerialize` writes.
*/
module CanonicalBytes {
  import opened Varint
  import opened Wire
  import opened Schema
  import opened Codec
  import opened Meaning
  import opened Records
  import opened RoundTrip
  import opened Laziness
  import Framing

  /** The records `_InternalSerialize` could have written: known members, in schema order, each once and written its way. */
  predicate Canonical(E: Env, t: nat, rs: seq<Rec>)
    requires t < |E|
    decreases rs, 0
  {
    && (forall j :: 0 <= j < |rs| ==> CanonicalRec(E, t, rs[j]))
    && (forall j, k :: 0 <= j < k < |rs| ==> Target(E[t], Low32(rs[j].tag)) < Target(E[t], Low32(rs[k].tag)))
  }

  predicate CanonicalRec(E: Env, t: nat, r: Rec)
    requires t < |E|
    decreases r, 2
  {
    var i := Target(E[t], Low32(r.tag));
    i >= 0 && r.tag == TagBytes(E[t][i]) && CanonicalPayload(E, E[t][i].kind, r.payload)
  }

  /** A non-default value in minimal form; a stored payload only needs a minimal prefix. */
  predicate CanonicalPayload(E: Env, k: Kind, p: Payload)
    decreases p, 1
  {
    match k
    case KVarint(vt) =>
      && p.PVarint?
      && var v := FromU64(vt, RawValue(p.raw) % TWO64);
         v != 0 && p.raw == Encode(ToU64(v))
    case KFixed64(f) => p.PFixed64? && |p.eight| == 8 && !IsZero(p.eight, f)
    case KFixed32(f) => p.PFixed32? && |p.four| == 4 && !IsZero(p.four, f)
    case KString => p.PBytes? && p.prefix == Encode(|p.body|) && p.body != []
    case KMessage(u) =>
      && p.PRecords? && p.tail == [] && EncRecs(p.inner) != [] && p.prefix == Encode(|EncRecs(p.inner)|)
      && u < |E| && Canonical(E, u, p.inner)
    case KLazy(_) => (p.PBytes? || p.PRecords?) && Prefix(p) == Encode(|Body(p)|)
  }

  // ---- canonical records are kept -------------------------------------------------------------------------

  lemma {:induction false} BytesOfEach(rs: seq<Rec>, j: nat)
    requires j < |rs|
    ensures |EncPayload(rs[j].payload)| <= |EncRec(rs[j])| <= |EncRecs(rs)|
    decreases |rs|
  {
    if j > 0 {
      assert rs[1..][j - 1] == rs[j];
      BytesOfEach(rs[1..], j - 1);
    }
  }

  lemma {:induction false} CanonicalOk(E: Env, t: nat, rs: seq<Rec>)
    requires t < |E| && Canonical(E, t, rs) && |EncRecs(rs)| < INT_MAX_SPAN
    ensures RecsOk(E, t, rs)
    decreases rs, 2
  {
    forall j | 0 <= j < |rs|
      ensures RecOk(E, t, rs[j])
    {
      BytesOfEach(rs, j);
      CanonicalRecOk(E, t, rs[j]);
    }
    AllRecsOk(E, t, rs);
  }

  lemma {:induction false} AllRecsOk(E: Env, t: nat, rs: seq<Rec>)
    requires t < |E| && forall j :: 0 <= j < |rs| ==> RecOk(E, t, rs[j])
    ensures RecsOk(E, t, rs)
  {
    hide RecOk;
    if rs != [] {
      assert forall j :: 0 <= j < |rs[1..]| ==> rs[1..][j] == rs[j + 1];
      AllRecsOk(E, t, rs[1..]);
    }
  }

  lemma {:induction false} CanonicalRecOk(E: Env, t: nat, r: Rec)
    requires t < |E| && CanonicalRec(E, t, r) && |EncPayload(r.payload)| < INT_MAX_SPAN
    ensures RecOk(E, t, r)
    decreases r, 1
  {
    hide IsVarint, RawValue, Encode, Tag, RecsOk, Canonical, Stops, IsZero, FromU64, EncRecs, ToU64, Find, WfPayload;
    var i := Target(E[t], Low32(r.tag));
    OwnTarget(E, t, i);
    var p := r.payload;
    match E[t][i].kind
    case KVarint(vt) => NumPrefix(ToU64(FromU64(vt, RawValue(p.raw) % TWO64)));
    case KString => LengthPrefix(|p.body|);
    case KMessage(u) =>
      LengthPrefix(|EncRecs(p.inner)|);
      EmptyTailStops();
      assert EncRecs(p.inner) + [] == EncRecs(p.inner);
      CanonicalOk(E, u, p.inner);
    case KLazy(_) => LengthPrefix(|Body(p)|);
    case _ =>
  }

  /** The one record of a member, if it has one. */
  lemma OnlyRecord(E: Env, t: nat, rs: seq<Rec>, i: nat, j: nat)
    requires t < |E| && Canonical(E, t, rs) && j < |rs| && Target(E[t], Low32(rs[j].tag)) == i
    ensures ForField(E, t, rs, i) == [rs[j]]
  {
    hide Target, CanonicalRec;
    var a, b := rs[..j], rs[j + 1..];
    assert rs == a + [rs[j]] + b;
    ForFieldAppend(E, t, a + [rs[j]], b, i);
    ForFieldAppend(E, t, a, [rs[j]], i);
    assert forall k :: 0 <= k < |a| ==> a[k] == rs[k];
    assert forall k :: 0 <= k < |b| ==> b[k] == rs[j + 1 + k];
    NoneForField(E, t, a, i);
    NoneForField(E, t, b, i);
    assert [rs[j]][1..] == [];
  }

  /** A default message serialises to nothing. */
  lemma {:induction false} DefaultEmpty(E: Env, t: nat)
    requires t < |E|
    ensures Size(E, t, Default(E, t)) == 0
    ensures forall i :: 0 <= i < |E[t]| ==> FieldSize(E, E[t][i], DefaultCell(E, t, i)) == 0
    decreases t
  {
    assert WfFields(E[t], t, |E|);
    forall i | 0 <= i < |E[t]|
      ensures FieldSize(E, E[t][i], DefaultCell(E, t, i)) == 0
    {
      if E[t][i].kind.KMessage? { DefaultEmpty(E, E[t][i].kind.sub); }
    }
    DefaultEmptyTo(E, t, |E[t]|);
  }

  lemma {:induction false} DefaultEmptyTo(E: Env, t: nat, n: nat)
    requires t < |E| && n <= |E[t]|
    requires forall i :: 0 <= i < |E[t]| ==> FieldSize(E, E[t][i], DefaultCell(E, t, i)) == 0
    ensures SizeTo(E, t, Default(E, t), n) == 0
  {
    hide FieldSize, DefaultCell;
    if n > 0 { DefaultEmptyTo(E, t, n - 1); }
  }

  /** A canonical record is what its own member serialises to. */
  lemma {:induction false} CanonicalField(E: Env, t: nat, r: Rec)
    requires t < |E| && CanonicalRec(E, t, r) && |EncPayload(r.payload)| < INT_MAX_SPAN
    ensures var i := Target(E[t], Low32(r.tag));
            EncField(E, E[t][i], CellOf(E, E[t][i].kind, DefaultCell(E, t, i), r.payload)) == EncRec(r)
    decreases r, 1
  {
    hide IsVarint, RawValue, Encode, Tag, Canonical, Target, FromU64, EncRecs, ToU64, ApplyAll, Enc, Size, Default, IsZero;
    var i := Target(E[t], Low32(r.tag));
    var p := r.payload;
    var f := E[t][i];
    assert EncRec(r) == TagBytes(f) + EncPayload(p);
    match f.kind
    case KMessage(u) =>
      var s := ApplyAll(E, u, Default(E, u), p.inner);
      CanonicalKept(E, u, p.inner);
      SizeIsLength(E, u, s);
      assert EncRecs(p.inner) + [] == EncRecs(p.inner);
    case KLazy(_) => LengthPrefix(|Body(p)|);
    case _ =>
  }

  /** Canonical records are what the message they mean serialises to. */
  lemma {:induction false} CanonicalKept(E: Env, t: nat, rs: seq<Rec>)
    requires t < |E| && Canonical(E, t, rs) && |EncRecs(rs)| < INT_MAX_SPAN
    ensures Enc(E, t, ApplyAll(E, t, Default(E, t), rs)) == EncRecs(rs)
    decreases rs, 3
  {
    hide ApplyAll, CanonicalRec, Target, Default;
    CanonicalKeptTo(E, t, rs, |E[t]|, |rs|);
    assert rs[..|rs|] == rs;
    DefaultCells(E, t);
  }

  lemma DefaultCells(E: Env, t: nat)
    requires t < |E|
    ensures |Default(E, t).cells| == |E[t]|
    ensures forall i :: 0 <= i < |E[t]| ==> Default(E, t).cells[i] == DefaultCell(E, t, i)
  {
  }

  /** The first `k` records are those of the first `n` members. */
  lemma {:induction false} CanonicalKeptTo(E: Env, t: nat, rs: seq<Rec>, n: nat, k: nat)
    requires t < |E| && Canonical(E, t, rs) && |EncRecs(rs)| < INT_MAX_SPAN && n <= |E[t]| && k <= |rs|
    requires forall j :: 0 <= j < k ==> Target(E[t], Low32(rs[j].tag)) < n
    requires forall j :: k <= j < |rs| ==> Target(E[t], Low32(rs[j].tag)) >= n
    ensures n <= Width(E, t, ApplyAll(E, t, Default(E, t), rs))
    ensures EncTo(E, t, ApplyAll(E, t, Default(E, t), rs), n) == EncRecs(rs[..k])
    decreases rs, 2, n
  {
    hide *;
    Shape(E, t, rs);
    var m := ApplyAll(E, t, Default(E, t), rs);
    if n == 0 {
      FirstKnown(E, t, rs);
      assert rs[..k] == [];
      NoMembers(E, t, m);
    } else if k > 0 && Target(E[t], Low32(rs[k - 1].tag)) == n - 1 {
      CanonicalKeptTo(E, t, rs, n - 1, k - 1);
      KeepOne(E, t, rs, n, k);
    } else {
      CanonicalKeptTo(E, t, rs, n - 1, k);
      EncToStep(E, t, m, n);
      NoMemberOf(E, t, rs, n - 1);
    }
  }

  /** A member and its record: each adds the same bytes. */
  lemma {:induction false} KeepOne(E: Env, t: nat, rs: seq<Rec>, n: nat, k: nat)
    requires t < |E| && Canonical(E, t, rs) && |EncRecs(rs)| < INT_MAX_SPAN && 0 < n <= |E[t]| && 0 < k <= |rs|
    requires Target(E[t], Low32(rs[k - 1].tag)) == n - 1
    ensures var m := ApplyAll(E, t, Default(E, t), rs);
            && n <= Width(E, t, m)
            && EncTo(E, t, m, n) == EncTo(E, t, m, n - 1) + EncRec(rs[k - 1])
            && EncRecs(rs[..k]) == EncRecs(rs[..k - 1]) + EncRec(rs[k - 1])
    decreases rs, 1
  {
    hide *;
    var r := rs[k - 1];
    Shape(E, t, rs);
    RecAt(E, t, rs, k - 1);
    EncToStep(E, t, ApplyAll(E, t, Default(E, t), rs), n);
    MemberOf(E, t, rs, n - 1, k - 1);
    assert rs[..k] == rs[..k - 1] + [r];
    EncRecsAppend(rs[..k - 1], [r]);
    BytesOfEach(rs, k - 1);
    LastBytes(r);
    CanonicalField(E, t, r);
  }

  lemma Shape(E: Env, t: nat, rs: seq<Rec>)
    requires t < |E| && Canonical(E, t, rs)
    ensures |Default(E, t).cells| == |E[t]| == Width(E, t, ApplyAll(E, t, Default(E, t), rs))
    ensures forall i :: 0 <= i < |E[t]| ==> Default(E, t).cells[i] == DefaultCell(E, t, i)
    ensures forall i, j :: 0 <= i < j < |rs| ==> Target(E[t], Low32(rs[i].tag)) < Target(E[t], Low32(rs[j].tag))
  {
    hide ApplyAll, CanonicalRec, Target, DefaultCell;
  }

  lemma NoMembers(E: Env, t: nat, m: Msg)
    ensures EncTo(E, t, m, 0) == [] == EncRecs([])
  {
  }

  lemma RecAt(E: Env, t: nat, rs: seq<Rec>, j: nat)
    requires t < |E| && Canonical(E, t, rs) && j < |rs|
    ensures CanonicalRec(E, t, rs[j])
  {
  }

  lemma EncToStep(E: Env, t: nat, m: Msg, n: nat)
    requires 0 < n <= Width(E, t, m)
    ensures EncTo(E, t, m, n) == EncTo(E, t, m, n - 1) + EncField(E, E[t][n - 1], m.cells[n - 1])
  {
  }

  lemma FirstKnown(E: Env, t: nat, rs: seq<Rec>)
    requires t < |E| && Canonical(E, t, rs)
    ensures rs != [] ==> Target(E[t], Low32(rs[0].tag)) >= 0
  {
    if rs != [] { assert CanonicalRec(E, t, rs[0]); }
  }

  lemma LastBytes(r: Rec)
    ensures EncRecs([r]) == EncRec(r)
  {
    assert [r][1..] == [];
  }

  lemma MemberOf(E: Env, t: nat, rs: seq<Rec>, i: nat, j: nat)
    requires t < |E| && Canonical(E, t, rs) && i < |E[t]| && j < |rs| && Target(E[t], Low32(rs[j].tag)) == i
    ensures ApplyAll(E, t, Default(E, t), rs).cells[i] == CellOf(E, E[t][i].kind, DefaultCell(E, t, i), rs[j].payload)
  {
    DefaultCells(E, t);
    hide Default, ApplyAll, Target, CanonicalRec, CellOf, DefaultCell;
    MemberFold(E, t, Default(E, t), rs, i);
    OnlyRecord(E, t, rs, i, j);
    assert [rs[j]][1..] == [];
  }

  lemma NoMemberOf(E: Env, t: nat, rs: seq<Rec>, i: nat)
    requires t < |E| && i < |E[t]| && forall j :: 0 <= j < |rs| ==> Target(E[t], Low32(rs[j].tag)) != i
    ensures EncField(E, E[t][i], ApplyAll(E, t, Default(E, t), rs).cells[i]) == []
  {
    DefaultCells(E, t);
    hide Default, ApplyAll, Target, DefaultCell, EncField, FieldSize;
    MemberFold(E, t, Default(E, t), rs, i);
    NoneForField(E, t, rs, i);
    DefaultEmpty(E, t);
    FieldSizeIsLength(E, E[t][i], DefaultCell(E, t, i));
  }

  // ---- and nothing else is ---------------------------------------------------------------------------------

  /** A message that parsing its own serialisation gives back, from a default start, to the last flag. */
  predicate Stable(E: Env, t: nat, m: Msg)
    requires t < |E|
  {
    m == ApplyAll(E, t, Default(E, t), RecsOf(E, t, m))
  }

  lemma {:induction false} StableCanonical(E: Env, t: nat, m: Msg)
    requires t < |E| && WfMsg(E, t, m) && Size(E, t, m) < INT_MAX_SPAN && Stable(E, t, m)
    ensures Canonical(E, t, RecsOf(E, t, m))
    decreases m, 2
  {
    StableCanonicalTo(E, t, m, |m.cells|);
  }

  lemma {:induction false} StableCanonicalTo(E: Env, t: nat, m: Msg, n: nat)
    requires t < |E| && WfMsg(E, t, m) && Size(E, t, m) < INT_MAX_SPAN && Stable(E, t, m) && n <= |m.cells|
    ensures Canonical(E, t, RecsTo(E, t, m, n))
    ensures forall j :: 0 <= j < |RecsTo(E, t, m, n)| ==> Target(E[t], Low32(RecsTo(E, t, m, n)[j].tag)) < n
    decreases m, 1, n
  {
    hide Size, FieldSize, WfCell, CanonicalRec, Target, PayloadOf, Stable, TagBytes;
    if n > 0 {
      StableCanonicalTo(E, t, m, n - 1);
      FieldWithin(E, t, m, n - 1, |m.cells|);
      if FieldSize(E, E[t][n - 1], m.cells[n - 1]) > 0 {
        StableRec(E, t, m, n - 1);
      }
    }
  }

  lemma {:induction false} StableRec(E: Env, t: nat, m: Msg, i: nat)
    requires t < |E| && WfMsg(E, t, m) && Stable(E, t, m) && i < |m.cells|
    requires 0 < FieldSize(E, E[t][i], m.cells[i]) < INT_MAX_SPAN
    ensures var r := Rec(TagBytes(E[t][i]), PayloadOf(E, E[t][i].kind, m.cells[i]));
            CanonicalRec(E, t, r) && Target(E[t], Low32(r.tag)) == i
    decreases m, 0
  {
    assert WfFields(E[t], t, |E|);
    StableCell(E, t, m, i);
    OwnTarget(E, t, i);
    hide Target, TagBytes, PayloadOf, FieldSize, CanonicalPayload, Stable, WfCell, CellOf, Default, Low32;
    StablePayload(E, E[t][i], m.cells[i], DefaultCell(E, t, i));
  }

  /** Every member is what its own payload sets it to. */
  lemma StableCell(E: Env, t: nat, m: Msg, i: nat)
    requires t < |E| && WfMsg(E, t, m) && Stable(E, t, m) && i < |m.cells|
    requires 0 < FieldSize(E, E[t][i], m.cells[i])
    ensures WfCell(E, E[t][i].kind, m.cells[i])
    ensures m.cells[i] == CellOf(E, E[t][i].kind, DefaultCell(E, t, i), PayloadOf(E, E[t][i].kind, m.cells[i]))
  {
    hide CellOf, PayloadOf, FieldSize, ApplyAll, RecsOf, DefaultCell, WfCell;
    DefaultCells(E, t);
    Reparsed(E, t, Default(E, t), m, i);
  }

  lemma {:induction false} StablePayload(E: Env, f: Field, c: Cell, prev: Cell)
    requires WfCell(E, f.kind, c) && 0 < FieldSize(E, f, c) < INT_MAX_SPAN
    requires f.kind.KMessage? ==> f.kind.sub < |E|
    requires f.kind.KString? ==> prev == Str(true, [])
    requires c == CellOf(E, f.kind, prev, PayloadOf(E, f.kind, c))
    ensures CanonicalPayload(E, f.kind, PayloadOf(E, f.kind, c))
    decreases c, 4
  {
    hide ApplyAll, Tag, IsVarint, RawValue, Encode, Target, IsZero, Size, RecsOf, Default, Canonical, FromU64, ToU64, EncRecs, Enc, WfMsg;
    match f.kind
    case KVarint(vt) =>
      NumPrefix(ToU64(c.v));
      assert ToU64(c.v) % TWO64 == ToU64(c.v);
      Narrow(vt, c.v);
    case KMessage(u) => StableSub(E, f, c);
    case KLazy(u) =>
      if c.val.Raw? { assert |c.val.bytes| % TWO32 == |c.val.bytes|; }
    case _ =>
  }

  lemma {:induction false} StableSub(E: Env, f: Field, c: Cell)
    requires f.kind.KMessage? && f.kind.sub < |E| && WfCell(E, f.kind, c) && 0 < FieldSize(E, f, c) < INT_MAX_SPAN
    requires c == CellOf(E, f.kind, c, PayloadOf(E, f.kind, c))
    ensures CanonicalPayload(E, f.kind, PayloadOf(E, f.kind, c))
    decreases c, 3
  {
    var u := f.kind.sub;
    hide Encode, RecsOf, ApplyAll, Size, Enc, Default, EncRecs, Canonical, WfMsg;
    SubSize(E, f, c);
    RecsEncode(E, u, c.msg);
    SizeIsLength(E, u, c.msg);
    StableInner(E, u, c.msg);
    StableCanonical(E, u, c.msg);
  }

  lemma StableInner(E: Env, u: nat, m: Msg)
    requires u < |E| && m == ApplyAll(E, u, Default(E, u), RecsOf(E, u, m))
    ensures Stable(E, u, m)
  {
  }

  /** Serialising what bytes decode to gives the bytes back exactly when they are canonical. */
  lemma ReencodesExactly(E: Env, u: nat, bytes: seq<byte>)
    requires u < |E| && |bytes| < INT_MAX_SPAN
    ensures Enc(E, u, Decode(E, u, bytes)) == bytes <==>
            exists rs :: Canonical(E, u, rs) && EncRecs(rs) == bytes
  {
    hide Enc, Decode, Canonical, ApplyAll, RecsOf, RecsOk, WfMsg, Default, EncRecs, Size;
    var d := Decode(E, u, bytes);
    if Enc(E, u, d) == bytes {
      DecodeWf(E, u, bytes);
      SizeIsLength(E, u, d);
      DecodeOwn(E, u, d);
      StableInner(E, u, d);
      StableCanonical(E, u, d);
      RecsEncode(E, u, d);
    }
    forall rs | Canonical(E, u, rs) && EncRecs(rs) == bytes
      ensures Enc(E, u, d) == bytes
    {
      CanonicalOk(E, u, rs);
      EmptyTailStops();
      assert EncRecs(rs) + [] == bytes;
      DecodeRecords(E, u, rs, []);
      CanonicalKept(E, u, rs);
    }
  }

  /** Length-prefixed payloads are equal only if the payloads are. */
  lemma FramesEqual(x: seq<byte>, y: seq<byte>)
    requires |x| < TWO32 && |y| < TWO32 && Encode(|x|) + x == Encode(|y|) + y
    ensures x == y
  {
    var p, q := Encode(|x|), Encode(|y|);
    EncodeInverse(|x|);
    EncodeInverse(|y|);
    hide Encode, RawValue;
    SamePrefix(p, x, q, y);
    assert x == (p + x)[|p|..] == (q + y)[|q|..] == y;
  }

  lemma SamePrefix(p: seq<byte>, x: seq<byte>, q: seq<byte>, y: seq<byte>)
    requires IsVarint(p, |p|) && IsVarint(q, |q|) && p + x == q + y
    ensures |p| == |q|
  {
    assert (p + x)[|p| - 1] == p[|p| - 1] && (q + y)[|q| - 1] == q[|q| - 1];
  }

  /**
    Forwarding after an access emits the bytes that were received exactly when these are the
    canonical encoding of some records; every other payload is rewritten.
  */
  lemma AccessKeepsBytesExactly(E: Env, u: nat, bytes: seq<byte>)
    requires u < |E| && |bytes| < INT_MAX_SPAN
    ensures EncLazy(E, KLazy(u), Live(Get(E, u, Raw(bytes)))) == EncLazy(E, KLazy(u), Raw(bytes)) <==>
            exists rs :: Canonical(E, u, rs) && EncRecs(rs) == bytes
  {
    hide Enc, Decode, Canonical, EncRecs, Size, Encode;
    var d := Decode(E, u, bytes);
    ReencodesExactly(E, u, bytes);
    SizeIsLength(E, u, d);
    Framing.FramedOnce(|bytes|, Size(E, u, d));
    assert |bytes| % TWO32 == |bytes|;
    if Encode(Size(E, u, d) % TWO32) + Enc(E, u, d) == Encode(|bytes|) + bytes {
      assert Framing.Framed(Size(E, u, d)) == Framing.Framed(|bytes|);
      FramesEqual(Enc(E, u, d), bytes);
    }
  }
}
