/**
  Messages as anyone sees them who knows the wire format and not the schema: what is
  serialised, and what is accepted, are records of the wire grammar.
*/
module WireForm {
  import opened Varint
  import opened Wire
  import opened Schema
  import opened Codec
  import opened Meaning
  import opened RoundTrip

  // ---- what is written ------------------------------------------------------------------------------------

  lemma {:induction false} WfRecsAppend(fam: Family, a: seq<Rec>, b: seq<Rec>)
    ensures WfRecs(fam, a + b) <==> WfRecs(fam, a) && WfRecs(fam, b)
  {
    hide WfRec;
    if a == [] {
      assert a + b == b;
    } else {
      assert (a + b)[1..] == a[1..] + b;
      WfRecsAppend(fam, a[1..], b);
    }
  }

  lemma PayloadWf(E: Env, fam: Family, f: Field, c: Cell)
    requires WfCell(E, f.kind, c) && 0 < FieldSize(E, f, c) < INT_MAX_SPAN
    ensures WfPayload(fam, PayloadOf(E, f.kind, c), WireType(f.kind))
  {
    hide Encode, RecsOf, Size, Enc, IsZero, RawValue, IsVarint, TagBytes, WfMsg, Zeros;
    match f.kind
    case KVarint(vt) => NumPrefix(ToU64(c.v));
    case KString => LengthPrefix(|c.text|);
    case KMessage(u) => SubPayload(E, fam, u, c.msg);
    case KLazy(u) =>
      if c.val.Live? { SubPayload(E, fam, u, c.val.msg); } else { LengthPrefix(|c.val.bytes|); }
    case _ =>
  }

  lemma SubPayload(E: Env, fam: Family, u: nat, m: Msg)
    requires Size(E, u, m) < INT_MAX_SPAN
    ensures LengthOk(fam, Encode(Size(E, u, m)), |EncRecs(RecsOf(E, u, m)) + []|)
    ensures Size(E, u, m) % TWO32 == Size(E, u, m)
  {
    hide Encode, RecsOf, Size, Enc, RawValue, IsVarint;
    LengthPrefix(Size(E, u, m));
    RecsEncode(E, u, m);
    SizeIsLength(E, u, m);
  }

  lemma FieldRecsWf(E: Env, fam: Family, t: nat, m: Msg, i: nat)
    requires WfMsg(E, t, m) && i < |m.cells| && FieldSize(E, E[t][i], m.cells[i]) < INT_MAX_SPAN
    ensures WfRecs(fam, FieldRecs(E, E[t][i], m.cells[i]))
  {
    hide FieldSize, PayloadOf, IsVarint, RawValue, Tag, Encode;
    var rs := FieldRecs(E, E[t][i], m.cells[i]);
    if rs != [] {
      TagParts(E, t, i);
      PayloadWf(E, fam, E[t][i], m.cells[i]);
      WireTypeOnly(fam, rs[0].payload, E[t][i], Tag(E[t][i]));
      assert rs[1..] == [];
    }
  }

  /** A payload other than a group's depends on the tag through the wire type only. */
  lemma WireTypeOnly(fam: Family, p: Payload, f: Field, tag: nat)
    requires WfPayload(fam, p, WireType(f.kind)) && tag % 8 == WireType(f.kind)
    ensures WfPayload(fam, p, tag)
  {
    hide LengthOk, IsVarint;
  }

  lemma {:induction false} RecsToWf(E: Env, fam: Family, t: nat, m: Msg, n: nat)
    requires WfMsg(E, t, m) && Size(E, t, m) < INT_MAX_SPAN && n <= |m.cells|
    ensures WfRecs(fam, RecsTo(E, t, m, n))
    decreases n
  {
    WfShape(E, t, m);
    hide Size, FieldSize, FieldRecs, WfRec, EncRecs, WfMsg;
    if n > 0 {
      hide WfRecs;
      RecsToWf(E, fam, t, m, n - 1);
      FieldWithin(E, t, m, n - 1, |m.cells|);
      FieldRecsWf(E, fam, t, m, n - 1);
      WfRecsAppend(fam, RecsTo(E, t, m, n - 1), FieldRecs(E, E[t][n - 1], m.cells[n - 1]));
    }
  }

  /**
    Every message of less than 2^31 bytes is written as records of the wire grammar, in both
    of its readings. So whoever skips the message as the inside of a group, knowing none of its
    fields, gets past all of it.
  */
  lemma WrittenIsGrammar(E: Env, fam: Family, t: nat, m: Msg, endTag: seq<byte>)
    requires WfMsg(E, t, m) && Size(E, t, m) < INT_MAX_SPAN
    requires TagOk(fam, endTag) && Low32(endTag) % 8 == END_GROUP
    ensures WfRecs(fam, RecsOf(E, t, m)) && EncRecs(RecsOf(E, t, m)) == Enc(E, t, m)
    ensures SkipGroup(fam, Enc(E, t, m) + endTag, 0, Low32(endTag) / 8) == At(|Enc(E, t, m) + endTag|)
  {
    hide Size, RecsTo, Enc, WfRecs, SkipGroup, RawValue, IsVarint, EncRecs;
    RecsToWf(E, fam, t, m, |m.cells|);
    RecsEncode(E, t, m);
    GroupAccepts(fam, Enc(E, t, m) + endTag, 0, RecsOf(E, t, m), endTag, Low32(endTag) / 8);
  }

  // ---- what is accepted -----------------------------------------------------------------------------------

  /** A known record of a scalar type is accepted exactly when it is a record of the grammar. */
  lemma ScalarGrammar(E: Env, t: nat, r: Rec)
    requires t < |E| && Target(E[t], Low32(r.tag)) >= 0
    requires var k := E[t][Target(E[t], Low32(r.tag))].kind; k.KVarint? || k.KFixed64? || k.KFixed32?
    ensures RecOk(E, t, r) <==> WfRec(Stream, r)
  {
    hide IsVarint, Find, RawValue;
  }

  lemma {:induction false} AcceptedRecord(E: Env, t: nat, r: Rec)
    requires t < |E| && RecOk(E, t, r) && |EncRec(r)| < INT_MAX_SPAN
    ensures WfRec(Stream, r)
  {
    hide IsVarint, Find, RawValue, EncRecs, RecsOk, Stops;
    var tag := Low32(r.tag);
    var i := Target(E[t], tag);
    if i < 0 {
      InlineIsStreamPayload(r.payload, tag);
    } else {
      AcceptedPayload(E, E[t][i].kind, r.payload, tag);
    }
  }

  lemma AcceptedPayload(E: Env, k: Kind, p: Payload, tag: nat)
    requires PayloadOk(E, k, p) && tag % 8 == WireType(k) && |EncPayload(p)| < INT_MAX_SPAN
    ensures WfPayload(Stream, p, tag)
  {
    hide RawValue, EncRecs, RecsOk, Stops;
    if k.KLazy? {
      assert IsVarint(Prefix(p), 10);
    } else if p.PBytes? {
      TruncateTwice(RawValue(p.prefix));
    } else if p.PRecords? {
      TruncateTwice(RawValue(p.prefix));
    }
  }

  /**
    Conversely, whatever a parser accepts is made of records of the wire grammar, known fields
    included; so a skipper over a stream reads the same records.
  */
  lemma {:induction false} AcceptedIsGrammar(E: Env, t: nat, rs: seq<Rec>)
    requires t < |E| && RecsOk(E, t, rs) && |EncRecs(rs)| < INT_MAX_SPAN
    ensures WfRecs(Stream, rs)
    decreases |rs|
  {
    hide RecOk, WfRec;
    if rs != [] {
      AcceptedRecord(E, t, rs[0]);
      AcceptedIsGrammar(E, t, rs[1..]);
    }
  }

  // ---- byte for byte --------------------------------------------------------------------------------------

  /** The tag byte of each type, as the "Encoding" guide lists the wire types. */
  lemma TagByte(f: Field)
    requires 1 <= f.number < 16
    ensures f.kind.KVarint? ==> TagBytes(f) == [8 * f.number]
    ensures f.kind.KFixed64? ==> TagBytes(f) == [8 * f.number + 1]
    ensures f.kind.KString? || f.kind.KMessage? || f.kind.KLazy? ==> TagBytes(f) == [8 * f.number + 2]
    ensures f.kind.KFixed32? ==> TagBytes(f) == [8 * f.number + 5]
  {
    hide Tag;
    TagValue(f);
  }

  /** A schema and a message with a member of every kind. */
  function MixedSchema(): Env
  {
    [[Field(1, KVarint(Int32))],
     [Field(1, KVarint(Int32)), Field(2, KString), Field(3, KFixed64(false)),
      Field(4, KFixed32(true)), Field(5, KMessage(0)), Field(6, KLazy(0))]]
  }

  function MixedMessage(): Msg
  {
    Msg([Num(150), Str(false, [0x74, 0x65, 0x73, 0x74]), Fix([1, 0, 0, 0, 0, 0, 0, 0]),
         Fix([0, 0, 0x80, 0x3f]), Sub(Msg([Num(3)])), Lazy(Raw([0x08, 0x04]))])
  }

  /** The bytes it is written as. */
  lemma WrittenBytes()
    ensures WfMsg(MixedSchema(), 1, MixedMessage()) && Enc(MixedSchema(), 1, MixedMessage()) ==
              [0x08, 0x96, 0x01] + [0x12, 0x04, 0x74, 0x65, 0x73, 0x74] + [0x19, 1, 0, 0, 0, 0, 0, 0, 0]
              + [0x25, 0, 0, 0x80, 0x3f] + [0x2a, 0x02, 0x08, 0x03] + [0x32, 0x02, 0x08, 0x04]
  {
    hide WfMsg, Enc, WfEnv;
    WrittenIn(MixedSchema(), MixedMessage());
  }

  lemma WrittenIn(E: Env, m: Msg)
    requires |E| == 2 && E[0] == [Field(1, KVarint(Int32))] && |E[1]| == |m.cells| == 6
    requires E[1][0] == Field(1, KVarint(Int32)) && m.cells[0] == Num(150)
    requires E[1][1] == Field(2, KString) && m.cells[1] == Str(false, [0x74, 0x65, 0x73, 0x74])
    requires E[1][2] == Field(3, KFixed64(false)) && m.cells[2] == Fix([1, 0, 0, 0, 0, 0, 0, 0])
    requires E[1][3] == Field(4, KFixed32(true)) && m.cells[3] == Fix([0, 0, 0x80, 0x3f])
    requires E[1][4] == Field(5, KMessage(0)) && m.cells[4] == Sub(Msg([Num(3)]))
    requires E[1][5] == Field(6, KLazy(0)) && m.cells[5] == Lazy(Raw([0x08, 0x04]))
    ensures WfMsg(E, 1, m) && Enc(E, 1, m) ==
              [0x08, 0x96, 0x01] + [0x12, 0x04, 0x74, 0x65, 0x73, 0x74] + [0x19, 1, 0, 0, 0, 0, 0, 0, 0]
              + [0x25, 0, 0, 0x80, 0x3f] + [0x2a, 0x02, 0x08, 0x03] + [0x32, 0x02, 0x08, 0x04]
  {
    WrittenWf(E, m);
    WrittenScalars(E, E[1][0], E[1][1], E[1][2], E[1][3]);
    WrittenMessages(E, E[1][4], E[1][5]);
    hide WfMsg, EncField;
    assert EncTo(E, 1, m, 0) == [];
    assert EncTo(E, 1, m, 1) == EncField(E, E[1][0], m.cells[0]);
    assert EncTo(E, 1, m, 2) == EncTo(E, 1, m, 1) + EncField(E, E[1][1], m.cells[1]);
    assert EncTo(E, 1, m, 3) == EncTo(E, 1, m, 2) + EncField(E, E[1][2], m.cells[2]);
    assert EncTo(E, 1, m, 4) == EncTo(E, 1, m, 3) + EncField(E, E[1][3], m.cells[3]);
    assert EncTo(E, 1, m, 5) == EncTo(E, 1, m, 4) + EncField(E, E[1][4], m.cells[4]);
    assert EncTo(E, 1, m, 6) == EncTo(E, 1, m, 5) + EncField(E, E[1][5], m.cells[5]);
  }

  lemma WrittenWf(E: Env, m: Msg)
    requires |E| == 2 && E[0] == [Field(1, KVarint(Int32))] && |E[1]| == |m.cells| == 6
    requires E[1][0] == Field(1, KVarint(Int32)) && m.cells[0] == Num(150)
    requires E[1][1] == Field(2, KString) && m.cells[1] == Str(false, [0x74, 0x65, 0x73, 0x74])
    requires E[1][2] == Field(3, KFixed64(false)) && m.cells[2] == Fix([1, 0, 0, 0, 0, 0, 0, 0])
    requires E[1][3] == Field(4, KFixed32(true)) && m.cells[3] == Fix([0, 0, 0x80, 0x3f])
    requires E[1][4] == Field(5, KMessage(0)) && m.cells[4] == Sub(Msg([Num(3)]))
    requires E[1][5] == Field(6, KLazy(0)) && m.cells[5] == Lazy(Raw([0x08, 0x04]))
    ensures WfMsg(E, 1, m)
  {
    assert WfMsg(E, 0, Msg([Num(3)]));
  }

  lemma WrittenScalars(E: Env, a: Field, b: Field, c: Field, d: Field)
    requires a == Field(1, KVarint(Int32)) && b == Field(2, KString)
    requires c == Field(3, KFixed64(false)) && d == Field(4, KFixed32(true))
    ensures EncField(E, a, Num(150)) == [0x08, 0x96, 0x01]
    ensures EncField(E, b, Str(false, [0x74, 0x65, 0x73, 0x74])) == [0x12, 0x04, 0x74, 0x65, 0x73, 0x74]
    ensures EncField(E, c, Fix([1, 0, 0, 0, 0, 0, 0, 0])) == [0x19, 1, 0, 0, 0, 0, 0, 0, 0]
    ensures EncField(E, d, Fix([0, 0, 0x80, 0x3f])) == [0x25, 0, 0, 0x80, 0x3f]
  {
    hide Tag, TagBytes, IsZero;
    TagByte(a);
    TagByte(b);
    TagByte(c);
    TagByte(d);
    Encode150();
    NotZero([1, 0, 0, 0, 0, 0, 0, 0], 0, false);
    NotZero([0, 0, 0x80, 0x3f], 2, true);
  }

  lemma Encode150()
    ensures ToU64(150) == 150 && Encode(150) == [0x96, 0x01]
    ensures Encode(4) == [0x04]
  {
    assert Encode(150) == [0x96] + Encode(1);
  }

  lemma NotZero(raw: seq<byte>, j: nat, isFloat: bool)
    requires j < |raw| && raw[j] != 0 && (isFloat ==> raw[|raw| - 1] != 0x80)
    ensures !IsZero(raw, isFloat)
  {
    assert Zeros(|raw|)[j] == 0;
  }

  lemma WrittenMessages(E: Env, a: Field, b: Field)
    requires |E| == 2 && E[0] == [Field(1, KVarint(Int32))] && a == Field(5, KMessage(0)) && b == Field(6, KLazy(0))
    ensures EncField(E, a, Sub(Msg([Num(3)]))) == [0x2a, 0x02, 0x08, 0x03]
    ensures EncField(E, b, Lazy(Raw([0x08, 0x04]))) == [0x32, 0x02, 0x08, 0x04]
  {
    hide Tag, TagBytes;
    TagByte(E[0][0]);
    TagByte(a);
    TagByte(b);
    var m := Msg([Num(3)]);
    assert ToU64(3) == 3;
    assert EncTo(E, 0, m, 0) == [];
    assert EncTo(E, 0, m, 1) == [0x08, 0x03];
    SizeIsLength(E, 0, m);
    assert 2 % TWO32 == 2;
  }

  /** Minus one, of any signed type of either width: ten bytes, without ZigZag. */
  lemma NegativeBytes(E: Env, vt: VarType)
    ensures EncField(E, Field(1, KVarint(vt)), Num(-1)) == [0x08] + (AllOnes(9) + [0x01])
  {
    hide Tag, TagBytes;
    TagByte(Field(1, KVarint(vt)));
    WidenSigned(-1);
    SixtyFourOnes();
    OnesEncode(9);
    hide OnesValue, AllOnes, Encode;
  }

  function AllOnes(n: nat): seq<byte>
  {
    if n == 0 then [] else [0xff] + AllOnes(n - 1)
  }

  /** One and `n` times seven one bits. */
  function OnesValue(n: nat): (v: nat)
    ensures v > 0
  {
    if n == 0 then 1 else 128 * OnesValue(n - 1) + 127
  }

  lemma {:induction false} OnesEncode(n: nat)
    ensures Encode(OnesValue(n)) == AllOnes(n) + [0x01]
  {
    if n != 0 {
      OnesEncode(n - 1);
      OneMore(OnesValue(n - 1));
      hide Encode;
      assert [0xff] + (AllOnes(n - 1) + [0x01]) == [0xff] + AllOnes(n - 1) + [0x01];
    }
  }

  lemma SixtyFourOnes()
    ensures OnesValue(9) == TWO64 - 1
  {
    assert OnesValue(2) == 0x7fff;
    assert OnesValue(4) == 0x1fff_ffff;
    assert OnesValue(6) == 0x7ff_ffff_ffff;
    assert OnesValue(8) == 0x1ff_ffff_ffff_ffff;
  }

  /** Seven more one bits. */
  lemma OneMore(v: nat)
    requires v > 0
    ensures Encode(128 * v + 127) == [0xff] + Encode(v)
  {
    assert (128 * v + 127) / 128 == v && (128 * v + 127) % 128 == 127;
  }

  /** Unknown fields of each wire type: what stands after the tags of field 1. */
  lemma SkippedBytes(fam: Family)
    ensures Skip(fam, [0x96, 0x01], 0, 0x08) == At(2)
    ensures Skip(fam, [1, 2, 3, 4, 5, 6, 7, 8, 9], 0, 0x09) == At(8)
    ensures Skip(fam, [0x02, 0x61, 0x62, 0x63], 0, 0x0a) == At(3)
    ensures Skip(fam, [1, 2, 3, 4, 5], 0, 0x0d) == At(4)
    ensures forall buf :: Skip(fam, buf, 0, 0x0c) == Skip(fam, buf, 0, 0x0e) == Skip(fam, buf, 0, 0x0f) == Null
  {
    hide SkipGroup, Read32;
    SkippedLength(fam, [0x02, 0x61, 0x62, 0x63]);
    assert ScanEnd([0x96, 0x01], 0, 10) == At(2) by { assert ScanEnd([0x96, 0x01], 1, 9) == At(2); }
  }

  lemma SkippedLength(fam: Family, buf: seq<byte>)
    requires |buf| == 4 && buf[0] == 0x02
    ensures Skip(fam, buf, 0, 0x0a) == At(3)
  {
    assert buf[0..1] == [0x02];
    OneByte(0x02);
    hide RawValue;
    assert ScanEnd(buf, 0, 10) == At(1);
  }

  /** A group of field 1 around a varint, and the same ended by the tag of field 2. */
  lemma SkippedGroup(fam: Family)
    ensures Skip(fam, [0x10, 0x05, 0x0c], 0, 0x0b) == At(3)
    ensures Skip(fam, [0x10, 0x05, 0x14], 0, 0x0b) == Null
  {
    GroupBytes(fam, [0x10, 0x05, 0x0c]);
    GroupBytes(fam, [0x10, 0x05, 0x14]);
  }

  lemma GroupBytes(fam: Family, buf: seq<byte>)
    requires |buf| == 3 && buf[0] == 0x10 && buf[1] == 0x05 && (buf[2] == 0x0c || buf[2] == 0x14)
    ensures Skip(fam, buf, 0, 0x0b) == if buf[2] == 0x0c then At(3) else Null
  {
    hide RawValue;
    assert buf[0..1] == [0x10] && buf[2..3] == [buf[2]];
    OneByte(0x10);
    OneByte(buf[2]);
    assert Read32(fam, buf, 0) == At(1) && Read32(fam, buf, 2) == At(3);
    assert Skip(fam, buf, 1, 0x10) == At(2);
    assert SkipGroup(fam, buf, 2, 1) == if buf[2] == 0x0c then At(3) else Null;
  }
}
