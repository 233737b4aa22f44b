/**
  The emitted message class as it runs: loops over the fields, writes into a buffer, member
  assignments. Every method is proved against the functions of `Codec`.
*/
module GeneratedMessage {
  import opened Varint
  import opened VarintCode
  import opened Wire
  import SkipperCode
  import opened Schema
  import opened Codec
  import opened Meaning
  import opened RoundTrip
  import Laziness

  // ---- ByteSizeLong ---------------------------------------------------------------------------------

  /** Emitted `ByteSizeLong`: one block per field, the tag's size a literal the generator computed. */
  method ByteSizeLong(E: Env, t: nat, m: Msg) returns (total: nat)
    requires WfMsg(E, t, m) && Size(E, t, m) < INT_MAX_SPAN
    ensures total == Size(E, t, m)
    decreases m, 2
  {
    hide Size, FieldSize, WfCell;
    total := 0;
    for i := 0 to |E[t]|
      invariant total == SizeTo(E, t, m, i)
    {
      FieldWithin(E, t, m, i, |E[t]|);
      var n := FieldByteSize(E, t, i, m.cells[i]);
      total := total + n;
    }
    assert Size(E, t, m) == SizeTo(E, t, m, |E[t]|) by { SizeUnfold(E, t, m); }
  }

  lemma SizeUnfold(E: Env, t: nat, m: Msg)
    requires WfMsg(E, t, m)
    ensures Size(E, t, m) == SizeTo(E, t, m, |E[t]|)
    ensures Enc(E, t, m) == EncTo(E, t, m, |E[t]|)
  {
  }

  method FieldByteSize(E: Env, t: nat, i: nat, c: Cell) returns (n: nat)
    requires t < |E| && i < |E[t]| && WfCell(E, E[t][i].kind, c)
    requires FieldSize(E, E[t][i], c) < INT_MAX_SPAN
    ensures n == FieldSize(E, E[t][i], c)
    decreases c, 2
  {
    hide Encode, Size, WfMsg, Tag;
    assert WfFields(E[t], t, |E|);
    var f := E[t][i];
    var tagSize := GeneratorVarintSize(Tag(f));
    n := 0;
    match f.kind
    case KString =>
      if !c.isDefault {
        var prefix := VarintSize(|c.text|);
        n := tagSize + prefix + |c.text|;
      }
    case KLazy(u) =>
      var size := LazyByteSize(E, u, c.val);
      if size > 0 { n := tagSize + size; }
    case KMessage(u) =>
      SubSize(E, f, c);
      var payload := ByteSizeLong(E, u, c.msg);
      if payload > 0 {
        var prefix := VarintSize(payload);
        n := tagSize + prefix + payload;
      }
    case KFixed64(isFloat) => if !IsZero(c.raw, isFloat) { n := tagSize + 8; }
    case KFixed32(isFloat) => if !IsZero(c.raw, isFloat) { n := tagSize + 4; }
    case KVarint(_) =>
      if c.v != 0 {
        var payload := VarintSize(ToU64(c.v));
        n := tagSize + payload;
      }
  }

  /** `LazyField::ByteSizeLong` in a fixed state. */
  method LazyByteSize(E: Env, u: nat, val: LazyVal) returns (n: nat)
    requires u < |E| && (val.Live? ==> WfMsg(E, u, val.msg)) && LazySize(E, KLazy(u), val) < INT_MAX_SPAN
    ensures n == LazySize(E, KLazy(u), val)
    decreases val, 1
  {
    hide Encode, Size, WfMsg;
    match val
    case Unset => n := 0;
    case Raw(bytes) =>
      var prefix := VarintSize(|bytes| % TWO32);
      n := prefix + |bytes|;
    case Live(m) =>
      var payload := ByteSizeLong(E, u, m);
      var prefix := VarintSize(payload % TWO32);
      n := prefix + payload;
  }

  // ---- _InternalSerialize -----------------------------------------------------------------------------

  /**
    Emitted `_InternalSerialize`: writes exactly `ByteSizeLong()` bytes, the encoding, from
    `at` on, and changes no other byte of the buffer.
  */
  method InternalSerialize(E: Env, t: nat, m: Msg, target: array<byte>, at: nat) returns (end: nat)
    requires WfMsg(E, t, m) && Size(E, t, m) < INT_MAX_SPAN
    requires at + Size(E, t, m) <= target.Length
    modifies target
    ensures end == at + Size(E, t, m) == at + |Enc(E, t, m)|
    ensures target[..] == Splice(old(target[..]), at, Enc(E, t, m))
    decreases m, 2
  {
    hide Size, FieldSize, WfCell, Enc, EncField, Splice;
    SizeUnfold(E, t, m);
    SizeIsLengthTo(E, t, m, |E[t]|);
    ghost var before := target[..];
    SpliceNothing(before, at);
    end := at;
    for i := 0 to |E[t]|
      invariant |EncTo(E, t, m, i)| == SizeTo(E, t, m, i)
      invariant end == at + SizeTo(E, t, m, i) <= target.Length
      invariant target[..] == Splice(before, at, EncTo(E, t, m, i))
    {
      FieldWithin(E, t, m, i, i + 1);
      FieldWithin(E, t, m, i, |E[t]|);
      SizeGrows(E, t, m, i + 1, |E[t]|);
      FieldSizeIsLength(E, E[t][i], m.cells[i]);
      SpliceTwice(before, at, EncTo(E, t, m, i), EncField(E, E[t][i], m.cells[i]));
      end := SerializeField(E, t, i, m.cells[i], target, end);
    }
  }

  lemma SpliceNothing(s: seq<byte>, at: nat)
    requires at <= |s|
    ensures Splice(s, at, []) == s
  {
  }

  lemma FieldLayout(E: Env, f: Field, c: Cell)
    requires FieldSize(E, f, c) > 0
    ensures EncField(E, f, c) == TagBytes(f) + PayloadBytes(E, f.kind, c)
  {
    hide Size, Tag, IsZero, Enc, EncLazy, Encode, ToU64;
  }

  method SerializeField(E: Env, t: nat, i: nat, c: Cell, target: array<byte>, at: nat) returns (end: nat)
    requires t < |E| && i < |E[t]| && WfCell(E, E[t][i].kind, c)
    requires FieldSize(E, E[t][i], c) < INT_MAX_SPAN && at + FieldSize(E, E[t][i], c) <= target.Length
    modifies target
    ensures end == at + FieldSize(E, E[t][i], c) == at + |EncField(E, E[t][i], c)|
    ensures target[..] == Splice(old(target[..]), at, EncField(E, E[t][i], c))
    decreases c, 2
  {
    hide WfCell, Tag, Encode, FieldSize, EncField, PayloadBytes, Splice;
    assert WfFields(E[t], t, |E|);
    var f := E[t][i];
    ghost var before := target[..];
    FieldSizeIsLength(E, f, c);
    assert Tag(f) < TWO32 by { TagParts(E, t, i); }
    var emitted := IsEmitted(E, t, i, c);
    if !emitted {
      end := at;
      SpliceNothing(before, at);
      return;
    }
    FieldLayout(E, f, c);
    ghost var payload := PayloadBytes(E, f.kind, c);
    end := WriteVarint(target, at, Tag(f));
    SpliceTwice(before, at, TagBytes(f), payload);
    end := SerializePayload(E, f.kind, c, target, end);
  }

  /** The `if` around each block. */
  method IsEmitted(E: Env, t: nat, i: nat, c: Cell) returns (emitted: bool)
    requires t < |E| && i < |E[t]| && WfCell(E, E[t][i].kind, c)
    requires FieldSize(E, E[t][i], c) < INT_MAX_SPAN
    ensures emitted <==> FieldSize(E, E[t][i], c) > 0
    decreases c, 1
  {
    hide Encode, Size, WfMsg, Tag, IsZero;
    assert WfFields(E[t], t, |E|);
    match E[t][i].kind
    case KString => emitted := !c.isDefault;
    case KLazy(u) =>
      var size := LazyByteSize(E, u, c.val);
      emitted := size > 0;
    case KMessage(u) =>
      SubSize(E, E[t][i], c);
      var payload := ByteSizeLong(E, u, c.msg);
      emitted := payload > 0;
    case KVarint(_) => emitted := c.v != 0;
    case KFixed64(isFloat) => emitted := !IsZero(c.raw, isFloat);
    case KFixed32(isFloat) => emitted := !IsZero(c.raw, isFloat);
  }

  /** What follows the tag. */
  function PayloadBytes(E: Env, k: Kind, c: Cell): seq<byte>
  {
    match c
    case Num(v) => Encode(ToU64(v))
    case Fix(raw) => raw
    case Str(_, text) => Encode(|text|) + text
    case Sub(m) => if k.KMessage? then Encode(Size(E, k.sub, m)) + Enc(E, k.sub, m) else []
    case Lazy(val) => EncLazy(E, k, val)
  }

  method SerializePayload(E: Env, k: Kind, c: Cell, target: array<byte>, at: nat) returns (end: nat)
    requires WfCell(E, k, c) && (k.KLazy? ==> k.sub < |E|)
    requires |PayloadBytes(E, k, c)| < INT_MAX_SPAN && at + |PayloadBytes(E, k, c)| <= target.Length
    modifies target
    ensures end == at + |PayloadBytes(E, k, c)|
    ensures target[..] == Splice(old(target[..]), at, PayloadBytes(E, k, c))
    decreases c, 1
  {
    hide Size, WfMsg, Enc, Encode, EncLazy, ToU64, Splice;
    ghost var before := target[..];
    match k
    case KString =>
      SpliceTwice(before, at, Encode(|c.text|), c.text);
      end := WriteVarint(target, at, |c.text|);
      end := CopyBytes(target, end, c.text);
    case KLazy(u) => end := SerializeLazy(E, u, c.val, target, at);
    case KMessage(u) =>
      SizeIsLength(E, u, c.msg);
      SpliceTwice(before, at, Encode(Size(E, u, c.msg)), Enc(E, u, c.msg));
      var size := ByteSizeLong(E, u, c.msg);
      end := WriteVarint(target, at, size);
      end := InternalSerialize(E, u, c.msg, target, end);
    case KVarint(_) => end := WriteVarint(target, at, ToU64(c.v));
    case _ => end := CopyBytes(target, at, c.raw);
  }

  /** `LazyField::Serialize` in a fixed state. */
  method SerializeLazy(E: Env, u: nat, val: LazyVal, target: array<byte>, at: nat) returns (end: nat)
    requires u < |E| && (val.Live? ==> WfMsg(E, u, val.msg))
    requires |EncLazy(E, KLazy(u), val)| < INT_MAX_SPAN && at + |EncLazy(E, KLazy(u), val)| <= target.Length
    modifies target
    ensures end == at + |EncLazy(E, KLazy(u), val)|
    ensures target[..] == Splice(old(target[..]), at, EncLazy(E, KLazy(u), val))
    decreases val, 1
  {
    hide Size, WfMsg, Enc, Encode;
    ghost var before := target[..];
    match val
    case Unset =>
      end := at;
      assert Splice(before, at, []) == before;
    case Raw(bytes) => end := WriteLengthDelimitedBytes(target, at, bytes);
    case Live(m) =>
      SizeIsLength(E, u, m);
      SpliceTwice(before, at, Encode(Size(E, u, m) % TWO32), Enc(E, u, m));
      var size := ByteSizeLong(E, u, m);
      end := WriteVarint(target, at, size % TWO32);
      end := InternalSerialize(E, u, m, target, end);
  }

  // ---- the object -----------------------------------------------------------------------------------------

  /** A generated message. Submessages are members by value, as in the emitted class. */
  class Message {
    const env: Env
    const typ: nat
    var cells: seq<Cell>

    ghost predicate Valid()
      reads this
    {
      WfMsg(env, typ, Msg(cells))
    }

    function Value(): Msg
      reads this
    {
      Msg(cells)
    }

    /** The constructors, without and with an arena. */
    constructor (E: Env, t: nat, onArena: bool)
      requires t < |E|
      ensures env == E && typ == t && Value() == Fresh(E, t, onArena) && Valid()
    {
      FreshWf(E, t, onArena);
      env, typ, cells := E, t, Fresh(E, t, onArena).cells;
    }

    /** The object of a member stored by value. */
    constructor Of(E: Env, t: nat, m: Msg)
      requires WfMsg(E, t, m)
      ensures env == E && typ == t && Value() == m && Valid()
    {
      env, typ, cells := E, t, m.cells;
    }

    /** Emitted `IsInitialized` of a message without required fields. */
    method IsInitialized() returns (b: bool)
      ensures b
    {
      b := true;
    }

    /** Emitted `Clear`: every member, submessages included, back to its default. */
    method Clear()
      requires Valid()
      modifies this
      ensures Valid() && Value() == Default(env, typ)
      decreases Value(), 0
    {
      hide WfMsg, DefaultCell;
      WfShape(env, typ, Msg(cells));
      ghost var m := Value();
      for i := 0 to |env[typ]|
        invariant |cells| == |env[typ]| && WfMsg(env, typ, m) && |m.cells| == |cells|
        invariant forall j :: 0 <= j < i ==> cells[j] == DefaultCell(env, typ, j)
        invariant forall j :: i <= j < |cells| ==> cells[j] == m.cells[j]
      {
        MemberWf(env, typ, m, i);
        var c := ClearMember(i);
        cells := cells[i := c];
      }
      assert cells == Default(env, typ).cells;
      DefaultWf(env, typ);
    }

    /** One line of `Clear`. */
    method ClearMember(i: nat) returns (c: Cell)
      requires typ < |env| && i < |env[typ]| == |cells| && WfCell(env, env[typ][i].kind, cells[i])
      ensures c == DefaultCell(env, typ, i)
      decreases cells[i], 1
    {
      hide Default;
      assert WfFields(env[typ], typ, |env|);
      var k := env[typ][i].kind;
      if k.KMessage? {
        var sub := new Message.Of(env, k.sub, cells[i].msg);
        sub.Clear();
        return Sub(sub.Value());
      }
      match k
      case KString => c := Str(true, []);
      case KLazy(_) => c := Lazy(Unset);
      case KVarint(_) => c := Num(0);
      case KFixed64(_) => c := Fix(Zeros(8));
      case KFixed32(_) => c := Fix(Zeros(4));
    }

    /** Emitted `_InternalParse` from `start`, on a buffer that ends where the message ends. */
    method InternalParse(buf: seq<byte>, start: nat) returns (r: Ptr)
      requires Valid() && start <= |buf|
      modifies this
      ensures Outcome(env, typ, ParseFrom(env, typ, old(Value()), buf, start), r, Value())
      ensures Valid()
      decreases |buf| - start, 2
    {
      hide ParseFrom, ParseRecord, ScanEnd, WfMsg, RawValue, Stops, StopAt;
      WfShape(env, typ, Msg(cells));
      var ptr := start;
      while ptr < |buf|
        invariant start <= ptr <= |buf| && WfMsg(env, typ, Value()) && |cells| == |env[typ]|
        invariant ParseFrom(env, typ, old(Value()), buf, start) == ParseFrom(env, typ, Value(), buf, ptr)
        decreases |buf| - ptr
      {
        var q, tag := ReadTag(buf, ptr);
        if q.Overrun? {
          ParseOverruns(env, typ, Value(), buf, ptr);
          return Overrun;
        }
        if tag == 0 {
          ParseBreaks(env, typ, Value(), buf, ptr);
          return q;
        }
        ghost var m := Value();
        var e := ParseCase(buf, q.pos, tag);
        ParseStep(env, typ, m, buf, ptr, q.pos, ParseRecord(env, typ, m, buf, q.pos, tag));
        if !e.At? {
          return e;
        }
        WfShape(env, typ, Value());
        ptr := e.pos;
      }
      ParseEnds(env, typ, Value(), buf, ptr);
      return At(ptr);
    }

    /** The `switch`: skip unknown numbers and wrong wire types, else run the field's case. */
    method ParseCase(buf: seq<byte>, q: nat, tag: nat) returns (e: Ptr)
      requires Valid() && q <= |buf|
      modifies this
      ensures Outcome(env, typ, ParseRecord(env, typ, old(Value()), buf, q, tag), e, Value())
      ensures Valid() && (e.At? ==> q <= e.pos <= |buf|)
      decreases |buf| - q, 1
    {
      hide ParseFrom, WfCell, Skip, ParseField;
      assert WfFields(env[typ], typ, |env|);
      var i := Find(env[typ], tag / 8);
      if i < 0 || tag % 8 != WireType(env[typ][i].kind) {
        e := SkipperCode.SkipFieldInline(buf, q, tag);
        return;
      }
      var c;
      Laziness.FieldParseWf(env, typ, i, cells[i], buf, q);
      e, c := ParseMember(i, buf, q);
      cells := cells[i := c];
    }

    /** The body of one `case`: where it stops and what it assigned. */
    method ParseMember(i: nat, buf: seq<byte>, q: nat) returns (e: Ptr, c: Cell)
      requires Valid() && i < |env[typ]| == |cells| && q <= |buf|
      ensures match ParseField(env, env[typ][i].kind, cells[i], buf, q) {
                case FieldOk(c', end) => e == At(end) && c == c'
                case FieldFailed(c') => e == Null && c == c'
                case FieldOutside => e == Overrun && c == cells[i]
              }
      decreases |buf| - q, 0
    {
      hide ParseFrom, ScanEnd, RawValue, FromU64, ParseSub;
      MemberWf(env, typ, Value(), i);
      assert WfFields(env[typ], typ, |env|);
      c := cells[i];
      match env[typ][i].kind
      case KFixed64(_) =>
        e := Advance(buf, q, 8);
        if e.At? { c := Fix(buf[q..q + 8]); }
      case KFixed32(_) =>
        e := Advance(buf, q, 4);
        if e.At? { c := Fix(buf[q..q + 4]); }
      case KVarint(vt) =>
        var parsed;
        e, parsed := ReadVarint(buf, q);
        if e.At? { c := Num(FromU64(vt, parsed)); }
      case KString =>
        var size;
        e, size := ReadVarint(buf, q);
        if e.At? {
          var s := e.pos;
          e := Advance(buf, s, size);
          if e.At? { c := SetStr(cells[i], buf[s..s + size]); }
        }
      case KLazy(_) =>
        var size;
        e, size := ReadVarint32(buf, q);
        if e.At? {
          var s := e.pos;
          e := Advance(buf, s, size);
          if e.At? { c := Lazy(Raw(buf[s..s + size])); }
        }
      case KMessage(u) =>
        var size;
        e, size := ReadVarint(buf, q);
        if e.At? {
          e, c := ParseSubmessage(u, cells[i], buf, q, e.pos, size);
        }
    }

    /** `field_.ParseFromArray(ptr, static_cast<int>(size))` and `ptr += size`. */
    method ParseSubmessage(u: nat, was: Cell, buf: seq<byte>, ghost q: nat, s: nat, size: nat) returns (e: Ptr, c: Cell)
      requires u < |env| && was.Sub? && WfMsg(env, u, was.msg) && q < s <= |buf|
      ensures match ParseSub(env, u, buf, q, s, size) {
                case FieldOk(c', end) => e == At(end) && c == c'
                case FieldFailed(c') => e == Null && c == c'
                case FieldOutside => e == Overrun && c == was
              }
      decreases |buf| - s, 4
    {
      hide ParseFrom, WfMsg;
      c := was;
      var n := SkipperCode.AsInt(size % TWO32);
      if n < 0 || s + n > |buf| {
        return Overrun, c;
      }
      var sub := new Message.Of(env, u, was.msg);
      e := sub.ParseFromArray(buf[s..s + n]);
      if e.Overrun? { return Overrun, c; }
      if e.Null? { return Null, Sub(sub.Value()); }
      e := Advance(buf, s, size);
      if e.At? { c := Sub(sub.Value()); }
    }

    /** The library's `ParseFromArray`: `Clear`, then parse exactly the slice; success is a non-null pointer. */
    method ParseFromArray(data: seq<byte>) returns (r: Ptr)
      requires Valid()
      modifies this
      ensures Outcome(env, typ, ParseFrom(env, typ, Default(env, typ), data, 0), r, Value())
      ensures Valid()
      decreases |data|, 3
    {
      Clear();
      r := InternalParse(data, 0);
    }

    /** Emitted `MergeFrom`/`MergeImpl`; merging a message into itself does nothing. */
    method MergeFrom(from: Message)
      requires Valid() && from.Valid() && from.env == env && from.typ == typ
      modifies this, from
      ensures Valid() && from.Valid()
      ensures Value() == if from == this then old(Value()) else Merge(env, typ, old(Value()), old(from.Value()))
      ensures from != this ==> from.Value() == MergeSource(env, typ, old(from.Value()))
      decreases from.Value(), 1
    {
      if from == this {
        return;
      }
      hide WfMsg, MergeCell, SourceCell;
      WfShape(env, typ, Msg(cells));
      WfShape(env, typ, from.Value());
      ghost var m := Value();
      ghost var f := from.Value();
      for i := 0 to |env[typ]|
        invariant |cells| == |env[typ]| == |m.cells| && |from.cells| == |f.cells| == |cells|
        invariant WfMsg(env, typ, m) && WfMsg(env, typ, f)
        invariant forall j :: 0 <= j < i ==> cells[j] == MergeCell(env, env[typ][j].kind, m.cells[j], f.cells[j])
        invariant forall j :: 0 <= j < i ==> from.cells[j] == SourceCell(env, env[typ][j].kind, f.cells[j])
        invariant forall j :: i <= j < |cells| ==> cells[j] == m.cells[j] && from.cells[j] == f.cells[j]
      {
        MemberWf(env, typ, m, i);
        MemberWf(env, typ, f, i);
        var c, source := MergeMember(i, cells[i], from.cells[i]);
        cells := cells[i := c];
        from.cells := from.cells[i := source];
      }
      assert cells == Merge(env, typ, m, f).cells;
      assert from.cells == MergeSource(env, typ, f).cells;
      Laziness.MergeWf(env, typ, m, f);
      MergeSourceWf(env, typ, f);
    }

    /** One member: what the target holds afterwards, and the source. */
    method MergeMember(i: nat, to: Cell, from: Cell) returns (c: Cell, source: Cell)
      requires typ < |env| && i < |env[typ]|
      requires WfCell(env, env[typ][i].kind, to) && WfCell(env, env[typ][i].kind, from)
      ensures c == MergeCell(env, env[typ][i].kind, to, from)
      ensures source == SourceCell(env, env[typ][i].kind, from)
      decreases from, 0
    {
      hide Size, Merge, MergeSource, WfMsg, Get, Decode;
      assert WfFields(env[typ], typ, |env|);
      c, source := to, from;
      var k := env[typ][i].kind;
      if k.KMessage? {
        WfShape(env, k.sub, to.msg);
        WfShape(env, k.sub, from.msg);
        if Size(env, k.sub, from.msg) > 0 {
          var sub := new Message.Of(env, k.sub, to.msg);
          var other := new Message.Of(env, k.sub, from.msg);
          sub.MergeFrom(other);
          c, source := Sub(sub.Value()), Sub(other.Value());
        }
        return;
      }
      match k
      case KString => if !from.isDefault { c := SetStr(to, from.text); }
      case KLazy(u) =>
        // IsInitialized() is true of an unset member too
        var copy := ReadLazy(env, u, from.val);
        c := Lazy(Live(copy));
        source := LazySource(env, u, from.val, copy);
      case KVarint(_) => if from.v != 0 { c := from; }
      case KFixed64(isFloat) => if !IsZero(from.raw, isFloat) { c := from; }
      case KFixed32(isFloat) => if !IsZero(from.raw, isFloat) { c := from; }
    }

    /** Emitted `CopyFrom`. */
    method CopyFrom(from: Message)
      requires Valid() && from.Valid() && from.env == env && from.typ == typ
      modifies this, from
      ensures Valid() && from.Valid()
      ensures Value() == if from == this then old(Value()) else Copy(env, typ, old(from.Value()))
      ensures from != this ==> from.Value() == MergeSource(env, typ, old(from.Value()))
    {
      if from == this {
        return;
      }
      Clear();
      MergeFrom(from);
    }
  }

  /** A lazy member once `Get` has returned `m`: pending bytes have been parsed, an unset member stays unset. */
  function LazySource(E: Env, u: nat, val: LazyVal, m: Msg): (c: Cell)
    requires u < |E| && m == Get(E, u, val)
    ensures c == SourceCell(E, KLazy(u), Lazy(val))
  {
    if val.Raw? then Lazy(Live(m)) else Lazy(val)
  }

  /** A pointer and a content that match a parse result; after an overrun the content is unspecified. */
  ghost predicate Outcome(E: Env, t: nat, p: Parse, r: Ptr, m: Msg)
  {
    match p
    case Ok(m', end) => r == At(end) && m == m'
    case Failed(m') => r == Null && m == m'
    case Outside => r == Overrun
  }

  /** `LazyField::Get` on a member: parse pending bytes, clear what does not parse. */
  method ReadLazy(E: Env, u: nat, val: LazyVal) returns (m: Msg)
    requires u < |E| && (val.Live? ==> WfMsg(E, u, val.msg))
    ensures m == Get(E, u, val) && WfMsg(E, u, m)
  {
    hide WfMsg, ParseFrom;
    if val.Live? {
      return val.msg;
    }
    var msg := new Message(E, u, false);
    msg.Clear();
    if val.Raw? {
      var r := msg.ParseFromArray(val.bytes);
      if !r.At? {
        msg := new Message(E, u, false);
        msg.Clear();
      }
    }
    m := msg.Value();
  }

  lemma MemberWf(E: Env, t: nat, m: Msg, i: nat)
    requires WfMsg(E, t, m) && i < |m.cells|
    ensures t < |E| && i < |E[t]| && WfCell(E, E[t][i].kind, m.cells[i])
  {
  }

  lemma {:induction false} MergeSourceWf(E: Env, t: nat, from: Msg)
    requires WfMsg(E, t, from)
    ensures WfMsg(E, t, MergeSource(E, t, from))
    decreases from
  {
    hide Size, Decode;
    assert WfFields(E[t], t, |E|);
    forall i | 0 <= i < |E[t]|
      ensures WfCell(E, E[t][i].kind, SourceCell(E, E[t][i].kind, from.cells[i]))
    {
      var k, f := E[t][i].kind, from.cells[i];
      if k.KMessage? {
        MergeSourceWf(E, k.sub, f.msg);
      } else if k.KLazy? && f.val.Raw? {
        Laziness.DecodeWf(E, k.sub, f.val.bytes);
      }
    }
  }

  // ---- how the parse loop ends --------------------------------------------------------------------------

  lemma ParseOverruns(E: Env, t: nat, m: Msg, buf: seq<byte>, pos: nat)
    requires t < |E| && |m.cells| == |E[t]| && pos < |buf| && ScanEnd(buf, pos, 10).Overrun?
    ensures ParseFrom(E, t, m, buf, pos) == Outside
  {
  }

  lemma ParseBreaks(E: Env, t: nat, m: Msg, buf: seq<byte>, pos: nat)
    requires t < |E| && |m.cells| == |E[t]| && pos < |buf| && !ScanEnd(buf, pos, 10).Overrun?
    requires ScanEnd(buf, pos, 10).At? ==> Low32(buf[pos..ScanEnd(buf, pos, 10).pos]) == 0
    ensures ParseFrom(E, t, m, buf, pos) == Ok(m, if ScanEnd(buf, pos, 10).At? then ScanEnd(buf, pos, 10).pos else pos)
  {
  }

  lemma ParseEnds(E: Env, t: nat, m: Msg, buf: seq<byte>, pos: nat)
    requires t < |E| && |m.cells| == |E[t]| && pos == |buf|
    ensures ParseFrom(E, t, m, buf, pos) == Ok(m, pos)
  {
  }
}
