/**
  The emitted message functions: `ByteSizeLong`, `_InternalSerialize`, `_InternalParse` and
  `MergeImpl`, generic over the schema, and what the getters of a message return.
*/
module Codec {
  import opened Varint
  import opened Wire
  import opened Schema

  // ---- ByteSizeLong and _InternalSerialize -------------------------------------------------------

  function TagBytes(f: Field): seq<byte>
  {
    Encode(Tag(f))
  }

  /** Members both described by the schema and stored. */
  function Width(E: Env, t: nat, m: Msg): nat
  {
    if t >= |E| then 0
    else if |E[t]| < |m.cells| then |E[t]| else |m.cells|
  }

  /** Emitted `ByteSizeLong`. */
  function Size(E: Env, t: nat, m: Msg): nat
    decreases m, 2
  {
    SizeTo(E, t, m, Width(E, t, m))
  }

  function SizeTo(E: Env, t: nat, m: Msg, n: nat): nat
    requires n <= Width(E, t, m)
    decreases m, 1, n
  {
    if n == 0 then 0 else SizeTo(E, t, m, n - 1) + FieldSize(E, E[t][n - 1], m.cells[n - 1])
  }

  function FieldSize(E: Env, f: Field, c: Cell): nat
    decreases c, 2
  {
    match c
    case Num(v) => if v != 0 then |TagBytes(f)| + |Encode(ToU64(v))| else 0
    case Fix(raw) => if !IsZero(raw, IsFloat(f.kind)) then |TagBytes(f)| + |raw| else 0
    case Str(isDefault, text) => if !isDefault then |TagBytes(f)| + |Encode(|text|)| + |text| else 0
    case Sub(m) =>
      var size := if f.kind.KMessage? then Size(E, f.kind.sub, m) else 0;
      if size > 0 then |TagBytes(f)| + |Encode(size)| + size else 0
    case Lazy(val) =>
      var size := LazySize(E, f.kind, val);
      if size > 0 then |TagBytes(f)| + size else 0
  }

  /** `LazyField::ByteSizeLong`: the length prefix is already counted. */
  function LazySize(E: Env, k: Kind, val: LazyVal): nat
    decreases val, 0
  {
    match val
    case Unset => 0
    case Raw(bytes) => |Encode(|bytes| % TWO32)| + |bytes|
    case Live(m) =>
      if k.KLazy? then |Encode(Size(E, k.sub, m) % TWO32)| + Size(E, k.sub, m) else 0
  }

  predicate IsFloat(k: Kind)
  {
    match k
    case KFixed64(f) => f
    case KFixed32(f) => f
    case _ => false
  }

  /** What `_InternalSerialize` writes. */
  function Enc(E: Env, t: nat, m: Msg): seq<byte>
    decreases m, 2
  {
    EncTo(E, t, m, Width(E, t, m))
  }

  function EncTo(E: Env, t: nat, m: Msg, n: nat): seq<byte>
    requires n <= Width(E, t, m)
    decreases m, 1, n
  {
    if n == 0 then [] else EncTo(E, t, m, n - 1) + EncField(E, E[t][n - 1], m.cells[n - 1])
  }

  function EncField(E: Env, f: Field, c: Cell): seq<byte>
    decreases c, 2
  {
    match c
    case Num(v) => if v != 0 then TagBytes(f) + Encode(ToU64(v)) else []
    case Fix(raw) => if !IsZero(raw, IsFloat(f.kind)) then TagBytes(f) + raw else []
    case Str(isDefault, text) => if !isDefault then TagBytes(f) + (Encode(|text|) + text) else []
    case Sub(m) =>
      var size := if f.kind.KMessage? then Size(E, f.kind.sub, m) else 0;
      if size > 0 then TagBytes(f) + (Encode(size) + Enc(E, f.kind.sub, m)) else []
    case Lazy(val) =>
      if LazySize(E, f.kind, val) > 0 then TagBytes(f) + EncLazy(E, f.kind, val) else []
  }

  /** `LazyField::Serialize`: unparsed bytes are forwarded, a message is written out again. */
  function EncLazy(E: Env, k: Kind, val: LazyVal): seq<byte>
    decreases val, 0
  {
    match val
    case Unset => []
    case Raw(bytes) => Encode(|bytes| % TWO32) + bytes
    case Live(m) =>
      if k.KLazy? then Encode(Size(E, k.sub, m) % TWO32) + Enc(E, k.sub, m) else []
  }

  /** `ByteSizeLong` is the number of bytes `_InternalSerialize` writes, for every message tree. */
  lemma {:induction false} SizeIsLength(E: Env, t: nat, m: Msg)
    ensures Size(E, t, m) == |Enc(E, t, m)|
    decreases m, 2
  {
    SizeIsLengthTo(E, t, m, Width(E, t, m));
  }

  lemma {:induction false} SizeIsLengthTo(E: Env, t: nat, m: Msg, n: nat)
    requires n <= Width(E, t, m)
    ensures SizeTo(E, t, m, n) == |EncTo(E, t, m, n)|
    decreases m, 1, n
  {
    if n > 0 {
      SizeIsLengthTo(E, t, m, n - 1);
      FieldSizeIsLength(E, E[t][n - 1], m.cells[n - 1]);
    }
  }

  lemma {:induction false} FieldSizeIsLength(E: Env, f: Field, c: Cell)
    ensures FieldSize(E, f, c) == |EncField(E, f, c)|
    ensures c.Lazy? ==> LazySize(E, f.kind, c.val) == |EncLazy(E, f.kind, c.val)|
    decreases c, 0
  {
    if c.Sub? && f.kind.KMessage? {
      SizeIsLength(E, f.kind.sub, c.msg);
    } else if c.Lazy? && c.val.Live? && f.kind.KLazy? {
      SizeIsLength(E, f.kind.sub, c.val.msg);
    }
  }

  /** A member's contribution is part of the whole. */
  lemma {:induction false} FieldWithin(E: Env, t: nat, m: Msg, i: nat, n: nat)
    requires i < n <= Width(E, t, m)
    ensures FieldSize(E, E[t][i], m.cells[i]) <= SizeTo(E, t, m, n) <= Size(E, t, m)
    decreases n
  {
    SizeGrows(E, t, m, n, Width(E, t, m));
    if i < n - 1 { FieldWithin(E, t, m, i, n - 1); }
  }

  lemma {:induction false} SizeGrows(E: Env, t: nat, m: Msg, a: nat, b: nat)
    requires a <= b <= Width(E, t, m)
    ensures SizeTo(E, t, m, a) <= SizeTo(E, t, m, b)
    decreases b
  {
    if a < b { SizeGrows(E, t, m, a, b - 1); }
  }

  lemma OneMember(E: Env, t: nat, m: Msg)
    requires t < |E| && |E[t]| == |m.cells| == 1
    ensures Size(E, t, m) == FieldSize(E, E[t][0], m.cells[0])
  {
    hide FieldSize;
    assert SizeTo(E, t, m, 0) == 0;
    assert Size(E, t, m) == SizeTo(E, t, m, 1);
  }

  // ---- _InternalParse -------------------------------------------------------------------------------

  /** A parse ends in a pointer, in `nullptr` with the members assigned so far, or outside the buffer. */
  datatype Parse = Ok(msg: Msg, pos: nat) | Failed(msg: Msg) | Outside

  datatype FieldParse = FieldOk(cell: Cell, end: nat) | FieldFailed(cell: Cell) | FieldOutside

  /** `ArenaString::Set`: an empty value leaves a default string default (its content is the shared empty string). */
  function SetStr(c: Cell, value: seq<byte>): Cell
  {
    if value == [] && c.Str? && c.isDefault then Str(true, []) else Str(false, value)
  }

  /** The parse loop, from `pos`. */
  function ParseFrom(E: Env, t: nat, m: Msg, buf: seq<byte>, pos: nat): (r: Parse)
    requires t < |E| && |m.cells| == |E[t]| && pos <= |buf|
    ensures r.Ok? ==> pos <= r.pos <= |buf|
    ensures !r.Outside? ==> |r.msg.cells| == |E[t]|
    decreases |buf| - pos, 2
  {
    if pos == |buf| then Ok(m, pos)
    else
      match ScanEnd(buf, pos, 10)
      case Null => Ok(m, pos)
      case Overrun => Outside
      case At(q) =>
        ScanRecognises(buf, pos, 10, q);
        var tag := Low32(buf[pos..q]);
        if tag == 0 then Ok(m, q)
        else
          match ParseRecord(E, t, m, buf, q, tag)
          case Ok(m', e) => ParseFrom(E, t, m', buf, e)
          case r => r
  }

  /** One turn of the `switch`: dispatch on the number, then on the wire type. */
  function ParseRecord(E: Env, t: nat, m: Msg, buf: seq<byte>, q: nat, tag: nat): (r: Parse)
    requires t < |E| && |m.cells| == |E[t]| && q <= |buf|
    ensures r.Ok? ==> q <= r.pos <= |buf|
    ensures !r.Outside? ==> |r.msg.cells| == |E[t]|
    decreases |buf| - q, 1
  {
    var i := Find(E[t], tag / 8);
    if i < 0 || tag % 8 != WireType(E[t][i].kind) then
      match Skip(Inline, buf, q, tag)
      case At(e) => Ok(m, e)
      case Null => Failed(m)
      case Overrun => Outside
    else
      assert WfFields(E[t], t, |E|);
      match ParseField(E, E[t][i].kind, m.cells[i], buf, q)
      case FieldOk(c, e) => Ok(Msg(m.cells[i := c]), e)
      case FieldFailed(c) => Failed(Msg(m.cells[i := c]))
      case FieldOutside => Outside
  }

  /** The body of one `case`. */
  function ParseField(E: Env, k: Kind, c: Cell, buf: seq<byte>, q: nat): (r: FieldParse)
    requires q <= |buf| && (k.KMessage? ==> k.sub < |E|)
    ensures r.FieldOk? ==> q <= r.end <= |buf|
    decreases |buf| - q, 0
  {
    match k
    case KFixed64(_) => if q + 8 <= |buf| then FieldOk(Fix(buf[q..q + 8]), q + 8) else FieldOutside
    case KFixed32(_) => if q + 4 <= |buf| then FieldOk(Fix(buf[q..q + 4]), q + 4) else FieldOutside
    case KLazy(_) =>
      (match ScanEnd(buf, q, 5)
       case Null => FieldFailed(c)
       case Overrun => FieldOutside
       case At(s) =>
         ScanRecognises(buf, q, 5, s);
         var size := Low32(buf[q..s]);
         if s + size <= |buf| then FieldOk(Lazy(Raw(buf[s..s + size])), s + size) else FieldOutside)
    case KVarint(vt) =>
      (match ScanEnd(buf, q, 10)
       case Null => FieldFailed(c)
       case Overrun => FieldOutside
       case At(s) =>
         ScanRecognises(buf, q, 10, s);
         FieldOk(Num(FromU64(vt, RawValue(buf[q..s]) % TWO64)), s))
    case KString =>
      (match ScanEnd(buf, q, 10)
       case Null => FieldFailed(c)
       case Overrun => FieldOutside
       case At(s) =>
         ScanRecognises(buf, q, 10, s);
         var size := RawValue(buf[q..s]) % TWO64;
         if s + size <= |buf| then FieldOk(SetStr(c, buf[s..s + size]), s + size) else FieldOutside)
    case KMessage(t) =>
      (match ScanEnd(buf, q, 10)
       case Null => FieldFailed(c)
       case Overrun => FieldOutside
       case At(s) =>
         ScanRecognises(buf, q, 10, s);
         ParseSub(E, t, buf, q, s, RawValue(buf[q..s]) % TWO64))
  }

  /**
    `field_.ParseFromArray(ptr, static_cast<int>(size))`, which clears the member and parses
    exactly the slice, then `ptr += size`.
  */
  function ParseSub(E: Env, t: nat, buf: seq<byte>, ghost q: nat, s: nat, u: nat): (r: FieldParse)
    requires t < |E| && q < s <= |buf|
    ensures r.FieldOk? ==> s <= r.end <= |buf|
    decreases |buf| - s, 3
  {
    var size := u % TWO32;
    if size >= INT_MAX_SPAN || s + size > |buf| then FieldOutside
    else
      match ParseFrom(E, t, Default(E, t), buf[s..s + size], 0)
      case Ok(m, _) => if s + u <= |buf| then FieldOk(Sub(m), s + u) else FieldOutside
      case Failed(m) => FieldFailed(Sub(m))
      case Outside => FieldOutside
  }

  // ---- getters ------------------------------------------------------------------------------------------

  /**
    The message a lazy member parses its bytes into (`LazyField::EnsureParsedLocked`): a
    payload that does not parse reads as the default message.
  */
  function Decode(E: Env, t: nat, bytes: seq<byte>): (m: Msg)
    requires t < |E|
    ensures |m.cells| == |E[t]|
  {
    match ParseFrom(E, t, Default(E, t), bytes, 0)
    case Ok(m, _) => m
    case _ => Default(E, t)
  }

  /** `LazyField::Get`. */
  function Get(E: Env, t: nat, val: LazyVal): Msg
    requires t < |E|
  {
    match val
    case Unset => Default(E, t)
    case Raw(bytes) => Decode(E, t, bytes)
    case Live(m) => m
  }

  /** What a chain of getters ends in. Fixed-size values are compared as C++ compares them, so -0.0 is 0.0. */
  datatype Seen = Nothing | SeenNum(v: int) | SeenFix(raw: seq<byte>) | SeenStr(text: seq<byte>)

  /**
    The value reached by calling getters along `path`: member `path[0]`, then, if that is a
    submessage, member `path[1]` of it, and so on. Two messages agree on every getter at every
    depth when they agree on every path.
  */
  function See(E: Env, t: nat, m: Msg, path: seq<nat>): Seen
    decreases path, 1
  {
    if path == [] || path[0] >= Width(E, t, m) then Nothing
    else SeeCell(E, E[t][path[0]].kind, m.cells[path[0]], path)
  }

  function SeeCell(E: Env, k: Kind, c: Cell, path: seq<nat>): Seen
    requires path != []
    decreases path, 0
  {
    match c
    case Num(v) => SeenNum(v)
    case Fix(raw) => SeenFix(if IsZero(raw, IsFloat(k)) then Zeros(|raw|) else raw)
    case Str(_, text) => SeenStr(text)
    case Sub(m) => if k.KMessage? then See(E, k.sub, m, path[1..]) else Nothing
    case Lazy(val) => if k.KLazy? && k.sub < |E| then See(E, k.sub, Get(E, k.sub, val), path[1..]) else Nothing
  }

  // ---- MergeImpl and CopyFrom ------------------------------------------------------------------------------

  /**
    `MergeImpl`. A lazy member is tested with `LazyField::IsInitialized`, which is true of an
    unset one, so the target always ends up holding a copy of what the source's getter returns.
  */
  function Merge(E: Env, t: nat, to: Msg, from: Msg): (m: Msg)
    requires t < |E| && |to.cells| == |from.cells| == |E[t]|
    ensures |m.cells| == |E[t]|
    ensures forall i :: 0 <= i < |E[t]| ==> m.cells[i] == MergeCell(E, E[t][i].kind, to.cells[i], from.cells[i])
    decreases from, 1
  {
    Msg(seq(|E[t]|, i requires 0 <= i < |E[t]| => MergeCell(E, E[t][i].kind, to.cells[i], from.cells[i])))
  }

  function MergeCell(E: Env, k: Kind, to: Cell, from: Cell): Cell
    decreases from, 0
  {
    match from
    case Num(v) => if v != 0 then from else to
    case Fix(raw) => if !IsZero(raw, IsFloat(k)) then from else to
    case Str(isDefault, text) => if !isDefault then SetStr(to, text) else to
    case Sub(m) =>
      if && k.KMessage? && k.sub < |E| && to.Sub?
         && |to.msg.cells| == |m.cells| == |E[k.sub]|
         && Size(E, k.sub, m) > 0
      then Sub(Merge(E, k.sub, to.msg, m)) else to
    case Lazy(val) => if k.KLazy? && k.sub < |E| then Lazy(Live(Get(E, k.sub, val))) else to
  }

  /** The source after `MergeImpl`: the getters it calls have parsed its lazy members. */
  function MergeSource(E: Env, t: nat, from: Msg): (m: Msg)
    requires t < |E| && |from.cells| == |E[t]|
    ensures |m.cells| == |E[t]|
    ensures forall i :: 0 <= i < |E[t]| ==> m.cells[i] == SourceCell(E, E[t][i].kind, from.cells[i])
    decreases from, 1
  {
    Msg(seq(|E[t]|, i requires 0 <= i < |E[t]| => SourceCell(E, E[t][i].kind, from.cells[i])))
  }

  function SourceCell(E: Env, k: Kind, from: Cell): Cell
    decreases from, 0
  {
    match from
    case Sub(m) =>
      if k.KMessage? && k.sub < |E| && |m.cells| == |E[k.sub]| && Size(E, k.sub, m) > 0
      then Sub(MergeSource(E, k.sub, m)) else from
    case Lazy(Raw(bytes)) => if k.KLazy? && k.sub < |E| then Lazy(Live(Decode(E, k.sub, bytes))) else from
    case _ => from
  }

  /** `CopyFrom` another message: `Clear`, then `MergeFrom`. */
  function Copy(E: Env, t: nat, from: Msg): Msg
    requires t < |E| && |from.cells| == |E[t]|
  {
    Merge(E, t, Default(E, t), from)
  }
}
