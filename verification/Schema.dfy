/** Field descriptors, the storage of generated messages, and the scalar casts of the emitted code. */
module Schema {
  import opened Bits
  import opened Varint
  import opened Wire

  /** The varint-coded proto types; `SInt32`/`SInt64` are written without ZigZag by this generator. */
  datatype VarType = Int32 | Int64 | UInt32 | UInt64 | Bool | Enum | SInt32 | SInt64

  /** `KMessage(t)` is an eager submessage of type `t`, `KLazy(t)` one with `[lazy = true]`. */
  datatype Kind =
    | KVarint(varType: VarType)
    | KFixed64(isFloat: bool)
    | KFixed32(isFloat: bool)
    | KString
    | KMessage(sub: nat)
    | KLazy(sub: nat)

  datatype Field = Field(number: nat, kind: Kind)

  /**
    The message types of a program, by type id. Eager submessages are stored by value, so
    their types come earlier; lazy ones are behind a pointer and may refer to any type,
    their own included. Field numbers are distinct (they label the cases of one `switch`)
    and leave room for the wire type in a 32-bit tag.
  */
  type Env = e: seq<seq<Field>> | WfEnv(e) witness []

  predicate WfEnv(e: seq<seq<Field>>)
  {
    forall t :: 0 <= t < |e| ==> WfFields(e[t], t, |e|)
  }

  predicate WfFields(fs: seq<Field>, t: nat, types: nat)
  {
    && (forall i :: 0 <= i < |fs| ==>
          && 1 <= fs[i].number < 0x2000_0000
          && (fs[i].kind.KMessage? ==> fs[i].kind.sub < t)
          && (fs[i].kind.KLazy? ==> fs[i].kind.sub < types))
    && (forall i, j :: 0 <= i < j < |fs| ==> fs[i].number != fs[j].number)
  }

  /** `FieldInfo.wire_type`. */
  function WireType(k: Kind): (w: nat)
    ensures w < 8
  {
    match k
    case KVarint(_) => VARINT
    case KFixed64(_) => FIXED64
    case KFixed32(_) => FIXED32
    case _ => LENGTH_DELIMITED
  }

  /** `FieldInfo.tag`: `(number << 3) | wire_type`. */
  function Tag(f: Field): nat
  {
    BitOr(f.number * Pow2(3), WireType(f.kind))
  }

  /** The tag fits 32 bits, is not zero, and gives back the number and the wire type, which is the one of the "Encoding" guide. */
  lemma TagParts(E: Env, t: nat, i: nat)
    requires t < |E| && i < |E[t]|
    ensures 0 < Tag(E[t][i]) < TWO32
    ensures Tag(E[t][i]) / 8 == E[t][i].number && Tag(E[t][i]) % 8 == WireType(E[t][i].kind)
    ensures WireType(E[t][i].kind) == match E[t][i].kind { case KVarint(_) => 0 case KFixed64(_) => 1 case KFixed32(_) => 5 case _ => 2 }
    ensures TagOk(Inline, Encode(Tag(E[t][i]))) && Low32(Encode(Tag(E[t][i]))) == Tag(E[t][i])
  {
    hide RawValue, Encode, BitOr, Tag;
    assert WfFields(E[t], t, |E|);
    TagValue(E[t][i]);
    EncodeLength(Tag(E[t][i]));
    EncodeInverse(Tag(E[t][i]));
  }

  lemma TagValue(f: Field)
    ensures Tag(f) == f.number * 8 + WireType(f.kind)
    ensures Tag(f) / 8 == f.number && Tag(f) % 8 == WireType(f.kind)
  {
    Pow2Values();
    OrDisjointLeft(f.number, 3, WireType(f.kind));
  }

  /** The `switch` on `tag >> 3`: the field of that number, if any. */
  function Find(fs: seq<Field>, number: nat): (r: int)
    ensures -1 <= r < |fs|
    ensures r >= 0 ==> fs[r].number == number
    ensures r < 0 ==> forall i :: 0 <= i < |fs| ==> fs[i].number != number
  {
    if fs == [] then -1
    else if fs[|fs| - 1].number == number then |fs| - 1
    else Find(fs[..|fs| - 1], number)
  }

  lemma FindOwn(E: Env, t: nat, i: nat)
    requires t < |E| && i < |E[t]|
    ensures Find(E[t], E[t][i].number) == i
  {
    assert WfFields(E[t], t, |E|);
  }

  // ---- storage ----------------------------------------------------------------------------------

  /**
    One data member. A string is an `ArenaString` seen as its default flag and its content; a
    lazy member is a `LazyField` seen as unset, holding unparsed bytes, or holding a message.
  */
  datatype Cell =
    | Num(v: int)
    | Fix(raw: seq<byte>)
    | Str(isDefault: bool, text: seq<byte>)
    | Sub(msg: Msg)
    | Lazy(val: LazyVal)

  datatype LazyVal = Unset | Raw(bytes: seq<byte>) | Live(msg: Msg)

  datatype Msg = Msg(cells: seq<Cell>)

  /** A message with every member at its default: what `Clear` leaves. */
  function Default(E: Env, t: nat): (m: Msg)
    requires t < |E|
    ensures |m.cells| == |E[t]|
    ensures forall i :: 0 <= i < |E[t]| ==> m.cells[i] == DefaultCell(E, t, i)
    decreases t, 1
  {
    Msg(seq(|E[t]|, i requires 0 <= i < |E[t]| => DefaultCell(E, t, i)))
  }

  function DefaultCell(E: Env, t: nat, i: nat): Cell
    requires t < |E| && i < |E[t]|
    decreases t, 0
  {
    assert WfFields(E[t], t, |E|);
    match E[t][i].kind
    case KVarint(_) => Num(0)
    case KFixed64(_) => Fix(Zeros(8))
    case KFixed32(_) => Fix(Zeros(4))
    case KString => Str(true, [])
    case KMessage(u) => Sub(Default(E, u))
    case KLazy(_) => Lazy(Unset)
  }

  /**
    A message fresh from its constructor. On an arena every string member starts out
    allocated, hence non-default though empty.
  */
  function Fresh(E: Env, t: nat, onArena: bool): (m: Msg)
    requires t < |E|
    ensures |m.cells| == |E[t]|
    ensures forall i :: 0 <= i < |E[t]| ==> m.cells[i] == FreshCell(E, t, i, onArena)
    decreases t, 1
  {
    Msg(seq(|E[t]|, i requires 0 <= i < |E[t]| => FreshCell(E, t, i, onArena)))
  }

  function FreshCell(E: Env, t: nat, i: nat, onArena: bool): Cell
    requires t < |E| && i < |E[t]|
    decreases t, 0
  {
    assert WfFields(E[t], t, |E|);
    match E[t][i].kind
    case KString => Str(!onArena, [])
    case KMessage(u) => Sub(Fresh(E, u, onArena))
    case _ => DefaultCell(E, t, i)
  }

  function Zeros(n: nat): (s: seq<byte>)
    ensures |s| == n
  {
    seq(n, _ => 0 as byte)
  }

  /** `x != default_literal` is false: zero, and for `float`/`double` also negative zero. */
  predicate IsZero(raw: seq<byte>, isFloat: bool)
  {
    raw == Zeros(|raw|) || (isFloat && NegativeZero(raw))
  }

  predicate NegativeZero(raw: seq<byte>)
  {
    |raw| > 0 && raw == Zeros(|raw| - 1) + [0x80]
  }

  /** The values a member can hold, its C++ type being what it is. */
  predicate WfMsg(E: Env, t: nat, m: Msg)
    decreases m
  {
    && t < |E| && |m.cells| == |E[t]|
    && forall i :: 0 <= i < |m.cells| ==> WfCell(E, E[t][i].kind, m.cells[i])
  }

  predicate WfCell(E: Env, k: Kind, c: Cell)
    decreases c
  {
    match k
    case KVarint(vt) => c.Num? && InRange(vt, c.v)
    case KFixed64(_) => c.Fix? && |c.raw| == 8
    case KFixed32(_) => c.Fix? && |c.raw| == 4
    case KString => c.Str? && (c.isDefault ==> c.text == [])
    case KMessage(u) => c.Sub? && WfMsg(E, u, c.msg)
    case KLazy(u) => c.Lazy? && (c.val.Live? ==> WfMsg(E, u, c.val.msg))
  }

  lemma {:induction false} DefaultWf(E: Env, t: nat)
    requires t < |E|
    ensures WfMsg(E, t, Default(E, t))
    decreases t
  {
    assert WfFields(E[t], t, |E|);
    forall i | 0 <= i < |E[t]|
      ensures WfCell(E, E[t][i].kind, DefaultCell(E, t, i))
    {
      if E[t][i].kind.KMessage? { DefaultWf(E, E[t][i].kind.sub); }
    }
  }

  lemma {:induction false} FreshWf(E: Env, t: nat, onArena: bool)
    requires t < |E|
    ensures WfMsg(E, t, Fresh(E, t, onArena))
    decreases t
  {
    assert WfFields(E[t], t, |E|);
    forall i | 0 <= i < |E[t]|
      ensures WfCell(E, E[t][i].kind, FreshCell(E, t, i, onArena))
    {
      if E[t][i].kind.KMessage? { FreshWf(E, E[t][i].kind.sub, onArena); }
    }
  }

  // ---- scalar casts ------------------------------------------------------------------------------

  const TWO31: int := 0x8000_0000
  const TWO63: int := 0x8000_0000_0000_0000

  predicate InRange(vt: VarType, v: int)
  {
    match vt
    case UInt32 => 0 <= v < TWO32
    case UInt64 => 0 <= v < TWO64
    case Bool => v == 0 || v == 1
    case Int64 => -TWO63 <= v < TWO63
    case SInt64 => -TWO63 <= v < TWO63
    case _ => -TWO31 <= v < TWO31
  }

  /** `static_cast<uint64_t>(field)`: sign extension for the signed types. */
  function ToU64(v: int): (u: nat)
    ensures u < TWO64
  {
    v % TWO64
  }

  function AsSigned(u: nat, modulus: nat): int
  {
    if u < modulus / 2 then u else u - modulus
  }

  /** `static_cast<T>(parsed)` for the field's C++ type. */
  function FromU64(vt: VarType, u: nat): (v: int)
    requires u < TWO64
    ensures InRange(vt, v)
  {
    match vt
    case UInt32 => u % TWO32
    case UInt64 => u
    case Bool => if u == 0 then 0 else 1
    case Int64 => AsSigned(u, TWO64)
    case SInt64 => AsSigned(u, TWO64)
    case _ => AsSigned(u % TWO32, TWO32)
  }

  /**
    Every value of every varint-coded type survives widening, writing, reading and narrowing,
    whatever follows it in the buffer; a negative value takes ten bytes.
  */
  lemma ScalarSurvives(vt: VarType, v: int, buf: seq<byte>, pos: nat)
    requires InRange(vt, v) && HasAt(buf, pos, Encode(ToU64(v)))
    ensures ScanEnd(buf, pos, 10) == At(pos + |Encode(ToU64(v))|)
    ensures FromU64(vt, RawValue(buf[pos..pos + |Encode(ToU64(v))|]) % TWO64) == v
    ensures v < 0 ==> |Encode(ToU64(v))| == 10
  {
    hide RawValue, IsVarint, ScanEnd, FromU64, Encode, InRange;
    var u := ToU64(v);
    EncodeLength(u);
    EncodeInverse(u);
    ScanFinds(buf, pos, Encode(u), 10);
    assert buf[pos..pos + |Encode(u)|] == Encode(u);
    assert u % TWO64 == u;
    Narrow(vt, v);
    if v < 0 { TenBytes(u); }
  }

  /** How many values the C++ type of an integer field has. */
  function Modulus(vt: VarType): (m: nat)
    ensures m > 0
  {
    if vt == Int32 || vt == UInt32 || vt == SInt32 || vt == Enum then TWO32 else TWO64
  }

  /**
    Narrowing keeps the bits the type has room for: of an integer type the result is the only
    value of the type congruent to the one read, and a bool is true of everything but zero.
  */
  lemma NarrowExactly(vt: VarType, u: nat, v: int)
    requires u < TWO64 && InRange(vt, v)
    ensures vt != Bool ==> (v == FromU64(vt, u) <==> (v - u) % Modulus(vt) == 0)
    ensures vt == Bool ==> (FromU64(vt, u) != 0 <==> u != 0)
  {
    if vt != Bool {
      var w, m := FromU64(vt, u), Modulus(vt);
      Congruent(w, u, m);
      assert InRange(vt, w) && v - w < m && w - v < m;
      SmallMultiple(v, w, u, m);
    }
  }

  lemma Congruent(w: int, u: nat, m: nat)
    requires m == TWO32 || m == TWO64
    requires w == u % m || w == u % m - m
    ensures (w - u) % m == 0
  {
    var q := if w >= 0 then -(u / m) else -(u / m) - 1;
    assert u == (u / m) * m + u % m;
    assert w - u == q * m;
    MultipleMod(q, m);
  }

  lemma MultipleMod(q: int, m: nat)
    requires m > 0
    ensures q * m % m == 0
  {
    var x := q * m;
    assert x == (x / m) * m + x % m;
    var d := q - x / m;
    assert d * m == x % m;
    assert -1 < d < 1;
  }

  lemma SmallMultiple(v: int, w: int, u: nat, m: nat)
    requires m == TWO32 || m == TWO64
    requires (w - u) % m == 0 && v - w < m && w - v < m
    ensures (v - u) % m == 0 <==> v == w
  {
    if (v - u) % m == 0 {
      var a, b := (v - u) / m, (w - u) / m;
      assert v - u == a * m && w - u == b * m;
      assert v - w == (a - b) * m;
      assert -1 < a - b < 1;
    }
  }

  lemma TenBytes(u: nat)
    requires TWO63 <= u < TWO64
    ensures |Encode(u)| == 10
  {
    Pow2Values();
    EncodeLength(u);
    EncodeInverse(u);
    RawValueBound(Encode(u));
    if |Encode(u)| <= 9 {
      Pow2Monotone(7 * |Encode(u)|, 63);
    }
  }

  lemma Narrow(vt: VarType, v: int)
    requires InRange(vt, v)
    ensures FromU64(vt, ToU64(v)) == v
    ensures v < 0 ==> ToU64(v) >= TWO64 / 2
  {
    WidenSigned(v);
    if v < 0 && -TWO31 <= v {
      LowWord(v);
    }
  }

  lemma WidenSigned(v: int)
    requires -TWO63 <= v < TWO64
    ensures ToU64(v) == if v >= 0 then v else v + TWO64
  {
    if v >= 0 { ModUnique(v, 0, v, TWO64); }
  }

  lemma LowWord(v: int)
    requires -TWO31 <= v < 0
    ensures (v + TWO64) % TWO32 == v + TWO32
  {
    assert v + TWO64 == (TWO32 - 1) * TWO32 + (v + TWO32);
    ModUnique(v + TWO64, TWO32 - 1, v + TWO32, TWO32);
  }
}
