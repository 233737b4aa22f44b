/**
  The varint readers, writers and sizers as the emitted code and the runtime run them,
  each proved against the reference in `Varint`. Input memory is a constant byte sequence,
  output memory an array; a pointer is an index.
*/
module VarintCode {
  import opened Bits
  import opened Varint

  // ---- the unrolled readers ------------------------------------------------------------

  /** The registers of the unrolled readers between two expansions of their macro. */
  datatype ReadState =
    | Reading(p: nat, result: nat, shift: nat)
    | Stopped(end: nat, out: nat)
    | OutOfBuffer

  /** One expansion of PROTOOPT_READ_BYTE for a result register of `width` bits. */
  function ReadByte(buf: seq<byte>, st: ReadState, width: nat): ReadState
  {
    match st
    case Reading(p, result, shift) =>
      if p >= |buf| then OutOfBuffer
      else
        var b := buf[p];
        var result' := BitOr(result, (b % 128) * Pow2(shift) % Pow2(width));
        if b < 128 then Stopped(p + 1, result') else Reading(p + 1, result', shift + 7)
    case _ => st
  }

  /** After `k` expansions of at most `max`: the registers hold the seven-bit groups read so far. */
  ghost predicate Reached(buf: seq<byte>, pos: nat, k: nat, max: nat, width: nat, st: ReadState)
  {
    k <= max &&
    match st
    case Reading(p, result, shift) =>
      && p == pos + k && shift == 7 * k && (k > 0 ==> p <= |buf|)
      && ScanEnd(buf, pos, max) == ScanEnd(buf, p, max - k)
      && result < Pow2(7 * k)
      && (k == 0 ==> result == 0) && (0 < k < max ==> result == RawValue(buf[pos..p]))
    case Stopped(end, out) =>
      && ScanEnd(buf, pos, max) == At(end) && pos <= end <= |buf|
      && out == RawValue(buf[pos..end]) % Pow2(width)
    case OutOfBuffer => ScanEnd(buf, pos, max) == Overrun
  }

  /** Or-ing in a shifted group, cut at the register width, is addition modulo the width. */
  lemma OrStep(result: nat, b: byte, shift: nat, width: nat)
    requires result < Pow2(shift) && shift < width
    ensures BitOr(result, (b % 128) * Pow2(shift) % Pow2(width)) == (result + (b % 128) * Pow2(shift)) % Pow2(width)
  {
    var y := (b % 128) % Pow2(width - shift);
    ShiftTruncates(b % 128, shift, width);
    OrDisjoint(result, y, shift);
    Pow2Add(width - shift, shift);
    SumFits(y, Pow2(width - shift), Pow2(shift), result);
    ModSplit(result, (b % 128) * Pow2(shift), Pow2(width));
  }

  lemma SumFits(y: nat, hi: nat, lo: nat, r: nat)
    requires y < hi && r < lo
    ensures y * lo + r < hi * lo
  {
    assert (y + 1) * lo <= hi * lo;
  }

  lemma ModSplit(r: nat, x: nat, m: nat)
    requires m > 0 && r + x % m < m
    ensures (r + x) % m == r + x % m
  {
    assert x == (x / m) * m + x % m;
    ModUnique(r + x, x / m, r + x % m, m);
  }

  lemma ReadByteStep(buf: seq<byte>, pos: nat, k: nat, max: nat, width: nat, st: ReadState)
    requires k < max && 7 * (max - 1) < width <= 7 * max
    requires Reached(buf, pos, k, max, width, st)
    ensures Reached(buf, pos, k + 1, max, width, ReadByte(buf, st, width))
  {
    assert RawValue([]) == 0;
    hide RawValue, BitOr, Pow2;
    if st.Reading? && st.p < |buf| {
      var p, b := st.p, buf[st.p];
      var s := buf[pos..p];
      assert buf[pos..p + 1] == s + [b];
      assert st.result == RawValue(s);
      RawValueAppend(s, b);
      OrStep(st.result, b, st.shift, width);
      RawValueBound(s + [b]);
      if b < 128 {
        assert ScanEnd(buf, p, max - k) == At(p + 1);
      } else {
        if k + 1 < max {
          Pow2Monotone(7 * (k + 1), width);
          ModSmall(RawValue(s + [b]), Pow2(width));
        } else {
          Pow2Monotone(width, 7 * max);
        }
      }
    }
  }

  lemma ModSmall(x: nat, m: nat)
    requires x < m
    ensures x % m == x
  {
  }

  /** One expansion of the macro in the unrolled code. */
  method Expand(buf: seq<byte>, st: ReadState, width: nat, ghost pos: nat, ghost k: nat, ghost max: nat)
    returns (st': ReadState)
    requires k < max && 7 * (max - 1) < width <= 7 * max
    requires Reached(buf, pos, k, max, width, st)
    ensures Reached(buf, pos, k + 1, max, width, st')
  {
    ReadByteStep(buf, pos, k, max, width, st);
    st' := ReadByte(buf, st, width);
  }

  /** After the last expansion: a byte ended the varint, or falling through returns `nullptr`. */
  method Return(buf: seq<byte>, st: ReadState, ghost width: nat, ghost pos: nat, ghost max: nat) returns (r: Ptr, out: nat)
    requires Reached(buf, pos, max, max, width, st)
    ensures r == ScanEnd(buf, pos, max)
    ensures r.At? ==> out == RawValue(buf[pos..r.pos]) % Pow2(width)
  {
    out := 0;
    match st
    case Stopped(end, o) => r, out := At(end), o;
    case Reading(_, _, _) => r := Null;
    case OutOfBuffer => r := Overrun;
  }

  lemma Start(buf: seq<byte>, pos: nat, max: nat, width: nat)
    ensures Reached(buf, pos, 0, max, width, Reading(pos, 0, 0))
  {
  }

  /** Emitted `ReadVarint`: ten expansions of the macro on a 64-bit register. */
  method ReadVarint(buf: seq<byte>, ptr: nat) returns (r: Ptr, out: nat)
    ensures r == ScanEnd(buf, ptr, 10)
    ensures r.At? ==> ptr < r.pos <= |buf| && out == RawValue(buf[ptr..r.pos]) % TWO64
  {
    hide *;
    Pow2Values();
    Start(buf, ptr, 10, 64);
    var st := Reading(ptr, 0, 0);
    st := Expand(buf, st, 64, ptr, 0, 10);
    st := Expand(buf, st, 64, ptr, 1, 10);
    st := Expand(buf, st, 64, ptr, 2, 10);
    st := Expand(buf, st, 64, ptr, 3, 10);
    st := Expand(buf, st, 64, ptr, 4, 10);
    st := Expand(buf, st, 64, ptr, 5, 10);
    st := Expand(buf, st, 64, ptr, 6, 10);
    st := Expand(buf, st, 64, ptr, 7, 10);
    st := Expand(buf, st, 64, ptr, 8, 10);
    st := Expand(buf, st, 64, ptr, 9, 10);
    r, out := Return(buf, st, 64, ptr, 10);
  }

  /** `LazyField::ReadVarint32`: five expansions on a 32-bit register. */
  method ReadVarint32(buf: seq<byte>, ptr: nat) returns (r: Ptr, value: nat)
    ensures r == ScanEnd(buf, ptr, 5)
    ensures r.At? ==> ptr < r.pos <= |buf| && value == RawValue(buf[ptr..r.pos]) % TWO32
  {
    hide *;
    Pow2Values();
    Start(buf, ptr, 5, 32);
    var st := Reading(ptr, 0, 0);
    st := Expand(buf, st, 32, ptr, 0, 5);
    st := Expand(buf, st, 32, ptr, 1, 5);
    st := Expand(buf, st, 32, ptr, 2, 5);
    st := Expand(buf, st, 32, ptr, 3, 5);
    st := Expand(buf, st, 32, ptr, 4, 5);
    r, value := Return(buf, st, 32, ptr, 5);
  }

  /** Emitted `ReadTag`: an over-long tag reads as 0 and leaves the pointer where it was. */
  method ReadTag(buf: seq<byte>, ptr: nat) returns (r: Ptr, tag: nat)
    ensures r == if ScanEnd(buf, ptr, 10).Null? then At(ptr) else ScanEnd(buf, ptr, 10)
    ensures ScanEnd(buf, ptr, 10).Null? ==> tag == 0
    ensures ScanEnd(buf, ptr, 10).At? ==> ptr < r.pos <= |buf| && tag == RawValue(buf[ptr..r.pos]) % TWO32
  {
    var out;
    r, out := ReadVarint(buf, ptr);
    tag := 0;
    match r
    case Null => r := At(ptr);
    case At(p) =>
      tag := out % TWO32;
      TruncateTwice(RawValue(buf[ptr..p]));
    case Overrun =>
  }

  // ---- the looped readers of the skipper -------------------------------------------------

  /** `UnknownFieldSkipper::ReadVarint64Inline`. */
  method ReadVarint64Inline(buf: seq<byte>, start: nat) returns (r: Ptr, value: nat)
    ensures r == ScanEnd(buf, start, 10)
    ensures r.At? ==> start < r.pos <= |buf| && value == RawValue(buf[start..r.pos]) % TWO64
  {
    Pow2Values();
    hide RawValue, BitOr, Pow2;
    var ptr: nat, out: nat, shift: nat := start, 0, 0;
    value := 0;
    for i := 0 to 10
      invariant Reached(buf, start, i, 10, 64, Reading(ptr, out, shift))
    {
      if ptr >= |buf| {
        return Overrun, 0;
      }
      ReadByteStep(buf, start, i, 10, 64, Reading(ptr, out, shift));
      var b := buf[ptr];
      ptr := ptr + 1;
      out := BitOr(out, (b % 128) * Pow2(shift) % Pow2(64));
      if b < 128 {
        return At(ptr), out;
      }
      shift := shift + 7;
    }
    return Null, 0;
  }

  /** `UnknownFieldSkipper::ReadVarint32Inline`, also `ReadTagInline`: no silent truncation. */
  method ReadVarint32Inline(buf: seq<byte>, start: nat) returns (r: Ptr, value: nat)
    ensures ScanEnd(buf, start, 10).At? ==>
              r == if RawValue(buf[start..ScanEnd(buf, start, 10).pos]) % TWO64 < TWO32 then ScanEnd(buf, start, 10) else Null
    ensures !ScanEnd(buf, start, 10).At? ==> r == ScanEnd(buf, start, 10)
    ensures r.At? ==> start < r.pos <= |buf| && value == RawValue(buf[start..r.pos]) % TWO64
  {
    var out;
    r, out := ReadVarint64Inline(buf, start);
    value := 0;
    if r.At? {
      if out >= TWO32 {
        return Null, 0;
      }
      value := out;
    }
  }

  /** `UnknownFieldSkipper::SkipVarintInline` stops where the reader stops. */
  method SkipVarintInline(buf: seq<byte>, start: nat) returns (r: Ptr)
    ensures r == ScanEnd(buf, start, 10)
  {
    var ptr, count := start, 0;
    while ptr < |buf| && buf[ptr] >= 128
      invariant ptr == start + count && count < 10
      invariant ScanEnd(buf, start, 10) == ScanEnd(buf, ptr, 10 - count)
    {
      ptr := ptr + 1;
      count := count + 1;
      if count >= 10 {
        return Null;
      }
    }
    return if ptr < |buf| then At(ptr + 1) else Overrun;
  }

  // ---- writers and sizers --------------------------------------------------------------------

  /** `s` with the bytes from `at` on overwritten by `t`. */
  function Splice(s: seq<byte>, at: nat, t: seq<byte>): (r: seq<byte>)
    requires at + |t| <= |s|
    ensures |r| == |s|
  {
    s[..at] + t + s[at + |t|..]
  }

  lemma SpliceTwice(s: seq<byte>, at: nat, t: seq<byte>, u: seq<byte>)
    requires at + |t| + |u| <= |s|
    ensures Splice(Splice(s, at, t), at + |t|, u) == Splice(s, at, t + u)
  {
    var r := Splice(s, at, t);
    assert r[..at + |t|] == s[..at] + t;
    assert r[at + |t| + |u|..] == s[at + |t| + |u|..];
  }

  /** `*target++ = b`. */
  method Put(target: array<byte>, at: nat, b: byte) returns (end: nat)
    requires at < target.Length
    modifies target
    ensures end == at + 1
    ensures target[..] == Splice(old(target[..]), at, [b])
  {
    target[at] := b;
    end := at + 1;
  }

  /** Emitted `WriteVarint` (and `WriteTag`); `LazyField::WriteVarint32` is the same loop on a `uint32_t`. */
  method WriteVarint(target: array<byte>, at: nat, v: nat) returns (end: nat)
    requires v < TWO64 && at + |Encode(v)| <= target.Length
    modifies target
    ensures end == at + |Encode(v)|
    ensures target[..] == Splice(old(target[..]), at, Encode(v))
  {
    var value := v;
    end := at;
    ghost var done: seq<byte> := [];
    ghost var before := target[..];
    while value >= 0x80
      invariant Encode(v) == done + Encode(value)
      invariant end == at + |done|
      invariant target[..] == Splice(before, at, done)
    {
      var b := BitOr128(value);
      SpliceTwice(before, at, done, [b]);
      assert Encode(v) == (done + [b]) + Encode(value / 128);
      done := done + [b];
      end := Put(target, end, b);
      value := value / 128;
    }
    SpliceTwice(before, at, done, [value]);
    end := Put(target, end, value);
  }

  /** `(value & 0x7F) | 0x80`, narrowed to a byte. */
  function BitOr128(value: nat): (b: byte)
    ensures b == value % 128 + 128
  {
    Pow2Values();
    OrDisjoint(value % 128, 1, 7);
    BitOr(value % 128, 0x80)
  }

  /** `memcpy(target + at, bytes)`. */
  method CopyBytes(target: array<byte>, at: nat, bytes: seq<byte>) returns (end: nat)
    requires at + |bytes| <= target.Length
    modifies target
    ensures end == at + |bytes|
    ensures target[..] == Splice(old(target[..]), at, bytes)
  {
    forall i | 0 <= i < |bytes| {
      target[at + i] := bytes[i];
    }
    end := at + |bytes|;
  }

  /** `LazyField::WriteLengthDelimitedBytes`. */
  method WriteLengthDelimitedBytes(target: array<byte>, at: nat, bytes: seq<byte>) returns (end: nat)
    requires at + |Encode(|bytes| % TWO32)| + |bytes| <= target.Length
    modifies target
    ensures end == at + |Encode(|bytes| % TWO32) + bytes|
    ensures target[..] == Splice(old(target[..]), at, Encode(|bytes| % TWO32) + bytes)
  {
    end := WriteVarint(target, at, |bytes| % TWO32);
    SpliceTwice(old(target[..]), at, Encode(|bytes| % TWO32), bytes);
    if |bytes| != 0 {
      end := CopyBytes(target, end, bytes);
    }
  }

  /** Emitted `VarintSize`, and `LazyField::Varint32Size` on 32-bit values. */
  method VarintSize(v: nat) returns (size: nat)
    requires v < TWO64
    ensures size == |Encode(v)| && 1 <= size <= 10
    ensures v < TWO32 ==> size <= 5
  {
    var value := v;
    size := 1;
    while value >= 0x80
      invariant |Encode(v)| == size - 1 + |Encode(value)|
    {
      value := value / 128;
      size := size + 1;
    }
    EncodeLength(v);
  }

  /** The generator's own `_varint_size`, on Python's unbounded integers. */
  method GeneratorVarintSize(v: nat) returns (size: nat)
    ensures size == |Encode(v)|
  {
    var value := v;
    size := 1;
    while value >= 0x80
      invariant |Encode(v)| == size - 1 + |Encode(value)|
    {
      value := value / 128;
      size := size + 1;
    }
  }
}
