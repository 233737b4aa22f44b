/**
  The base-128 varint of the Protocol Buffers "Encoding" guide ("Base 128 Varints"):
  the reference that every reader, writer and sizer of the runtime is proved against.
*/
module Varint {
  import opened Bits

  type byte = x: int | 0 <= x < 256

  const TWO32: nat := 0x1_0000_0000
  const TWO64: nat := 0x1_0000_0000_0000_0000

  /** What a pointer-returning reader yields: an in-buffer pointer, `nullptr`, or an access outside the buffer. */
  datatype Ptr = At(pos: nat) | Null | Overrun

  /** The canonical encoding: seven bits a byte, least significant group first. */
  function Encode(v: nat): (s: seq<byte>)
    ensures |s| >= 1
  {
    if v < 128 then [v] else [v % 128 + 128] + Encode(v / 128)
  }

  /** The number a group of bytes stands for, continuation bits ignored and no width imposed. */
  function RawValue(s: seq<byte>): nat
  {
    if s == [] then 0 else s[0] % 128 + 128 * RawValue(s[1..])
  }

  /** One varint of at most `max` bytes: only the last byte has its continuation bit clear. */
  predicate IsVarint(s: seq<byte>, max: nat)
  {
    1 <= |s| <= max && s[|s| - 1] < 128 && forall i :: 0 <= i < |s| - 1 ==> s[i] >= 128
  }

  /** Where a reader of at most `max` bytes stops. */
  function ScanEnd(buf: seq<byte>, pos: nat, max: nat): (r: Ptr)
    ensures r.At? ==> pos < r.pos <= |buf| && r.pos <= pos + max
    decreases max
  {
    if max == 0 then Null
    else if pos >= |buf| then Overrun
    else if buf[pos] < 128 then At(pos + 1)
    else ScanEnd(buf, pos + 1, max - 1)
  }

  /** `s` lies in `buf` at `pos`. */
  predicate HasAt(buf: seq<byte>, pos: nat, s: seq<byte>)
  {
    pos + |s| <= |buf| && buf[pos..pos + |s|] == s
  }

  lemma HasAtSplit(buf: seq<byte>, pos: nat, s: seq<byte>, t: seq<byte>)
    ensures HasAt(buf, pos, s + t) <==> HasAt(buf, pos, s) && HasAt(buf, pos + |s|, t)
  {
    if HasAt(buf, pos, s + t) {
      assert buf[pos..pos + |s|] == (s + t)[..|s|] == s;
      assert buf[pos + |s|..pos + |s| + |t|] == (s + t)[|s|..] == t;
    }
    if HasAt(buf, pos, s) && HasAt(buf, pos + |s|, t) {
      assert buf[pos..pos + |s + t|] == buf[pos..pos + |s|] + buf[pos + |s|..pos + |s| + |t|];
    }
  }

  /** The scan accepts exactly the varints of at most `max` bytes, and no others. */
  lemma {:induction false} ScanRecognises(buf: seq<byte>, pos: nat, max: nat, end: nat)
    ensures ScanEnd(buf, pos, max) == At(end) <==>
            pos <= end <= |buf| && IsVarint(buf[pos..end], max)
    decreases max
  {
    if max > 0 && pos < |buf| {
      if pos < end <= |buf| {
        VarintTail(buf, pos, end, max);
      }
      if buf[pos] >= 128 {
        ScanRecognises(buf, pos + 1, max - 1, end);
      }
    }
  }

  /** Peeling the first byte off a varint. */
  lemma VarintTail(buf: seq<byte>, pos: nat, end: nat, max: nat)
    requires pos < end <= |buf| && max > 0
    ensures IsVarint(buf[pos..end], max) <==>
            if buf[pos] < 128 then end == pos + 1 else IsVarint(buf[pos + 1..end], max - 1)
  {
    var s, t := buf[pos..end], buf[pos + 1..end];
    assert s == [buf[pos]] + t;
    assert forall i :: 0 < i < |s| ==> s[i] == t[i - 1];
    assert forall i :: 0 <= i < |t| ==> t[i] == s[i + 1];
  }

  /** A varint placed in a buffer is found there, whatever follows it. */
  lemma ScanFinds(buf: seq<byte>, pos: nat, s: seq<byte>, max: nat)
    requires IsVarint(s, max) && HasAt(buf, pos, s)
    ensures ScanEnd(buf, pos, max) == At(pos + |s|)
  {
    ScanRecognises(buf, pos, max, pos + |s|);
  }

  /** No varint is a proper prefix of another. */
  lemma PrefixFree(s: seq<byte>, t: seq<byte>, m: nat, n: nat)
    requires IsVarint(s, m) && IsVarint(t, n) && s <= t
    ensures s == t
  {
    assert t[|s| - 1] == s[|s| - 1];
  }

  lemma {:induction false} RawValueBound(s: seq<byte>)
    ensures RawValue(s) < Pow2(7 * |s|)
  {
    if s != [] {
      RawValueBound(s[1..]);
      Pow2Add(7, 7 * |s[1..]|);
      assert Pow2(7) == 128;
    }
  }

  /** Reading one more byte adds its seven bits at the current shift. */
  lemma {:induction false} RawValueAppend(s: seq<byte>, b: byte)
    ensures RawValue(s + [b]) == RawValue(s) + (b % 128) * Pow2(7 * |s|)
  {
    if s == [] {
      assert s + [b] == [b];
      assert RawValue([b][1..]) == 0;
    } else {
      assert (s + [b])[1..] == s[1..] + [b];
      RawValueAppend(s[1..], b);
      var p := Pow2(7 * |s[1..]|);
      Pow2Add(7, 7 * |s[1..]|);
      assert Pow2(7) == 128;
      assert 128 * ((b % 128) * p) == (b % 128) * (128 * p);
    }
  }

  /** Putting a continuation byte in front of a varint. */
  lemma ConsVarint(b: byte, t: seq<byte>, n: nat)
    requires b >= 128
    ensures RawValue([b] + t) == (b - 128) + 128 * RawValue(t)
    ensures t != [] ==> (IsVarint([b] + t, n + 1) <==> IsVarint(t, n))
  {
    var s := [b] + t;
    assert s[1..] == t;
    assert forall i :: 0 < i < |s| ==> s[i] == t[i - 1];
    assert forall i :: 0 <= i < |t| ==> t[i] == s[i + 1];
  }

  /** Decoding inverts encoding, and the encoding is a varint. */
  lemma {:induction false} EncodeInverse(v: nat)
    ensures RawValue(Encode(v)) == v
    ensures IsVarint(Encode(v), |Encode(v)|)
  {
    hide RawValue, IsVarint;
    if v < 128 {
      OneByte(v);
    } else {
      EncodeInverse(v / 128);
      ConsVarint(v % 128 + 128, Encode(v / 128), |Encode(v / 128)|);
    }
  }

  lemma OneByte(b: byte)
    ensures RawValue([b]) == b % 128
    ensures b < 128 ==> IsVarint([b], 1) && IsVarint([b], 10)
  {
    assert [b][1..] == [];
  }

  /** `n` bytes hold every value below 2^(7n): ten bytes for 64 bits, five for 32. */
  lemma {:induction false} EncodeFits(v: nat, n: nat)
    requires n >= 1 && v < Pow2(7 * n)
    ensures |Encode(v)| <= n
    decreases n
  {
    if v >= 128 {
      assert Pow2(7) == 128;
      assert n > 1;
      Pow2Add(7 * (n - 1), 7);
      EncodeFits(v / 128, n - 1);
    }
  }

  /** The bounds the generated code relies on. */
  lemma EncodeLength(v: nat)
    ensures v < TWO64 ==> IsVarint(Encode(v), 10)
    ensures v < TWO32 ==> IsVarint(Encode(v), 5)
    ensures v < 128 ==> |Encode(v)| == 1
  {
    EncodeInverse(v);
    Pow2Values();
    if v < TWO64 { EncodeFits(v, 10); }
    if v < TWO32 { EncodeFits(v, 5); }
  }

  lemma EncodeNotEmpty(v: nat)
    ensures |Encode(v)| > 0
  {
  }

  lemma Pow2Values()
    ensures Pow2(3) == 8 && Pow2(2) == 4 && Pow2(7) == 128
    ensures Pow2(32) == TWO32 && Pow2(64) == TWO64
    ensures Pow2(35) == 8 * TWO32 && Pow2(70) == 64 * TWO64
    ensures Pow2(28) == TWO32 / 16 && Pow2(63) == TWO64 / 2
  {
    assert Pow2(8) == 256;
    Pow2Add(8, 8); Pow2Add(16, 16); Pow2Add(32, 32);
    Pow2Add(32, 3); Pow2Add(64, 6); Pow2Add(28, 4); Pow2Add(63, 1);
    assert Pow2(3) == 8 && Pow2(6) == 64 && Pow2(4) == 16;
  }

  /** Minimality: no varint of the same value is shorter than the canonical one. */
  lemma {:induction false} EncodeMinimal(s: seq<byte>, max: nat)
    requires IsVarint(s, max)
    ensures |Encode(RawValue(s))| <= |s|
  {
    RawValueBound(s);
    EncodeFits(RawValue(s), |s|);
  }

  /** Equal-valued varints differ only in padding: the shortest one is unique. */
  lemma {:induction false} CanonicalUnique(s: seq<byte>, max: nat)
    requires IsVarint(s, max)
    ensures s == Encode(RawValue(s)) <==> |s| == 1 || s[|s| - 1] != 0
  {
    hide RawValue, IsVarint;
    if |s| == 1 {
      assert s == [s[0]];
      VarintBytes(s, max);
      OneByte(s[0]);
    } else {
      VarintBytes(s, max);
      var b, t := s[0], s[1..];
      assert s == [b] + t && t[|t| - 1] == s[|s| - 1];
      ConsVarint(b, t, max - 1);
      CanonicalUnique(t, max - 1);
      VarintBytes(t, max - 1);
      if s[|s| - 1] != 0 { NonZero(t); }
      var w := RawValue(t);
      assert RawValue(s) % 128 == b - 128 && RawValue(s) / 128 == w;
      if w == 0 {
        assert |Encode(RawValue(s))| == 1;
      } else {
        assert Encode(RawValue(s)) == [b] + Encode(w);
        assert s == [b] + Encode(w) <==> t == Encode(w) by { assert s[1..] == t && ([b] + Encode(w))[1..] == Encode(w); }
        if |t| == 1 { assert t == [t[0]]; OneByte(t[0]); }
      }
    }
  }

  lemma VarintBytes(s: seq<byte>, max: nat)
    requires IsVarint(s, max)
    ensures 1 <= |s| <= max && s[|s| - 1] < 128 && (|s| > 1 ==> s[0] >= 128)
  {
  }

  lemma {:induction false} NonZero(s: seq<byte>)
    requires |s| >= 1 && 0 < s[|s| - 1] < 128
    ensures RawValue(s) > 0
  {
    if |s| > 1 {
      assert s[1..][|s[1..]| - 1] == s[|s| - 1];
      NonZero(s[1..]);
    }
  }

  /**
    The decoders agree: the five-byte reader accepts what the ten-byte one accepts exactly when
    at most five bytes were used, and stops at the same place.
  */
  lemma {:induction false} ReadersAgree(buf: seq<byte>, pos: nat, end: nat)
    ensures ScanEnd(buf, pos, 5) == At(end) <==> ScanEnd(buf, pos, 10) == At(end) && end - pos <= 5
  {
    ScanRecognises(buf, pos, 5, end);
    ScanRecognises(buf, pos, 10, end);
  }

  /** The 32-bit value a reader returns is the 64-bit one reduced. */
  lemma TruncateTwice(x: nat)
    ensures x % TWO64 % TWO32 == x % TWO32
  {
    var q := x / TWO64;
    var r := x % TWO64;
    assert x == (q * TWO32 + r / TWO32) * TWO32 + r % TWO32;
    ModUnique(x, q * TWO32 + r / TWO32, r % TWO32, TWO32);
  }
}
