/** The unknown-field skippers as the runtime runs them, proved against the recognisers of `Wire`. */
module SkipperCode {
  import opened Varint
  import VarintCode
  import opened Wire

  // ---- over a parse buffer ------------------------------------------------------------------

  /** `ReadVarint32Inline`, and `ReadTagInline` which only renames it. */
  method ReadTagInline(buf: seq<byte>, start: nat) returns (r: Ptr, tag: nat)
    ensures r == Read32(Inline, buf, start)
    ensures r.At? ==> tag == Low32(buf[start..r.pos])
  {
    r, tag := VarintCode.ReadVarint32Inline(buf, start);
    match ScanEnd(buf, start, 10)
    case At(p) =>
      ScanRecognises(buf, start, 10, p);
      TruncateTwice(RawValue(buf[start..p]));
    case _ =>
  }

  method SkipLengthDelimitedInline(buf: seq<byte>, start: nat) returns (r: Ptr)
    requires start <= |buf|
    ensures r == Wire.Skip(Inline, buf, start, LENGTH_DELIMITED)
  {
    var ptr, size := ReadTagInline(buf, start);
    return if ptr.At? then Advance(buf, ptr.pos, size) else ptr;
  }

  method SkipFieldInline(buf: seq<byte>, ptr: nat, tag: nat) returns (r: Ptr)
    requires ptr <= |buf|
    ensures r == Wire.Skip(Inline, buf, ptr, tag)
    decreases |buf| - ptr, 1
  {
    if tag % 8 == VARINT {
      r := VarintCode.SkipVarintInline(buf, ptr);
    } else if tag % 8 == FIXED64 {
      r := Advance(buf, ptr, 8);
    } else if tag % 8 == LENGTH_DELIMITED {
      r := SkipLengthDelimitedInline(buf, ptr);
    } else if tag % 8 == START_GROUP {
      r := SkipGroupInline(buf, ptr, tag);
    } else if tag % 8 == FIXED32 {
      r := Advance(buf, ptr, 4);
    } else {
      r := Null;
    }
  }

  method SkipGroupInline(buf: seq<byte>, start: nat, startTag: nat) returns (r: Ptr)
    requires start <= |buf|
    ensures r == Wire.SkipGroup(Inline, buf, start, startTag / 8)
    decreases |buf| - start, 0
  {
    var number := startTag / 8;
    var ptr := start;
    while true
      invariant start <= ptr <= |buf|
      invariant Wire.SkipGroup(Inline, buf, start, number) == Wire.SkipGroup(Inline, buf, ptr, number)
      decreases |buf| - ptr
    {
      var q, tag := ReadTagInline(buf, ptr);
      if !q.At? {
        return q;
      }
      if tag == 0 {
        return Null;
      }
      if tag % 8 == END_GROUP {
        return if tag / 8 == number then q else Null;
      }
      var e := SkipFieldInline(buf, q.pos, tag);
      GroupStep(Inline, buf, ptr, q.pos, e, number);
      if !e.At? {
        return e;
      }
      ptr := e.pos;
    }
  }

  // ---- over a stream ------------------------------------------------------------------------

  /**
    What the skippers use of `CodedInputStream`, over a flat buffer: varints of at most ten
    bytes, truncated to the width asked for; `ReadTag` returns 0 when it cannot read one.
  */
  class CodedInputStream {
    const data: seq<byte>
    var pos: nat

    ghost predicate Valid()
      reads this
    {
      pos <= |data|
    }

    constructor (data: seq<byte>)
      ensures Valid() && this.data == data && pos == 0
    {
      this.data := data;
      pos := 0;
    }

    method ReadVarint64() returns (ok: bool, value: nat)
      requires Valid()
      modifies this`pos
      ensures Valid() && old(pos) <= pos
      ensures ok <==> ScanEnd(data, old(pos), 10).At?
      ensures ok ==> ScanEnd(data, old(pos), 10) == At(pos) && old(pos) < pos
      ensures ok ==> value == RawValue(data[old(pos)..pos]) % TWO64
      ensures !ok ==> pos == old(pos)
    {
      var r;
      r, value := VarintCode.ReadVarint64Inline(data, pos);
      ok := r.At?;
      if ok { pos := r.pos; }
    }

    method ReadVarint32() returns (ok: bool, value: nat)
      requires Valid()
      modifies this`pos
      ensures Valid() && old(pos) <= pos
      ensures ok <==> Read32(Stream, data, old(pos)).At?
      ensures ok ==> Read32(Stream, data, old(pos)) == At(pos) && old(pos) < pos
      ensures ok ==> value == Low32(data[old(pos)..pos])
      ensures !ok ==> pos == old(pos)
    {
      var wide;
      ok, wide := ReadVarint64();
      value := wide % TWO32;
      if ok { TruncateTwice(RawValue(data[old(pos)..pos])); }
    }

    method ReadTag() returns (tag: nat)
      requires Valid()
      modifies this`pos
      ensures Valid() && old(pos) <= pos
      ensures tag != 0 ==> Read32(Stream, data, old(pos)) == At(pos) && old(pos) < pos
      ensures Read32(Stream, data, old(pos)).At? ==>
                Read32(Stream, data, old(pos)) == At(pos) && tag == Low32(data[old(pos)..pos])
    {
      var ok;
      ok, tag := ReadVarint32();
      if !ok { tag := 0; }
    }

    method Skip(count: int) returns (ok: bool)
      requires Valid()
      modifies this`pos
      ensures Valid() && old(pos) <= pos
      ensures ok <==> 0 <= count && old(pos) + count <= |data|
      ensures ok ==> pos == old(pos) + count
    {
      ok := 0 <= count && pos + count <= |data|;
      if ok { pos := pos + count; }
    }
  }

  /** `static_cast<int>` of a 32-bit size. */
  function AsInt(size: nat): int
    requires size < TWO32
  {
    if size < INT_MAX_SPAN then size else size - TWO32
  }

  method SkipLengthDelimited(input: CodedInputStream) returns (ok: bool)
    requires input.Valid()
    modifies input`pos
    ensures input.Valid() && old(input.pos) <= input.pos
    ensures ok <==> Wire.Skip(Stream, input.data, old(input.pos), LENGTH_DELIMITED).At?
    ensures ok ==> Wire.Skip(Stream, input.data, old(input.pos), LENGTH_DELIMITED) == At(input.pos)
  {
    var size;
    ok, size := input.ReadVarint32();
    if ok {
      ok := input.Skip(AsInt(size));
    }
  }

  method SkipField(input: CodedInputStream, tag: nat) returns (ok: bool)
    requires input.Valid()
    modifies input`pos
    ensures input.Valid() && old(input.pos) <= input.pos
    ensures ok <==> Wire.Skip(Stream, input.data, old(input.pos), tag).At?
    ensures ok ==> Wire.Skip(Stream, input.data, old(input.pos), tag) == At(input.pos)
    decreases |input.data| - input.pos, 1
  {
    if tag % 8 == VARINT {
      var value;
      ok, value := input.ReadVarint64();
    } else if tag % 8 == FIXED64 {
      ok := input.Skip(8);
    } else if tag % 8 == LENGTH_DELIMITED {
      ok := SkipLengthDelimited(input);
    } else if tag % 8 == START_GROUP {
      ok := SkipGroup(input, tag);
    } else if tag % 8 == FIXED32 {
      ok := input.Skip(4);
    } else {
      ok := false;
    }
  }

  method SkipGroup(input: CodedInputStream, startTag: nat) returns (ok: bool)
    requires input.Valid()
    modifies input`pos
    ensures input.Valid() && old(input.pos) <= input.pos
    ensures ok <==> Wire.SkipGroup(Stream, input.data, old(input.pos), startTag / 8).At?
    ensures ok ==> Wire.SkipGroup(Stream, input.data, old(input.pos), startTag / 8) == At(input.pos)
    decreases |input.data| - input.pos, 0
  {
    var number := startTag / 8;
    while true
      invariant input.Valid() && old(input.pos) <= input.pos
      invariant Wire.SkipGroup(Stream, input.data, old(input.pos), number) ==
                Wire.SkipGroup(Stream, input.data, input.pos, number)
      decreases |input.data| - input.pos
    {
      ghost var start := input.pos;
      var tag := input.ReadTag();
      if tag == 0 {
        return false;
      }
      if tag % 8 == END_GROUP {
        return tag / 8 == number;
      }
      ghost var q := input.pos;
      var more := SkipField(input, tag);
      GroupStep(Stream, input.data, start, q, Wire.Skip(Stream, input.data, q, tag), number);
      if !more {
        return false;
      }
    }
  }
}
