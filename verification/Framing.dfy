/**
  Whether reading can change the size of a message. A message that holds unparsed payloads
  keeps its size under every sequence of reads exactly when each payload, at any depth,
  re-encodes to as many bytes as it has.
*/
module Framing {
  import opened Options
  import opened Varint
  import opened Wire
  import opened Schema
  import opened Codec
  import opened Laziness

  /** An unparsed payload, and the type it will be parsed as. */
  datatype Pending = Pending(sub: nat, bytes: seq<byte>)

  /** The payload still unparsed in the lazy member at the end of a chain of getters. */
  function PendingAt(E: Env, t: nat, m: Msg, path: seq<nat>): (p: Option<Pending>)
    ensures p.Some? ==> path != [] && p.value.sub < |E|
    decreases path, 1
  {
    if path == [] || path[0] >= Width(E, t, m) then None
    else PendingIn(E, E[t][path[0]].kind, m.cells[path[0]], path)
  }

  function PendingIn(E: Env, k: Kind, c: Cell, path: seq<nat>): (p: Option<Pending>)
    requires path != []
    ensures p.Some? ==> p.value.sub < |E|
    decreases path, 0
  {
    match c
    case Sub(m) => if k.KMessage? then PendingAt(E, k.sub, m, path[1..]) else None
    case Lazy(val) =>
      if !k.KLazy? || k.sub >= |E| || val == Unset then None
      else if |path| > 1 then PendingAt(E, k.sub, Get(E, k.sub, val), path[1..])
      else if val.Raw? then Some(Pending(k.sub, val.bytes)) else None
    case _ => None
  }

  predicate KeepsLength(E: Env, p: Pending)
    requires p.sub < |E|
  {
    Size(E, p.sub, Decode(E, p.sub, p.bytes)) == |p.bytes|
  }

  /** Every payload in the message, at any depth, re-encodes to as many bytes as it has. */
  ghost predicate SameSizes(E: Env, t: nat, m: Msg)
  {
    forall path :: var p := PendingAt(E, t, m, path); p.Some? ==> KeepsLength(E, p.value)
  }

  // ---- sizes of members -----------------------------------------------------------------------------

  lemma {:induction false} EncodeMonotone(a: nat, b: nat)
    requires a <= b
    ensures |Encode(a)| <= |Encode(b)|
    decreases b
  {
    if a >= 128 { EncodeMonotone(a / 128, b / 128); }
  }

  /** The size of a lazy member that holds `n` bytes. */
  function Framed(n: nat): nat
  {
    |Encode(n % TWO32)| + n
  }

  lemma FramedOnce(a: nat, b: nat)
    requires a < INT_MAX_SPAN
    ensures Framed(a) == Framed(b) <==> a == b
  {
    hide Encode;
    EncodeLength(a);
    if b < TWO32 {
      assert a % TWO32 == a && b % TWO32 == b;
      EncodeMonotone(if a < b then a else b, if a < b then b else a);
    }
  }

  lemma SubOnce(E: Env, f: Field, x: Msg, y: Msg)
    requires f.kind.KMessage?
    ensures FieldSize(E, f, Sub(x)) == FieldSize(E, f, Sub(y)) <==> Size(E, f.kind.sub, x) == Size(E, f.kind.sub, y)
    ensures Size(E, f.kind.sub, x) <= FieldSize(E, f, Sub(x))
  {
    hide Encode, Size, Tag;
    var a, b := Size(E, f.kind.sub, x), Size(E, f.kind.sub, y);
    EncodeMonotone(if a < b then a else b, if a < b then b else a);
  }

  /** The bytes a lazy member holds. */
  function ByteCount(E: Env, u: nat, val: LazyVal): nat
  {
    match val
    case Unset => 0
    case Raw(bytes) => |bytes|
    case Live(m) => Size(E, u, m)
  }

  lemma LazyOnce(E: Env, f: Field, x: LazyVal, y: LazyVal)
    requires f.kind.KLazy? && x != Unset && y != Unset
    ensures ByteCount(E, f.kind.sub, x) <= FieldSize(E, f, Lazy(x))
    ensures ByteCount(E, f.kind.sub, x) == ByteCount(E, f.kind.sub, y) ==> FieldSize(E, f, Lazy(x)) == FieldSize(E, f, Lazy(y))
    ensures ByteCount(E, f.kind.sub, x) < INT_MAX_SPAN && FieldSize(E, f, Lazy(x)) == FieldSize(E, f, Lazy(y)) ==>
            ByteCount(E, f.kind.sub, x) == ByteCount(E, f.kind.sub, y)
  {
    hide Encode, Size, Tag;
    var a, b := ByteCount(E, f.kind.sub, x), ByteCount(E, f.kind.sub, y);
    assert LazySize(E, f.kind, x) == Framed(a) && LazySize(E, f.kind, y) == Framed(b);
    EncodeNotEmpty(a % TWO32);
    EncodeNotEmpty(b % TWO32);
    if a < INT_MAX_SPAN { FramedOnce(a, b); }
  }

  /** Changing one member changes the size by what that member changes. */
  lemma {:induction false} SizeOfUpdate(E: Env, t: nat, m: Msg, i: nat, c: Cell)
    requires i < Width(E, t, m)
    ensures var m' := Msg(m.cells[i := c]);
            Size(E, t, m') - FieldSize(E, E[t][i], c) == Size(E, t, m) - FieldSize(E, E[t][i], m.cells[i])
  {
    hide SizeTo, FieldSize;
    SizeToUpdate(E, t, m, i, c, Width(E, t, m));
  }

  lemma {:induction false} SizeToUpdate(E: Env, t: nat, m: Msg, i: nat, c: Cell, n: nat)
    requires i < Width(E, t, m) && n <= Width(E, t, m)
    ensures var m' := Msg(m.cells[i := c]);
            && n <= Width(E, t, m')
            && SizeTo(E, t, m', n) == SizeTo(E, t, m, n) + (if i < n then FieldSize(E, E[t][i], c) - FieldSize(E, E[t][i], m.cells[i]) else 0)
    decreases n
  {
    hide FieldSize;
    if n > 0 {
      SizeToUpdate(E, t, m, i, c, n - 1);
    }
  }

  // ---- reading keeps the size ... -------------------------------------------------------------------

  /** Reading takes payloads away and adds none. */
  lemma {:induction false} PendingAfter(E: Env, t: nat, m: Msg, path: seq<nat>, other: seq<nat>)
    ensures PendingAt(E, t, Touch(E, t, m, path), other) in {None, PendingAt(E, t, m, other)}
    decreases |path|
  {
    hide Decode, Default;
    if path != [] && path[0] < Width(E, t, m) && other != [] && other[0] == path[0] {
      var k, c := E[t][path[0]].kind, m.cells[path[0]];
      if c.Sub? && k.KMessage? {
        PendingAfter(E, k.sub, c.msg, path[1..], other[1..]);
      } else if c.Lazy? && k.KLazy? && k.sub < |E| && c.val != Unset {
        PendingAfter(E, k.sub, Get(E, k.sub, c.val), path[1..], other[1..]);
      }
    }
  }

  lemma SameSizesAfter(E: Env, t: nat, m: Msg, path: seq<nat>)
    requires SameSizes(E, t, m)
    ensures SameSizes(E, t, Touch(E, t, m, path))
  {
    hide PendingAt, Touch, KeepsLength;
    forall other: seq<nat>
      ensures var p := PendingAt(E, t, Touch(E, t, m, path), other); p.Some? ==> KeepsLength(E, p.value)
    {
      PendingAfter(E, t, m, path, other);
    }
  }

  /** What `SameSizes` says inside member `i`. */
  lemma SameSizesInside(E: Env, t: nat, m: Msg, i: nat)
    requires SameSizes(E, t, m) && i < Width(E, t, m)
    ensures var k, c := E[t][i].kind, m.cells[i];
            && (c.Sub? && k.KMessage? ==> SameSizes(E, k.sub, c.msg))
            && (c.Lazy? && k.KLazy? && k.sub < |E| && c.val != Unset ==>
                  && SameSizes(E, k.sub, Get(E, k.sub, c.val))
                  && (c.val.Raw? ==> Size(E, k.sub, Decode(E, k.sub, c.val.bytes)) == |c.val.bytes|))
  {
    hide Size, Decode, Default, PendingAt, KeepsLength;
    var k, c := E[t][i].kind, m.cells[i];
    if c.Sub? && k.KMessage? {
      forall path: seq<nat>
        ensures var p := PendingAt(E, k.sub, c.msg, path); p.Some? ==> KeepsLength(E, p.value)
      {
        PendingInside(E, t, m, i, path);
      }
    } else if c.Lazy? && k.KLazy? && k.sub < |E| && c.val != Unset {
      forall path: seq<nat>
        ensures var p := PendingAt(E, k.sub, Get(E, k.sub, c.val), path); p.Some? ==> KeepsLength(E, p.value)
      {
        PendingInside(E, t, m, i, path);
      }
      if c.val.Raw? { PendingHere(E, t, m, i); }
    }
  }

  lemma PendingInside(E: Env, t: nat, m: Msg, i: nat, path: seq<nat>)
    requires i < Width(E, t, m)
    ensures var k, c := E[t][i].kind, m.cells[i];
            && (c.Sub? && k.KMessage? ==> PendingAt(E, t, m, [i] + path) == PendingAt(E, k.sub, c.msg, path))
            && (c.Lazy? && k.KLazy? && k.sub < |E| && c.val != Unset && path != [] ==>
                  PendingAt(E, t, m, [i] + path) == PendingAt(E, k.sub, Get(E, k.sub, c.val), path))
  {
    hide Decode, Default;
    assert ([i] + path)[1..] == path;
  }

  lemma PendingHere(E: Env, t: nat, m: Msg, i: nat)
    requires i < Width(E, t, m) && E[t][i].kind.KLazy? && E[t][i].kind.sub < |E|
    requires m.cells[i].Lazy? && m.cells[i].val.Raw? && SameSizes(E, t, m)
    ensures var u, bytes := E[t][i].kind.sub, m.cells[i].val.bytes; Size(E, u, Decode(E, u, bytes)) == |bytes|
  {
    hide Size, Decode;
    var p := Pending(E[t][i].kind.sub, m.cells[i].val.bytes);
    assert PendingAt(E, t, m, [i]) == Some(p);
    assert KeepsLength(E, p);
  }

  lemma {:induction false} TouchKeepsSize(E: Env, t: nat, m: Msg, path: seq<nat>)
    requires SameSizes(E, t, m)
    ensures Size(E, t, Touch(E, t, m, path)) == Size(E, t, m)
    decreases |path|
  {
    hide Size, Decode, Default, SameSizes, FieldSize;
    if path != [] && path[0] < Width(E, t, m) {
      var i := path[0];
      var k, c := E[t][i].kind, m.cells[i];
      SameSizesInside(E, t, m, i);
      SizeOfUpdate(E, t, m, i, TouchCell(E, k, c, path));
      if c.Sub? && k.KMessage? {
        TouchKeepsSize(E, k.sub, c.msg, path[1..]);
        SubOnce(E, E[t][i], c.msg, Touch(E, k.sub, c.msg, path[1..]));
      } else if c.Lazy? && k.KLazy? && k.sub < |E| && c.val != Unset {
        var inner := Get(E, k.sub, c.val);
        TouchKeepsSize(E, k.sub, inner, path[1..]);
        LazyOnce(E, E[t][i], c.val, Live(Touch(E, k.sub, inner, path[1..])));
      }
    }
  }

  lemma {:induction false} TouchAllKeepsSize(E: Env, t: nat, m: Msg, paths: seq<seq<nat>>)
    requires SameSizes(E, t, m)
    ensures Size(E, t, TouchAll(E, t, m, paths)) == Size(E, t, m) && SameSizes(E, t, TouchAll(E, t, m, paths))
    decreases |paths|
  {
    hide Size, Touch, SameSizes;
    if paths != [] {
      var before := paths[..|paths| - 1];
      TouchAllKeepsSize(E, t, m, before);
      TouchKeepsSize(E, t, TouchAll(E, t, m, before), paths[|paths| - 1]);
      SameSizesAfter(E, t, TouchAll(E, t, m, before), paths[|paths| - 1]);
    }
  }

  // ---- ... or one chain of getters changes it -----------------------------------------------------------

  /** A payload that changes its length is found by the chain of getters up to the first such payload. */
  lemma {:induction false} SizeChanges(E: Env, t: nat, m: Msg, path: seq<nat>) returns (q: seq<nat>)
    requires Size(E, t, m) < INT_MAX_SPAN
    requires var p := PendingAt(E, t, m, path); p.Some? && !KeepsLength(E, p.value)
    ensures Size(E, t, Touch(E, t, m, q)) != Size(E, t, m)
    decreases |path|
  {
    hide Size, Decode, Default, FieldSize;
    var i, rest := path[0], path[1..];
    var k, c := E[t][i].kind, m.cells[i];
    FieldWithin(E, t, m, i, Width(E, t, m));
    if c.Sub? {
      SubOnce(E, E[t][i], c.msg, c.msg);
      var q' := SizeChanges(E, k.sub, c.msg, rest);
      q := [i] + q';
      assert q[1..] == q';
      SubOnce(E, E[t][i], c.msg, Touch(E, k.sub, c.msg, q'));
    } else {
      var inner := Get(E, k.sub, c.val);
      LazyOnce(E, E[t][i], c.val, c.val);
      var q' := [];
      if !(c.val.Raw? && Size(E, k.sub, inner) != |c.val.bytes|) {
        q' := SizeChanges(E, k.sub, inner, rest);
      }
      q := [i] + q';
      assert q[1..] == q';
      LazyOnce(E, E[t][i], c.val, Live(Touch(E, k.sub, inner, q')));
    }
    SizeOfUpdate(E, t, m, i, TouchCell(E, k, c, q));
  }

  /** Reading never changes the size exactly when every payload re-encodes to as many bytes as it has. */
  lemma SizeStableExactly(E: Env, t: nat, m: Msg)
    requires Size(E, t, m) < INT_MAX_SPAN
    ensures (forall paths :: Size(E, t, TouchAll(E, t, m, paths)) == Size(E, t, m)) <==> SameSizes(E, t, m)
  {
    hide Size, Touch, PendingAt, KeepsLength;
    if SameSizes(E, t, m) {
      forall paths: seq<seq<nat>>
        ensures Size(E, t, TouchAll(E, t, m, paths)) == Size(E, t, m)
      {
        TouchAllKeepsSize(E, t, m, paths);
      }
    } else {
      var paths := SizeCanChange(E, t, m);
    }
  }

  lemma SizeCanChange(E: Env, t: nat, m: Msg) returns (paths: seq<seq<nat>>)
    requires Size(E, t, m) < INT_MAX_SPAN && !SameSizes(E, t, m)
    ensures Size(E, t, TouchAll(E, t, m, paths)) != Size(E, t, m)
  {
    hide Size, Touch, PendingAt, KeepsLength;
    var path :| var p := PendingAt(E, t, m, path); p.Some? && !KeepsLength(E, p.value);
    var q := SizeChanges(E, t, m, path);
    paths := [q];
    assert paths[..0] == [];
    assert TouchAll(E, t, m, []) == m;
  }
}
