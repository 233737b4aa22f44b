/**
  A walk over a message (`ByteSizeLong`, `_InternalSerialize`) while other threads read through
  it. Members are constant under const methods except lazy ones, and the walk looks at each of
  those under that member's own mutex. So a walk is replayed over the list of snapshots of the
  message taken at those moments: at a member still unparsed its bytes are used there and then;
  a parsed one stays parsed, and the walk goes on inside it.
*/
module Walks {
  import opened Varint
  import opened Schema
  import opened Codec
  import opened Framing
  import opened Reads

  // ---- the walks --------------------------------------------------------------------------------------

  /** A size computed, what the walk saw, and how many snapshots it used; one more than there are means it is not done. */
  datatype Sizing<T> = Sizing(size: nat, saw: T, used: nat)

  /** Bytes written, and whether each prefix among them is the length of the body after it. */
  datatype Writing<T> = Writing(out: seq<byte>, saw: T, used: nat, right: bool)

  /** The snapshots from `at` on, counting the missing one. */
  function Room(S: seq<Msg>, at: nat): nat
  {
    if at > |S| then 0 else |S| + 1 - at
  }

  /** Member `i` as the walk finds it at snapshot `at`. */
  function LookAt(S: seq<Msg>, at: nat, i: nat): LazyVal
    requires at < |S|
  {
    if i < |S[at].cells| && S[at].cells[i].Lazy? then S[at].cells[i].val else Unset
  }

  /** The snapshots of the message inside member `i`; where it is not yet parsed, `x`. */
  function Below(S: seq<Msg>, i: nat, x: Msg): (r: seq<Msg>)
    ensures |r| == |S|
  {
    seq(|S|, k requires 0 <= k < |S| => BelowOne(S[k], i, x))
  }

  function BelowOne(m: Msg, i: nat, x: Msg): Msg
  {
    if i >= |m.cells| then x
    else
      match m.cells[i]
      case Sub(y) => y
      case Lazy(Live(y)) => y
      case _ => x
  }

  /** Emitted `ByteSizeLong`. */
  function SizeWalk(E: Env, t: nat, m: Msg, S: seq<Msg>, at: nat): (r: Sizing<Msg>)
    requires at <= |S| + 1
    ensures at <= r.used <= |S| + 1
    decreases Room(S, at), t, 3
  {
    var r := SizeWalkTo(E, t, m, S, at, Width(E, t, m));
    Sizing(r.size, Msg(r.saw + m.cells[Width(E, t, m)..]), r.used)
  }

  function SizeWalkTo(E: Env, t: nat, m: Msg, S: seq<Msg>, at: nat, n: nat): (r: Sizing<seq<Cell>>)
    requires at <= |S| + 1 && n <= Width(E, t, m)
    ensures at <= r.used <= |S| + 1 && |r.saw| == n
    decreases Room(S, at), t, 2, n
  {
    if n == 0 then Sizing(0, [], at)
    else
      var a := SizeWalkTo(E, t, m, S, at, n - 1);
      var b := FieldSizeWalk(E, t, n - 1, m.cells[n - 1], S, a.used);
      Sizing(a.size + b.size, a.saw + [b.saw], b.used)
  }

  function FieldSizeWalk(E: Env, t: nat, i: nat, c: Cell, S: seq<Msg>, at: nat): (r: Sizing<Cell>)
    requires t < |E| && i < |E[t]| && at <= |S| + 1
    ensures at <= r.used <= |S| + 1
    decreases Room(S, at), t, 1
  {
    var f := E[t][i];
    match c
    case Sub(x) =>
      if !f.kind.KMessage? then Sizing(0, c, at)
      else
        assert WfFields(E[t], t, |E|);
        var r := SizeWalk(E, f.kind.sub, x, Below(S, i, x), at);
        Sizing(if r.size > 0 then |TagBytes(f)| + |Encode(r.size)| + r.size else 0, Sub(r.saw), r.used)
    case Lazy(_) =>
      var r := LazySizeWalk(E, f.kind, i, S, at);
      Sizing(if r.size > 0 then |TagBytes(f)| + r.size else 0, Lazy(r.saw), r.used)
    case _ => Sizing(FieldSize(E, f, c), c, at)
  }

  /** `LazyField::ByteSizeLong`. */
  function LazySizeWalk(E: Env, k: Kind, i: nat, S: seq<Msg>, at: nat): (r: Sizing<LazyVal>)
    requires at <= |S| + 1
    ensures at <= r.used <= |S| + 1
    decreases Room(S, at), 0, 0
  {
    if at >= |S| then Sizing(0, Unset, |S| + 1)
    else
      match LookAt(S, at, i)
      case Unset => Sizing(0, Unset, at + 1)
      case Raw(bytes) => Sizing(Framed(|bytes|), Raw(bytes), at + 1)
      case Live(x) =>
        if !k.KLazy? then Sizing(0, Live(x), at + 1)
        else
          var r := SizeWalk(E, k.sub, x, Below(S, i, x), at + 1);
          Sizing(Framed(r.size), Live(r.saw), r.used)
  }

  /** Emitted `_InternalSerialize`. */
  function WriteWalk(E: Env, t: nat, m: Msg, S: seq<Msg>, at: nat): (r: Writing<Msg>)
    requires at <= |S| + 1
    ensures at <= r.used <= |S| + 1
    decreases Room(S, at), t, 3
  {
    var r := WriteWalkTo(E, t, m, S, at, Width(E, t, m));
    Writing(r.out, Msg(r.saw + m.cells[Width(E, t, m)..]), r.used, r.right)
  }

  function WriteWalkTo(E: Env, t: nat, m: Msg, S: seq<Msg>, at: nat, n: nat): (r: Writing<seq<Cell>>)
    requires at <= |S| + 1 && n <= Width(E, t, m)
    ensures at <= r.used <= |S| + 1 && |r.saw| == n
    decreases Room(S, at), t, 2, n
  {
    if n == 0 then Writing([], [], at, true)
    else
      var a := WriteWalkTo(E, t, m, S, at, n - 1);
      var b := FieldWriteWalk(E, t, n - 1, m.cells[n - 1], S, a.used);
      Writing(a.out + b.out, a.saw + [b.saw], b.used, a.right && b.right)
  }

  /** The member's size is asked for first; if it is not 0, the tag and the member follow. */
  function FieldWriteWalk(E: Env, t: nat, i: nat, c: Cell, S: seq<Msg>, at: nat): (r: Writing<Cell>)
    requires t < |E| && i < |E[t]| && at <= |S| + 1
    ensures at <= r.used <= |S| + 1
    decreases Room(S, at), t, 1
  {
    var f := E[t][i];
    match c
    case Sub(x) =>
      if !f.kind.KMessage? then Writing([], c, at, true)
      else
        assert WfFields(E[t], t, |E|);
        var size := SizeWalk(E, f.kind.sub, x, Below(S, i, x), at);
        if size.size == 0 then Writing([], Sub(size.saw), size.used, true)
        else
          var b := WriteWalk(E, f.kind.sub, x, Below(S, i, x), size.used);
          Writing(TagBytes(f) + (Encode(size.size) + b.out), Sub(b.saw), b.used, b.right && size.size == |b.out|)
    case Lazy(_) =>
      var size := LazySizeWalk(E, f.kind, i, S, at);
      if size.size == 0 then Writing([], Lazy(size.saw), size.used, true)
      else
        var b := LazyWriteWalk(E, f.kind, i, S, size.used);
        Writing(TagBytes(f) + b.out, Lazy(b.saw), b.used, b.right)
    case _ => Writing(EncField(E, f, c), c, at, true)
  }

  /** `LazyField::Serialize`. */
  function LazyWriteWalk(E: Env, k: Kind, i: nat, S: seq<Msg>, at: nat): (r: Writing<LazyVal>)
    requires at <= |S| + 1
    ensures at <= r.used <= |S| + 1
    decreases Room(S, at), 0, 0
  {
    if at >= |S| then Writing([], Unset, |S| + 1, true)
    else
      match LookAt(S, at, i)
      case Unset => Writing([], Unset, at + 1, true)
      case Raw(bytes) => Writing(Encode(|bytes| % TWO32) + bytes, Raw(bytes), at + 1, true)
      case Live(x) =>
        if !k.KLazy? then Writing([], Live(x), at + 1, true)
        else
          var size := SizeWalk(E, k.sub, x, Below(S, i, x), at + 1);
          var b := WriteWalk(E, k.sub, x, Below(S, i, x), size.used);
          Writing(Encode(size.size % TWO32) + b.out, Live(b.saw), b.used, b.right && size.size == |b.out|)
  }

  // ---- what a finished walk means -----------------------------------------------------------------------

  /** The snapshots from `at` on are of `m` read through, each after the ones before it. */
  ghost predicate Moments(E: Env, t: nat, m: Msg, S: seq<Msg>, at: nat)
  {
    && WfMsg(E, t, m)
    && (forall k :: at <= k < |S| ==> ReadOn(E, t, m, S[k]))
    && (forall j, k :: at <= j <= k < |S| ==> ReadOn(E, t, S[j], S[k]))
  }

  lemma MomentsLater(E: Env, t: nat, m: Msg, S: seq<Msg>, at: nat, later: nat)
    requires Moments(E, t, m, S, at) && at <= later
    ensures Moments(E, t, m, S, later)
  {
    hide WfMsg, ReadOn;
  }

  /** What a read message looks like at member `i`. */
  lemma ReadMember(E: Env, t: nat, m: Msg, m': Msg, i: nat)
    requires WfMsg(E, t, m) && ReadOn(E, t, m, m') && i < |m.cells|
    ensures t < |E| && |m.cells| == |m'.cells| == |E[t]| == Width(E, t, m) && WfCell(E, E[t][i].kind, m.cells[i])
    ensures ReadCell(E, E[t][i].kind, m.cells[i], m'.cells[i])
    ensures WfMsg(E, t, m') && WfCell(E, E[t][i].kind, m'.cells[i])
  {
    ReadOnWf(E, t, m, m');
    hide ReadCell;
  }

  lemma MomentsInSub(E: Env, t: nat, m: Msg, S: seq<Msg>, at: nat, i: nat)
    requires Moments(E, t, m, S, at) && t < |E| && i < |m.cells| == |E[t]| && E[t][i].kind.KMessage? && m.cells[i].Sub?
    ensures Moments(E, E[t][i].kind.sub, m.cells[i].msg, Below(S, i, m.cells[i].msg), at)
  {
    var u, x := E[t][i].kind.sub, m.cells[i].msg;
    var B := Below(S, i, x);
    hide WfMsg, ReadOn;
    forall k | at <= k < |S|
      ensures ReadOn(E, u, x, B[k])
    {
      ReadMember(E, t, m, S[k], i);
    }
    forall j, k | at <= j <= k < |S|
      ensures ReadOn(E, u, B[j], B[k])
    {
      ReadMember(E, t, m, S[j], i);
      ReadMember(E, t, S[j], S[k], i);
    }
    assert WfMsg(E, u, x) by { MemberIsWf(E, t, m, i); }
  }

  lemma MemberIsWf(E: Env, t: nat, m: Msg, i: nat)
    requires WfMsg(E, t, m) && i < |m.cells|
    ensures t < |E| && i < |E[t]| && WfCell(E, E[t][i].kind, m.cells[i])
  {
  }

  /** A member seen parsed stays parsed. */
  lemma MomentsInLazy(E: Env, t: nat, m: Msg, S: seq<Msg>, at: nat, i: nat, x: Msg)
    requires Moments(E, t, m, S, at) && t < |E| && i < |m.cells| == |E[t]| && E[t][i].kind.KLazy? && at < |S|
    requires LookAt(S, at, i) == Live(x)
    ensures Moments(E, E[t][i].kind.sub, x, Below(S, i, x), at + 1)
  {
    var u := E[t][i].kind.sub;
    var B := Below(S, i, x);
    hide WfMsg, ReadOn, Decode, Default;
    ReadMember(E, t, m, S[at], i);
    forall k | at < k < |S|
      ensures ReadOn(E, u, x, B[k]) && S[k].cells[i].Lazy? && S[k].cells[i].val.Live?
    {
      ReadMember(E, t, S[at], S[k], i);
      ReadOnRefl(E, u, x);
    }
    forall j, k | at < j <= k < |S|
      ensures ReadOn(E, u, B[j], B[k])
    {
      ReadMember(E, t, S[at], S[j], i);
      ReadMember(E, t, S[j], S[k], i);
      ReadOnRefl(E, u, B[j]);
    }
  }

  /** A finished size walk computes the size of what it saw, and saw the message with some payloads parsed. */
  lemma {:induction false} SizeMeans(E: Env, t: nat, m: Msg, S: seq<Msg>, at: nat)
    requires at <= |S| + 1 && Moments(E, t, m, S, at) && SizeWalk(E, t, m, S, at).used <= |S|
    ensures var r := SizeWalk(E, t, m, S, at); ReadOn(E, t, m, r.saw) && r.size == Size(E, t, r.saw)
    decreases Room(S, at), t, 3
  {
    hide SizeWalkTo, Moments, ReadCell, WfCell, FieldSize;
    assert WfMsg(E, t, m) by { MomentsWf(E, t, m, S, at); }
    SizeMeansTo(E, t, m, S, at, |m.cells|);
    assert m.cells[|m.cells|..] == [];
  }

  lemma MomentsWf(E: Env, t: nat, m: Msg, S: seq<Msg>, at: nat)
    requires Moments(E, t, m, S, at)
    ensures WfMsg(E, t, m)
  {
  }

  /** The first `n` members as seen, the others as they were. */
  function Mixed(saw: seq<Cell>, m: Msg): Msg
    requires |saw| <= |m.cells|
  {
    Msg(saw + m.cells[|saw|..])
  }

  lemma {:induction false} SizeMeansTo(E: Env, t: nat, m: Msg, S: seq<Msg>, at: nat, n: nat)
    requires at <= |S| + 1 && Moments(E, t, m, S, at) && n <= |m.cells| == Width(E, t, m)
    requires SizeWalkTo(E, t, m, S, at, n).used <= |S|
    ensures var r := SizeWalkTo(E, t, m, S, at, n);
            && (forall i :: 0 <= i < n ==> ReadCell(E, E[t][i].kind, m.cells[i], r.saw[i]))
            && r.size == SizeTo(E, t, Mixed(r.saw, m), n)
    decreases Room(S, at), t, 2, n
  {
    hide FieldSizeWalk, Moments, ReadCell, FieldSize, WfMsg;
    if n > 0 {
      var a := SizeWalkTo(E, t, m, S, at, n - 1);
      SizeMeansTo(E, t, m, S, at, n - 1);
      MomentsLater(E, t, m, S, at, a.used);
      FieldSizeMeans(E, t, m, n - 1, S, a.used);
      var r := SizeWalkTo(E, t, m, S, at, n);
      SameFieldSizes(E, t, Mixed(a.saw, m), Mixed(r.saw, m), n - 1);
    }
  }

  lemma {:induction false} FieldSizeMeans(E: Env, t: nat, m: Msg, i: nat, S: seq<Msg>, at: nat)
    requires at <= |S| + 1 && Moments(E, t, m, S, at) && i < |m.cells| == Width(E, t, m)
    requires FieldSizeWalk(E, t, i, m.cells[i], S, at).used <= |S|
    ensures var r := FieldSizeWalk(E, t, i, m.cells[i], S, at);
            ReadCell(E, E[t][i].kind, m.cells[i], r.saw) && r.size == FieldSize(E, E[t][i], r.saw)
    decreases Room(S, at), t, 1
  {
    hide SizeWalk, LazySizeWalk, Moments, ReadOn, Below, Tag, Encode, Size, LazySize, WfMsg;
    MomentsWf(E, t, m, S, at);
    MemberIsWf(E, t, m, i);
    assert WfFields(E[t], t, |E|);
    var k, c := E[t][i].kind, m.cells[i];
    if c.Sub? {
      MomentsInSub(E, t, m, S, at, i);
      SizeMeans(E, k.sub, c.msg, Below(S, i, c.msg), at);
    } else if c.Lazy? {
      LazySizeMeans(E, t, m, i, S, at);
    }
  }

  lemma {:induction false} LazySizeMeans(E: Env, t: nat, m: Msg, i: nat, S: seq<Msg>, at: nat)
    requires at <= |S| + 1 && Moments(E, t, m, S, at) && i < |m.cells| == Width(E, t, m) && E[t][i].kind.KLazy?
    requires LazySizeWalk(E, E[t][i].kind, i, S, at).used <= |S|
    ensures var r := LazySizeWalk(E, E[t][i].kind, i, S, at);
            ReadCell(E, E[t][i].kind, m.cells[i], Lazy(r.saw)) && r.size == LazySize(E, E[t][i].kind, r.saw)
    decreases Room(S, at), 0, 0
  {
    hide SizeWalk, Moments, ReadOn, Below, Encode, Size, WfMsg, Decode, Default;
    LookedAt(E, t, m, i, S, at);
    var k := E[t][i].kind;
    var val := LookAt(S, at, i);
    if val.Live? {
      MomentsInLazy(E, t, m, S, at, i, val.msg);
      SizeMeans(E, k.sub, val.msg, Below(S, i, val.msg), at + 1);
      var saw := SizeWalk(E, k.sub, val.msg, Below(S, i, val.msg), at + 1).saw;
      LiveReads(E, k, m.cells[i], val.msg, saw);
    }
  }

  /** What the walk finds at a lazy member is that member, read through. */
  lemma LookedAt(E: Env, t: nat, m: Msg, i: nat, S: seq<Msg>, at: nat)
    requires Moments(E, t, m, S, at) && i < |m.cells| == Width(E, t, m) && E[t][i].kind.KLazy? && at < |S|
    ensures ReadCell(E, E[t][i].kind, m.cells[i], Lazy(LookAt(S, at, i))) && |m.cells| == |E[t]|
  {
    hide WfMsg, ReadOn, ReadCell;
    ReadMember(E, t, m, S[at], i);
  }

  lemma LiveReads(E: Env, k: Kind, c: Cell, x: Msg, y: Msg)
    requires ReadCell(E, k, c, Lazy(Live(x))) && k.KLazy? && k.sub < |E| && ReadOn(E, k.sub, x, y)
    ensures ReadCell(E, k, c, Lazy(Live(y)))
  {
    hide ReadOn;
    ReadCellTrans(E, k, c, Lazy(Live(x)), Lazy(Live(y)));
  }

  /** A finished write walk saw the message with some payloads parsed, and if its prefixes are right wrote just that. */
  lemma {:induction false} WriteMeans(E: Env, t: nat, m: Msg, S: seq<Msg>, at: nat)
    requires at <= |S| + 1 && Moments(E, t, m, S, at) && WriteWalk(E, t, m, S, at).used <= |S|
    ensures var r := WriteWalk(E, t, m, S, at); ReadOn(E, t, m, r.saw) && (r.right ==> r.out == Enc(E, t, r.saw))
    decreases Room(S, at), t, 3
  {
    hide WriteWalkTo, Moments, ReadCell, WfCell, EncField;
    assert WfMsg(E, t, m) by { MomentsWf(E, t, m, S, at); }
    WriteMeansTo(E, t, m, S, at, |m.cells|);
    assert m.cells[|m.cells|..] == [];
  }

  lemma {:induction false} WriteMeansTo(E: Env, t: nat, m: Msg, S: seq<Msg>, at: nat, n: nat)
    requires at <= |S| + 1 && Moments(E, t, m, S, at) && n <= |m.cells| == Width(E, t, m)
    requires WriteWalkTo(E, t, m, S, at, n).used <= |S|
    ensures var r := WriteWalkTo(E, t, m, S, at, n);
            && (forall i :: 0 <= i < n ==> ReadCell(E, E[t][i].kind, m.cells[i], r.saw[i]))
            && (r.right ==> r.out == EncTo(E, t, Mixed(r.saw, m), n))
    decreases Room(S, at), t, 2, n
  {
    hide FieldWriteWalk, Moments, ReadCell, EncField, WfMsg;
    if n > 0 {
      var a := WriteWalkTo(E, t, m, S, at, n - 1);
      WriteMeansTo(E, t, m, S, at, n - 1);
      MomentsLater(E, t, m, S, at, a.used);
      FieldWriteMeans(E, t, m, n - 1, S, a.used);
      var r := WriteWalkTo(E, t, m, S, at, n);
      SameEncTo(E, t, Mixed(a.saw, m), Mixed(r.saw, m), n - 1);
    }
  }

  lemma {:induction false} SameEncTo(E: Env, t: nat, m: Msg, m': Msg, n: nat)
    requires |m.cells| == |m'.cells| && n <= Width(E, t, m) && m.cells[..n] == m'.cells[..n]
    ensures EncTo(E, t, m', n) == EncTo(E, t, m, n)
    decreases n
  {
    hide EncField;
    if n > 0 {
      assert m.cells[..n - 1] == m.cells[..n][..n - 1] == m'.cells[..n - 1];
      assert m.cells[n - 1] == m.cells[..n][n - 1] == m'.cells[n - 1];
      SameEncTo(E, t, m, m', n - 1);
    }
  }

  lemma {:induction false} FieldWriteMeans(E: Env, t: nat, m: Msg, i: nat, S: seq<Msg>, at: nat)
    requires at <= |S| + 1 && Moments(E, t, m, S, at) && i < |m.cells| == Width(E, t, m)
    requires FieldWriteWalk(E, t, i, m.cells[i], S, at).used <= |S|
    ensures var r := FieldWriteWalk(E, t, i, m.cells[i], S, at);
            ReadCell(E, E[t][i].kind, m.cells[i], r.saw) && (r.right ==> r.out == EncField(E, E[t][i], r.saw))
    decreases Room(S, at), t, 1
  {
    hide SizeWalk, WriteWalk, LazySizeWalk, LazyWriteWalk, Moments, ReadOn, Below, Tag, Encode, Size, LazySize, WfMsg, Enc, EncLazy;
    MomentsWf(E, t, m, S, at);
    MemberIsWf(E, t, m, i);
    assert WfFields(E[t], t, |E|);
    var k, c := E[t][i].kind, m.cells[i];
    if c.Sub? {
      var B := Below(S, i, c.msg);
      MomentsInSub(E, t, m, S, at, i);
      var size := SizeWalk(E, k.sub, c.msg, B, at);
      SizeMeans(E, k.sub, c.msg, B, at);
      if size.size > 0 {
        MomentsLater(E, k.sub, c.msg, B, at, size.used);
        WriteMeans(E, k.sub, c.msg, B, size.used);
        SizeIsLength(E, k.sub, WriteWalk(E, k.sub, c.msg, B, size.used).saw);
      }
    } else if c.Lazy? {
      var size := LazySizeWalk(E, k, i, S, at);
      LazySizeMeans(E, t, m, i, S, at);
      if size.size > 0 {
        MomentsLater(E, t, m, S, at, size.used);
        LazyWriteMeans(E, t, m, i, S, size.used);
        StaysSet(E, k, c, size.saw, LazyWriteWalk(E, k, i, S, size.used).saw);
      }
    }
  }

  /** A member set at one moment is set at every other. */
  lemma StaysSet(E: Env, k: Kind, c: Cell, x: LazyVal, y: LazyVal)
    requires ReadCell(E, k, c, Lazy(x)) && ReadCell(E, k, c, Lazy(y)) && k.KLazy?
    ensures LazySize(E, k, x) > 0 ==> LazySize(E, k, y) > 0
  {
    hide ReadOn, Size, Encode;
    match y
    case Unset =>
    case Raw(bytes) => EncodeNotEmpty(|bytes| % TWO32);
    case Live(m) => EncodeNotEmpty(Size(E, k.sub, m) % TWO32);
  }

  lemma {:induction false} LazyWriteMeans(E: Env, t: nat, m: Msg, i: nat, S: seq<Msg>, at: nat)
    requires at <= |S| + 1 && Moments(E, t, m, S, at) && i < |m.cells| == Width(E, t, m) && E[t][i].kind.KLazy?
    requires LazyWriteWalk(E, E[t][i].kind, i, S, at).used <= |S|
    ensures var r := LazyWriteWalk(E, E[t][i].kind, i, S, at);
            ReadCell(E, E[t][i].kind, m.cells[i], Lazy(r.saw)) && (r.right ==> r.out == EncLazy(E, E[t][i].kind, r.saw))
    decreases Room(S, at), 0, 0
  {
    hide SizeWalk, WriteWalk, Moments, ReadOn, Below, Encode, Size, WfMsg, Decode, Default, Enc;
    LookedAt(E, t, m, i, S, at);
    var k := E[t][i].kind;
    var val := LookAt(S, at, i);
    if val.Live? {
      var B := Below(S, i, val.msg);
      MomentsInLazy(E, t, m, S, at, i, val.msg);
      var size := SizeWalk(E, k.sub, val.msg, B, at + 1);
      MomentsLater(E, k.sub, val.msg, B, at + 1, size.used);
      WriteMeans(E, k.sub, val.msg, B, size.used);
      var saw := WriteWalk(E, k.sub, val.msg, B, size.used).saw;
      SizeIsLength(E, k.sub, saw);
      LiveReads(E, k, m.cells[i], val.msg, saw);
    }
  }

  /** When payloads re-encode to as many bytes as they have, every prefix written is right, whatever is read meanwhile. */
  lemma {:induction false} StableRight(E: Env, t: nat, m: Msg, S: seq<Msg>, at: nat)
    requires at <= |S| + 1 && Moments(E, t, m, S, at) && SameSizes(E, t, m) && WriteWalk(E, t, m, S, at).used <= |S|
    ensures WriteWalk(E, t, m, S, at).right
    decreases Room(S, at), t, 3
  {
    hide WriteWalkTo, Moments, SameSizes, WfMsg;
    StableRightTo(E, t, m, S, at, Width(E, t, m));
  }

  lemma {:induction false} StableRightTo(E: Env, t: nat, m: Msg, S: seq<Msg>, at: nat, n: nat)
    requires at <= |S| + 1 && Moments(E, t, m, S, at) && SameSizes(E, t, m) && n <= Width(E, t, m)
    requires WriteWalkTo(E, t, m, S, at, n).used <= |S|
    ensures WriteWalkTo(E, t, m, S, at, n).right
    decreases Room(S, at), t, 2, n
  {
    hide FieldWriteWalk, Moments, SameSizes, WfMsg;
    if n > 0 {
      var a := WriteWalkTo(E, t, m, S, at, n - 1);
      StableRightTo(E, t, m, S, at, n - 1);
      MomentsLater(E, t, m, S, at, a.used);
      FieldStableRight(E, t, m, n - 1, S, a.used);
    }
  }

  lemma {:induction false} FieldStableRight(E: Env, t: nat, m: Msg, i: nat, S: seq<Msg>, at: nat)
    requires at <= |S| + 1 && Moments(E, t, m, S, at) && SameSizes(E, t, m) && i < Width(E, t, m)
    requires FieldWriteWalk(E, t, i, m.cells[i], S, at).used <= |S|
    ensures FieldWriteWalk(E, t, i, m.cells[i], S, at).right
    decreases Room(S, at), t, 1
  {
    hide SizeWalk, WriteWalk, LazySizeWalk, LazyWriteWalk, Moments, ReadOn, Below, Tag, Encode, Size, WfMsg, Enc, EncLazy, SameSizes;
    MomentsWf(E, t, m, S, at);
    MemberIsWf(E, t, m, i);
    assert WfFields(E[t], t, |E|);
    var k, c := E[t][i].kind, m.cells[i];
    if c.Sub? {
      var B := Below(S, i, c.msg);
      MomentsInSub(E, t, m, S, at, i);
      SameSizesInside(E, t, m, i);
      if SizeWalk(E, k.sub, c.msg, B, at).size > 0 {
        BodyRight(E, k.sub, c.msg, B, at);
      }
    } else if c.Lazy? {
      var size := LazySizeWalk(E, k, i, S, at);
      if size.size > 0 {
        MomentsLater(E, t, m, S, at, size.used);
        LazyStableRight(E, t, m, i, S, size.used);
      }
    }
  }

  /** The size walk and the write walk after it. */
  lemma {:induction false} BodyRight(E: Env, u: nat, x: Msg, B: seq<Msg>, at: nat)
    requires at <= |B| + 1 && Moments(E, u, x, B, at) && SameSizes(E, u, x)
    requires WriteWalk(E, u, x, B, SizeWalk(E, u, x, B, at).used).used <= |B|
    ensures var size := SizeWalk(E, u, x, B, at);
            var b := WriteWalk(E, u, x, B, size.used);
            b.right && size.size == |b.out|
    decreases Room(B, at), u, 4
  {
    hide SizeWalk, WriteWalk, Moments, ReadOn, Size, Enc, SameSizes;
    var size := SizeWalk(E, u, x, B, at);
    MomentsLater(E, u, x, B, at, size.used);
    SizeMeans(E, u, x, B, at);
    ReadOnSize(E, u, x, size.saw);
    StableRight(E, u, x, B, size.used);
    WriteMeans(E, u, x, B, size.used);
    var b := WriteWalk(E, u, x, B, size.used);
    ReadOnSize(E, u, x, b.saw);
    SizeIsLength(E, u, b.saw);
  }

  lemma {:induction false} LazyStableRight(E: Env, t: nat, m: Msg, i: nat, S: seq<Msg>, at: nat)
    requires at <= |S| + 1 && Moments(E, t, m, S, at) && SameSizes(E, t, m) && i < Width(E, t, m) && E[t][i].kind.KLazy?
    requires LazyWriteWalk(E, E[t][i].kind, i, S, at).used <= |S|
    ensures LazyWriteWalk(E, E[t][i].kind, i, S, at).right
    decreases Room(S, at), 0, 0
  {
    hide SizeWalk, WriteWalk, ReadOn, Below, Encode, Size, WfMsg, SameSizes;
    MomentsWf(E, t, m, S, at);
    assert ReadOn(E, t, m, S[at]);
    var k, val := E[t][i].kind, LookAt(S, at, i);
    if val.Live? {
      MomentsInLazyOf(E, t, m, S, at, i, val.msg);
      ReadOnSameSizes(E, t, m, S[at]);
      SameSizesInside(E, t, S[at], i);
      hide Moments;
      BodyRight(E, k.sub, val.msg, Below(S, i, val.msg), at + 1);
    }
  }

  lemma MomentsInLazyOf(E: Env, t: nat, m: Msg, S: seq<Msg>, at: nat, i: nat, x: Msg)
    requires Moments(E, t, m, S, at) && i < Width(E, t, m) && E[t][i].kind.KLazy? && at < |S|
    requires LookAt(S, at, i) == Live(x)
    ensures Moments(E, E[t][i].kind.sub, x, Below(S, i, x), at + 1)
    ensures E[t][i].kind.sub < |E| && i < Width(E, t, S[at])
  {
    MemberIsWf(E, t, m, i);
    MomentsWf(E, t, m, S, at);
    assert |m.cells| == |E[t]|;
    assert WfFields(E[t], t, |E|);
    MomentsInLazy(E, t, m, S, at, i, x);
  }

  // ---- a walk uses only the snapshots it needs ------------------------------------------------------------

  lemma BelowPrefix(S: seq<Msg>, j: nat, i: nat, x: Msg)
    requires j <= |S|
    ensures Below(S[..j], i, x) == Below(S, i, x)[..j]
  {
  }

  lemma {:induction false} SizeExtends(E: Env, t: nat, m: Msg, S: seq<Msg>, j: nat, at: nat)
    requires at <= j + 1 <= |S| + 1 && SizeWalk(E, t, m, S[..j], at).used <= j
    ensures SizeWalk(E, t, m, S, at) == SizeWalk(E, t, m, S[..j], at)
    decreases Room(S[..j], at), t, 3
  {
    hide SizeWalkTo;
    SizeExtendsTo(E, t, m, S, j, at, Width(E, t, m));
  }

  lemma {:induction false} SizeExtendsTo(E: Env, t: nat, m: Msg, S: seq<Msg>, j: nat, at: nat, n: nat)
    requires at <= j + 1 <= |S| + 1 && n <= Width(E, t, m) && SizeWalkTo(E, t, m, S[..j], at, n).used <= j
    ensures SizeWalkTo(E, t, m, S, at, n) == SizeWalkTo(E, t, m, S[..j], at, n)
    decreases Room(S[..j], at), t, 2, n
  {
    hide FieldSizeWalk;
    if n > 0 {
      SizeExtendsTo(E, t, m, S, j, at, n - 1);
      FieldSizeExtends(E, t, n - 1, m.cells[n - 1], S, j, SizeWalkTo(E, t, m, S[..j], at, n - 1).used);
    }
  }

  lemma {:induction false} FieldSizeExtends(E: Env, t: nat, i: nat, c: Cell, S: seq<Msg>, j: nat, at: nat)
    requires t < |E| && i < |E[t]| && at <= j + 1 <= |S| + 1 && FieldSizeWalk(E, t, i, c, S[..j], at).used <= j
    ensures FieldSizeWalk(E, t, i, c, S, at) == FieldSizeWalk(E, t, i, c, S[..j], at)
    decreases Room(S[..j], at), t, 1
  {
    hide SizeWalk, LazySizeWalk, Tag, Encode, FieldSize, Below;
    assert WfFields(E[t], t, |E|);
    if c.Sub? && E[t][i].kind.KMessage? {
      BelowPrefix(S, j, i, c.msg);
      SizeExtends(E, E[t][i].kind.sub, c.msg, Below(S, i, c.msg), j, at);
    } else if c.Lazy? {
      LazySizeExtends(E, E[t][i].kind, i, S, j, at);
    }
  }

  lemma {:induction false} LazySizeExtends(E: Env, k: Kind, i: nat, S: seq<Msg>, j: nat, at: nat)
    requires at <= j + 1 <= |S| + 1 && LazySizeWalk(E, k, i, S[..j], at).used <= j
    ensures LazySizeWalk(E, k, i, S, at) == LazySizeWalk(E, k, i, S[..j], at)
    decreases Room(S[..j], at), 0, 0
  {
    hide SizeWalk, Encode, Below;
    var val := LookAt(S[..j], at, i);
    if val.Live? && k.KLazy? {
      BelowPrefix(S, j, i, val.msg);
      SizeExtends(E, k.sub, val.msg, Below(S, i, val.msg), j, at + 1);
    }
  }

  lemma {:induction false} WriteExtends(E: Env, t: nat, m: Msg, S: seq<Msg>, j: nat, at: nat)
    requires at <= j + 1 <= |S| + 1 && WriteWalk(E, t, m, S[..j], at).used <= j
    ensures WriteWalk(E, t, m, S, at) == WriteWalk(E, t, m, S[..j], at)
    decreases Room(S[..j], at), t, 3
  {
    hide WriteWalkTo;
    WriteExtendsTo(E, t, m, S, j, at, Width(E, t, m));
  }

  lemma {:induction false} WriteExtendsTo(E: Env, t: nat, m: Msg, S: seq<Msg>, j: nat, at: nat, n: nat)
    requires at <= j + 1 <= |S| + 1 && n <= Width(E, t, m) && WriteWalkTo(E, t, m, S[..j], at, n).used <= j
    ensures WriteWalkTo(E, t, m, S, at, n) == WriteWalkTo(E, t, m, S[..j], at, n)
    decreases Room(S[..j], at), t, 2, n
  {
    hide FieldWriteWalk;
    if n > 0 {
      WriteExtendsTo(E, t, m, S, j, at, n - 1);
      FieldWriteExtends(E, t, n - 1, m.cells[n - 1], S, j, WriteWalkTo(E, t, m, S[..j], at, n - 1).used);
    }
  }

  lemma {:induction false} FieldWriteExtends(E: Env, t: nat, i: nat, c: Cell, S: seq<Msg>, j: nat, at: nat)
    requires t < |E| && i < |E[t]| && at <= j + 1 <= |S| + 1 && FieldWriteWalk(E, t, i, c, S[..j], at).used <= j
    ensures FieldWriteWalk(E, t, i, c, S, at) == FieldWriteWalk(E, t, i, c, S[..j], at)
    decreases Room(S[..j], at), t, 1
  {
    hide SizeWalk, WriteWalk, LazySizeWalk, LazyWriteWalk, Tag, Encode, EncField, Below;
    assert WfFields(E[t], t, |E|);
    var k := E[t][i].kind;
    if c.Sub? && k.KMessage? {
      BelowPrefix(S, j, i, c.msg);
      var B := Below(S, i, c.msg);
      SizeExtends(E, k.sub, c.msg, B, j, at);
      var size := SizeWalk(E, k.sub, c.msg, B, at);
      if size.size > 0 { WriteExtends(E, k.sub, c.msg, B, j, size.used); }
    } else if c.Lazy? {
      LazySizeExtends(E, k, i, S, j, at);
      var size := LazySizeWalk(E, k, i, S, at);
      if size.size > 0 { LazyWriteExtends(E, k, i, S, j, size.used); }
    }
  }

  lemma {:induction false} LazyWriteExtends(E: Env, k: Kind, i: nat, S: seq<Msg>, j: nat, at: nat)
    requires at <= j + 1 <= |S| + 1 && LazyWriteWalk(E, k, i, S[..j], at).used <= j
    ensures LazyWriteWalk(E, k, i, S, at) == LazyWriteWalk(E, k, i, S[..j], at)
    decreases Room(S[..j], at), 0, 0
  {
    hide SizeWalk, WriteWalk, Encode, Below;
    var val := LookAt(S[..j], at, i);
    if val.Live? && k.KLazy? {
      BelowPrefix(S, j, i, val.msg);
      var B := Below(S, i, val.msg);
      SizeExtends(E, k.sub, val.msg, B, j, at + 1);
      WriteExtends(E, k.sub, val.msg, B, j, SizeWalk(E, k.sub, val.msg, B, at + 1).used);
    }
  }

  // ---- a walk nobody interrupts ------------------------------------------------------------------------------

  /** How many lazy members the size walk looks at. */
  function SizeLooks(E: Env, t: nat, m: Msg): nat
    decreases m, 2
  {
    SizeLooksTo(E, t, m, Width(E, t, m))
  }

  function SizeLooksTo(E: Env, t: nat, m: Msg, n: nat): nat
    requires n <= Width(E, t, m)
    decreases m, 1, n
  {
    if n == 0 then 0 else SizeLooksTo(E, t, m, n - 1) + FieldSizeLooks(E, E[t][n - 1].kind, m.cells[n - 1])
  }

  function FieldSizeLooks(E: Env, k: Kind, c: Cell): nat
    decreases c, 0
  {
    match c
    case Sub(x) => if k.KMessage? then SizeLooks(E, k.sub, x) else 0
    case Lazy(Live(x)) => 1 + if k.KLazy? then SizeLooks(E, k.sub, x) else 0
    case Lazy(_) => 1
    case _ => 0
  }

  /** And the write walk. */
  function WriteLooks(E: Env, t: nat, m: Msg): nat
    decreases m, 2
  {
    WriteLooksTo(E, t, m, Width(E, t, m))
  }

  function WriteLooksTo(E: Env, t: nat, m: Msg, n: nat): nat
    requires n <= Width(E, t, m)
    decreases m, 1, n
  {
    if n == 0 then 0 else WriteLooksTo(E, t, m, n - 1) + FieldWriteLooks(E, E[t][n - 1].kind, m.cells[n - 1])
  }

  function FieldWriteLooks(E: Env, k: Kind, c: Cell): nat
    decreases c, 0
  {
    FieldSizeLooks(E, k, c) +
    match c
    case Sub(x) => if k.KMessage? && Size(E, k.sub, x) > 0 then WriteLooks(E, k.sub, x) else 0
    case Lazy(val) =>
      if LazySize(E, k, val) == 0 then 0
      else FieldSizeLooks(E, k, c) + if val.Live? && k.KLazy? then WriteLooks(E, k.sub, val.msg) else 0
    case _ => 0
  }

  /** Nothing is read from snapshot `at` on. */
  ghost predicate Still(m: Msg, S: seq<Msg>, at: nat)
  {
    forall k :: at <= k < |S| ==> S[k] == m
  }

  lemma StillBelow(m: Msg, S: seq<Msg>, at: nat, i: nat, x: Msg)
    requires Still(m, S, at) && i < |m.cells| && (m.cells[i] == Sub(x) || m.cells[i] == Lazy(Live(x)))
    ensures Still(x, Below(S, i, x), at)
  {
  }

  lemma {:induction false} SizeStill(E: Env, t: nat, m: Msg, S: seq<Msg>, at: nat)
    requires Still(m, S, at) && at + SizeLooks(E, t, m) <= |S|
    ensures SizeWalk(E, t, m, S, at) == Sizing(Size(E, t, m), m, at + SizeLooks(E, t, m))
    decreases m, 3
  {
    hide SizeWalkTo, SizeLooksTo, SizeTo;
    SizeStillTo(E, t, m, S, at, Width(E, t, m));
    assert m.cells[..Width(E, t, m)] + m.cells[Width(E, t, m)..] == m.cells;
  }

  lemma {:induction false} SizeStillTo(E: Env, t: nat, m: Msg, S: seq<Msg>, at: nat, n: nat)
    requires Still(m, S, at) && n <= Width(E, t, m) && at + SizeLooksTo(E, t, m, n) <= |S|
    ensures SizeWalkTo(E, t, m, S, at, n) == Sizing(SizeTo(E, t, m, n), m.cells[..n], at + SizeLooksTo(E, t, m, n))
    decreases m, 2, n
  {
    hide FieldSizeWalk, FieldSizeLooks, FieldSize;
    if n > 0 {
      SizeStillTo(E, t, m, S, at, n - 1);
      FieldSizeStill(E, t, m, n - 1, S, at + SizeLooksTo(E, t, m, n - 1));
      assert m.cells[..n] == m.cells[..n - 1] + [m.cells[n - 1]];
    }
  }

  lemma {:induction false} FieldSizeStill(E: Env, t: nat, m: Msg, i: nat, S: seq<Msg>, at: nat)
    requires Still(m, S, at) && i < Width(E, t, m) && at + FieldSizeLooks(E, E[t][i].kind, m.cells[i]) <= |S|
    ensures FieldSizeWalk(E, t, i, m.cells[i], S, at) ==
            Sizing(FieldSize(E, E[t][i], m.cells[i]), m.cells[i], at + FieldSizeLooks(E, E[t][i].kind, m.cells[i]))
    decreases m, 1
  {
    hide SizeWalk, SizeLooks, Size, Tag, Encode, LazySize, LazySizeWalk, Below;
    var k, c := E[t][i].kind, m.cells[i];
    if c.Sub? && k.KMessage? {
      StillBelow(m, S, at, i, c.msg);
      SizeStill(E, k.sub, c.msg, Below(S, i, c.msg), at);
    } else if c.Lazy? {
      LazySizeStill(E, t, m, i, S, at);
    }
  }

  lemma {:induction false} LazySizeStill(E: Env, t: nat, m: Msg, i: nat, S: seq<Msg>, at: nat)
    requires Still(m, S, at) && i < Width(E, t, m) && m.cells[i].Lazy? && at + FieldSizeLooks(E, E[t][i].kind, m.cells[i]) <= |S|
    ensures LazySizeWalk(E, E[t][i].kind, i, S, at) ==
            Sizing(LazySize(E, E[t][i].kind, m.cells[i].val), m.cells[i].val, at + FieldSizeLooks(E, E[t][i].kind, m.cells[i]))
    decreases m, 0
  {
    hide SizeWalk, SizeLooks, Size, Encode, Below;
    var k, val := E[t][i].kind, m.cells[i].val;
    if val.Live? && k.KLazy? {
      StillBelow(m, S, at, i, val.msg);
      SizeStill(E, k.sub, val.msg, Below(S, i, val.msg), at + 1);
    }
  }

  lemma {:induction false} WriteStill(E: Env, t: nat, m: Msg, S: seq<Msg>, at: nat)
    requires Still(m, S, at) && at + WriteLooks(E, t, m) <= |S|
    ensures WriteWalk(E, t, m, S, at) == Writing(Enc(E, t, m), m, at + WriteLooks(E, t, m), true)
    decreases m, 3
  {
    hide WriteWalkTo, WriteLooksTo, EncTo;
    WriteStillTo(E, t, m, S, at, Width(E, t, m));
    assert m.cells[..Width(E, t, m)] + m.cells[Width(E, t, m)..] == m.cells;
  }

  lemma {:induction false} WriteStillTo(E: Env, t: nat, m: Msg, S: seq<Msg>, at: nat, n: nat)
    requires Still(m, S, at) && n <= Width(E, t, m) && at + WriteLooksTo(E, t, m, n) <= |S|
    ensures WriteWalkTo(E, t, m, S, at, n) == Writing(EncTo(E, t, m, n), m.cells[..n], at + WriteLooksTo(E, t, m, n), true)
    decreases m, 2, n
  {
    hide FieldWriteWalk, FieldWriteLooks, EncField;
    if n > 0 {
      WriteStillTo(E, t, m, S, at, n - 1);
      FieldWriteStill(E, t, m, n - 1, S, at + WriteLooksTo(E, t, m, n - 1));
      assert m.cells[..n] == m.cells[..n - 1] + [m.cells[n - 1]];
    }
  }

  lemma {:induction false} FieldWriteStill(E: Env, t: nat, m: Msg, i: nat, S: seq<Msg>, at: nat)
    requires Still(m, S, at) && i < Width(E, t, m) && at + FieldWriteLooks(E, E[t][i].kind, m.cells[i]) <= |S|
    ensures FieldWriteWalk(E, t, i, m.cells[i], S, at) ==
            Writing(EncField(E, E[t][i], m.cells[i]), m.cells[i], at + FieldWriteLooks(E, E[t][i].kind, m.cells[i]), true)
    decreases m, 1
  {
    hide SizeWalk, WriteWalk, SizeLooks, WriteLooks, Size, Enc, EncLazy, Tag, Encode, LazySize, LazySizeWalk, LazyWriteWalk, Below;
    var k, c := E[t][i].kind, m.cells[i];
    if c.Sub? && k.KMessage? {
      var B := Below(S, i, c.msg);
      StillBelow(m, S, at, i, c.msg);
      SizeStill(E, k.sub, c.msg, B, at);
      if Size(E, k.sub, c.msg) > 0 {
        StillBelow(m, S, at + SizeLooks(E, k.sub, c.msg), i, c.msg);
        WriteStill(E, k.sub, c.msg, B, at + SizeLooks(E, k.sub, c.msg));
        SizeIsLength(E, k.sub, c.msg);
      }
    } else if c.Lazy? {
      LazySizeStill(E, t, m, i, S, at);
      if LazySize(E, k, c.val) > 0 { LazyWriteStill(E, t, m, i, S, at + FieldSizeLooks(E, k, c)); }
    }
  }

  lemma {:induction false} LazyWriteStill(E: Env, t: nat, m: Msg, i: nat, S: seq<Msg>, at: nat)
    requires Still(m, S, at) && i < Width(E, t, m) && m.cells[i].Lazy?
    requires at + FieldSizeLooks(E, E[t][i].kind, m.cells[i])
             + (if m.cells[i].val.Live? && E[t][i].kind.KLazy? then WriteLooks(E, E[t][i].kind.sub, m.cells[i].val.msg) else 0) <= |S|
    ensures LazyWriteWalk(E, E[t][i].kind, i, S, at) ==
            Writing(EncLazy(E, E[t][i].kind, m.cells[i].val), m.cells[i].val,
                    at + FieldSizeLooks(E, E[t][i].kind, m.cells[i])
                    + (if m.cells[i].val.Live? && E[t][i].kind.KLazy? then WriteLooks(E, E[t][i].kind.sub, m.cells[i].val.msg) else 0), true)
    decreases m, 0
  {
    hide SizeWalk, WriteWalk, SizeLooks, WriteLooks, Size, Enc, Encode, Below;
    var k, val := E[t][i].kind, m.cells[i].val;
    if val.Live? && k.KLazy? {
      var B := Below(S, i, val.msg);
      StillBelow(m, S, at, i, val.msg);
      SizeStill(E, k.sub, val.msg, B, at + 1);
      WriteStill(E, k.sub, val.msg, B, at + 1 + SizeLooks(E, k.sub, val.msg));
      SizeIsLength(E, k.sub, val.msg);
    }
  }

  lemma {:induction false} SizeStillDone(E: Env, t: nat, m: Msg, S: seq<Msg>, at: nat)
    requires at <= |S| + 1 && Still(m, S, at) && SizeWalk(E, t, m, S, at).used <= |S|
    ensures SizeWalk(E, t, m, S, at) == Sizing(Size(E, t, m), m, at + SizeLooks(E, t, m))
  {
    hide SizeWalk, SizeLooks, Size;
    var longer := S + seq(SizeLooks(E, t, m) + 1, _ => m);
    assert longer[..|S|] == S;
    SizeExtends(E, t, m, longer, |S|, at);
    SizeStill(E, t, m, longer, at);
  }

  lemma {:induction false} WriteStillDone(E: Env, t: nat, m: Msg, S: seq<Msg>, at: nat)
    requires at <= |S| + 1 && Still(m, S, at) && WriteWalk(E, t, m, S, at).used <= |S|
    ensures WriteWalk(E, t, m, S, at) == Writing(Enc(E, t, m), m, at + WriteLooks(E, t, m), true)
  {
    hide WriteWalk, WriteLooks, Enc;
    var longer := S + seq(WriteLooks(E, t, m) + 1, _ => m);
    assert longer[..|S|] == S;
    WriteExtends(E, t, m, longer, |S|, at);
    WriteStill(E, t, m, longer, at);
  }

  // ---- from the first snapshot on ----------------------------------------------------------------------------

  /** The whole size walk: the first snapshot gives the members that are not lazy. */
  function SizeOf(E: Env, t: nat, S: seq<Msg>): (r: Sizing<Msg>)
    ensures r.used <= |S| + 1
  {
    if S == [] then Sizing(0, Msg([]), 1) else SizeWalk(E, t, S[0], S, 1)
  }

  /** The whole write walk. */
  function WriteOf(E: Env, t: nat, S: seq<Msg>): (r: Writing<Msg>)
    ensures r.used <= |S| + 1
  {
    if S == [] then Writing([], Msg([]), 1, true) else WriteWalk(E, t, S[0], S, 1)
  }

  /** More snapshots do not change a walk that is done. */
  lemma OfExtends(E: Env, t: nat, S: seq<Msg>, j: nat)
    requires j <= |S|
    ensures SizeOf(E, t, S[..j]).used <= j ==> SizeOf(E, t, S) == SizeOf(E, t, S[..j])
    ensures WriteOf(E, t, S[..j]).used <= j ==> WriteOf(E, t, S) == WriteOf(E, t, S[..j])
  {
    hide SizeWalk, WriteWalk;
    if j > 0 {
      if SizeOf(E, t, S[..j]).used <= j { SizeExtends(E, t, S[0], S, j, 1); }
      if WriteOf(E, t, S[..j]).used <= j { WriteExtends(E, t, S[0], S, j, 1); }
    }
  }
}
