/**
  Concatenation against `MergeFrom`: the wire format promises that parsing two serialisations
  one after the other merges the messages. Here submessages are replaced on repetition while
  `MergeImpl` descends into eager ones and overwrites lazy ones, so the promise holds exactly
  under the condition `Covered`.
*/
module Merging {
  import opened Varint
  import opened Wire
  import opened Schema
  import opened Codec
  import opened Meaning
  import opened Records
  import opened RoundTrip
  import opened Views

  /** The message parsed from serialize(a) followed by serialize(b). */
  function Concat(E: Env, t: nat, start: Msg, a: Msg, b: Msg): Msg
    requires t < |E| && |start.cells| == |E[t]|
  {
    ApplyAll(E, t, start, RecsOf(E, t, a) + RecsOf(E, t, b))
  }

  /** The parser accepts the concatenation and computes `Concat`. */
  lemma ParseConcat(E: Env, t: nat, start: Msg, a: Msg, b: Msg)
    requires WfMsg(E, t, a) && WfMsg(E, t, b) && |start.cells| == |E[t]|
    requires Size(E, t, a) < INT_MAX_SPAN && Size(E, t, b) < INT_MAX_SPAN
    ensures ParseFrom(E, t, start, Enc(E, t, a) + Enc(E, t, b), 0) ==
            Ok(Concat(E, t, start, a, b), |Enc(E, t, a)| + |Enc(E, t, b)|)
  {
    hide ParseFrom, ApplyAll, RecsOf, Enc, Size, RecsOk, Stops, StopAt, EncRecs;
    var ra, rb := RecsOf(E, t, a), RecsOf(E, t, b);
    RecsEncode(E, t, a);
    RecsEncode(E, t, b);
    EncRecsAppend(ra, rb);
    RecsOfOk(E, t, a);
    RecsOfOk(E, t, b);
    RecsOkAppend(E, t, ra, rb);
    EmptyTailStops();
    assert EncRecs(ra + rb)[0..] == EncRecs(ra + rb) + [];
    ParseAccepts(E, t, start, ra + rb, [], EncRecs(ra + rb), 0);
  }

  /** The later message's member if it was emitted, the earlier one's otherwise. */
  function Later(E: Env, f: Field, a: Cell, b: Cell): Cell
  {
    if FieldSize(E, f, b) > 0 then b else a
  }

  lemma {:induction false} ConcatSeen(E: Env, t: nat, start: Msg, a: Msg, b: Msg, path: seq<nat>)
    requires WfMsg(E, t, a) && WfMsg(E, t, b) && Blank(E, t, start) && path != [] && path[0] < |E[t]|
    requires Size(E, t, a) < INT_MAX_SPAN && Size(E, t, b) < INT_MAX_SPAN
    ensures var i := path[0];
            See(E, t, Concat(E, t, start, a, b), path) ==
            SeeCell(E, E[t][i].kind, Later(E, E[t][i], a.cells[i], b.cells[i]), path)
  {
    hide ApplyAll, RecsOf, Size, FieldSize, CellOf, PayloadOf, SeeCell, WfCell, DefaultCell;
    var i := path[0];
    var mid := ApplyAll(E, t, start, RecsOf(E, t, a));
    ApplyAppend(E, t, start, RecsOf(E, t, a), RecsOf(E, t, b));
    Reparsed(E, t, mid, b, i);
    Reparsed(E, t, start, a, i);
    FieldWithin(E, t, a, i, |a.cells|);
    FieldWithin(E, t, b, i, |b.cells|);
    if FieldSize(E, E[t][i], b.cells[i]) > 0 {
      EmittedSeen(E, t, i, mid.cells[i], b.cells[i], path);
    } else if FieldSize(E, E[t][i], a.cells[i]) > 0 {
      EmittedSeen(E, t, i, start.cells[i], a.cells[i], path);
    } else {
      BlankSeen(E, t, start, i, path);
      ZeroCellSeen(E, t, i, a.cells[i], path);
    }
  }

  lemma {:induction false} ApplyAppend(E: Env, t: nat, m: Msg, x: seq<Rec>, y: seq<Rec>)
    requires t < |E| && |m.cells| == |E[t]|
    ensures ApplyAll(E, t, m, x + y) == ApplyAll(E, t, ApplyAll(E, t, m, x), y)
    decreases |x|
  {
    hide Apply;
    if x == [] {
      assert x + y == y;
    } else {
      assert (x + y)[1..] == x[1..] + y;
      ApplyAppend(E, t, Apply(E, t, m, x[0]), x[1..], y);
    }
  }

  // ---- when they agree ---------------------------------------------------------------------------------

  /** Everything set in `a` is set again in `b`, so that merging `b` into `a` shows `b`. */
  ghost predicate Overwrites(E: Env, t: nat, a: Msg, b: Msg)
    requires WfMsg(E, t, a) && WfMsg(E, t, b)
    decreases b, 1
  {
    forall i :: 0 <= i < |b.cells| ==> OverwritesCell(E, t, i, a.cells[i], b.cells[i])
  }

  ghost predicate OverwritesCell(E: Env, t: nat, i: nat, a: Cell, b: Cell)
    requires t < |E| && i < |E[t]| && WfCell(E, E[t][i].kind, a) && WfCell(E, E[t][i].kind, b)
    decreases b, 0
  {
    assert WfFields(E[t], t, |E|);
    match E[t][i].kind
    case KVarint(_) => a.v == 0 || b.v != 0
    case KFixed64(f) => IsZero(a.raw, f) || !IsZero(b.raw, f)
    case KFixed32(f) => IsZero(a.raw, f) || !IsZero(b.raw, f)
    case KString => a.text == [] || !b.isDefault
    case KMessage(u) => if Size(E, u, b.msg) > 0 then Overwrites(E, u, a.msg, b.msg) else AllDefault(E, u, a.msg)
    case KLazy(_) => true
  }

  /**
    When concatenating and merging give the same message: an eager submessage emitted by `b`
    sets again whatever `a` set in it, and a lazy one unset in `b` shows only defaults in `a`.
    Nothing is asked of the other members.
  */
  ghost predicate Covered(E: Env, t: nat, i: nat, a: Cell, b: Cell)
    requires t < |E| && i < |E[t]| && WfCell(E, E[t][i].kind, a) && WfCell(E, E[t][i].kind, b)
  {
    assert WfFields(E[t], t, |E|);
    match E[t][i].kind
    case KMessage(u) => Size(E, u, b.msg) == 0 || Overwrites(E, u, a.msg, b.msg)
    case KLazy(u) => b.val != Unset || AllDefault(E, u, Get(E, u, a.val))
    case _ => true
  }

  /** Merging shows the source everywhere exactly when the source sets everything the target had set. */
  lemma {:induction false} MergeShowsSource(E: Env, t: nat, a: Msg, b: Msg)
    requires WfMsg(E, t, a) && WfMsg(E, t, b)
    ensures Overwrites(E, t, a, b) <==> SameView(E, t, Merge(E, t, a, b), b)
    decreases b, 1
  {
    hide WfCell, SeeCell, MergeCell, OverwritesCell;
    var m := Merge(E, t, a, b);
    forall i | 0 <= i < |b.cells|
      ensures OverwritesCell(E, t, i, a.cells[i], b.cells[i]) <==> CellShows(E, t, i, m.cells[i], b.cells[i])
    {
      MergeShowsCell(E, t, i, a.cells[i], b.cells[i]);
    }
    ShowsByCells(E, t, m, b);
  }

  lemma {:induction false} MergeShowsCell(E: Env, t: nat, i: nat, a: Cell, b: Cell)
    requires t < |E| && i < |E[t]| && WfCell(E, E[t][i].kind, a) && WfCell(E, E[t][i].kind, b)
    ensures OverwritesCell(E, t, i, a, b) <==> CellShows(E, t, i, MergeCell(E, E[t][i].kind, a, b), b)
    decreases b, 0
  {
    hide See, Size, Merge, Default, SameView;
    assert WfFields(E[t], t, |E|);
    var k := E[t][i].kind;
    match k
    case KMessage(u) =>
      WfShape(E, u, a.msg);
      WfShape(E, u, b.msg);
      if Size(E, u, b.msg) > 0 {
        MergeShowsSource(E, u, a.msg, b.msg);
        SubShows(E, t, i, Merge(E, u, a.msg, b.msg), b.msg);
      } else {
        ZeroSizeView(E, u, b.msg, a.msg);
        SubShows(E, t, i, a.msg, b.msg);
      }
    case KLazy(u) => LazyShows(E, t, i, Live(Get(E, u, b.val)), b.val); SameViewRefl(E, u, Get(E, u, b.val));
    case _ =>
      var p: seq<nat> := [i];
      assert CellShows(E, t, i, MergeCell(E, k, a, b), b) <==>
             SeeCell(E, k, MergeCell(E, k, a, b), p) == SeeCell(E, k, b, p);
  }

  lemma {:induction false} CoveredCell(E: Env, t: nat, i: nat, a: Cell, b: Cell)
    requires t < |E| && i < |E[t]| && WfCell(E, E[t][i].kind, a) && WfCell(E, E[t][i].kind, b)
    ensures Covered(E, t, i, a, b) <==>
            CellShows(E, t, i, Later(E, E[t][i], a, b), MergeCell(E, E[t][i].kind, a, b))
  {
    hide See, Size, Merge, Default, Encode, Overwrites, SameView;
    assert WfFields(E[t], t, |E|);
    match E[t][i].kind
    case KMessage(u) =>
      WfShape(E, u, a.msg);
      WfShape(E, u, b.msg);
      if Size(E, u, b.msg) > 0 {
        MergeShowsSource(E, u, a.msg, b.msg);
        SubShows(E, t, i, Merge(E, u, a.msg, b.msg), b.msg);
      }
    case KLazy(u) => CoveredLazy(E, t, i, a, b);
    case _ =>
  }

  lemma CoveredLazy(E: Env, t: nat, i: nat, a: Cell, b: Cell)
    requires t < |E| && i < |E[t]| && WfCell(E, E[t][i].kind, a) && WfCell(E, E[t][i].kind, b) && E[t][i].kind.KLazy?
    ensures Covered(E, t, i, a, b) <==>
            CellShows(E, t, i, Later(E, E[t][i], a, b), MergeCell(E, E[t][i].kind, a, b))
  {
    assert WfFields(E[t], t, |E|);
    var u := E[t][i].kind.sub;
    LaterLazy(E, E[t][i], a, b);
    hide See, Default, Encode, SameView, CellShows, Later, WfMsg, Decode;
    LazyShows(E, t, i, if b.val != Unset then b.val else a.val, Live(Get(E, u, b.val)));
    SameViewRefl(E, u, Get(E, u, b.val));
  }

  lemma LaterLazy(E: Env, f: Field, a: Cell, b: Cell)
    requires f.kind.KLazy? && a.Lazy? && b.Lazy?
    ensures Later(E, f, a, b) == Lazy(if b.val != Unset then b.val else a.val)
  {
    hide Size, Tag, Encode;
    match b.val
    case Unset => assert FieldSize(E, f, b) == 0;
    case Raw(bytes) =>
      EncodeNotEmpty(|bytes| % TWO32);
      assert LazySize(E, f.kind, b.val) > 0;
    case Live(m) =>
      EncodeNotEmpty(Size(E, f.kind.sub, m) % TWO32);
      assert LazySize(E, f.kind, b.val) > 0;
  }

  /**
    Concatenation is merge exactly when every member is covered: all getters of the message
    parsed from serialize(a) + serialize(b) agree with those of `a` after `MergeFrom(b)`.
  */
  lemma ConcatenationIsMerge(E: Env, t: nat, start: Msg, a: Msg, b: Msg)
    requires WfMsg(E, t, a) && WfMsg(E, t, b) && Blank(E, t, start)
    requires Size(E, t, a) < INT_MAX_SPAN && Size(E, t, b) < INT_MAX_SPAN
    ensures ParseFrom(E, t, start, Enc(E, t, a) + Enc(E, t, b), 0).Ok?
    ensures (forall i :: 0 <= i < |E[t]| ==> Covered(E, t, i, a.cells[i], b.cells[i])) <==>
            SameView(E, t, ParseFrom(E, t, start, Enc(E, t, a) + Enc(E, t, b), 0).msg, Merge(E, t, a, b))
  {
    hide ParseFrom, Concat, Size, Enc, SeeCell, See, MergeCell, WfCell, Covered, Later, SameView, CellShows;
    ParseConcat(E, t, start, a, b);
    var m := Merge(E, t, a, b);
    var picked := Msg(seq(|E[t]|, i requires 0 <= i < |E[t]| => Later(E, E[t][i], a.cells[i], b.cells[i])));
    PickedView(E, t, start, a, b, picked, m);
    ShowsByCells(E, t, picked, m);
    forall i | 0 <= i < |E[t]|
      ensures Covered(E, t, i, a.cells[i], b.cells[i]) <==> CellShows(E, t, i, picked.cells[i], m.cells[i])
    {
      CoveredCell(E, t, i, a.cells[i], b.cells[i]);
    }
  }

  lemma PickedView(E: Env, t: nat, start: Msg, a: Msg, b: Msg, picked: Msg, m: Msg)
    requires WfMsg(E, t, a) && WfMsg(E, t, b) && Blank(E, t, start) && |picked.cells| == |E[t]|
    requires Size(E, t, a) < INT_MAX_SPAN && Size(E, t, b) < INT_MAX_SPAN
    requires forall i :: 0 <= i < |E[t]| ==> picked.cells[i] == Later(E, E[t][i], a.cells[i], b.cells[i])
    ensures SameView(E, t, Concat(E, t, start, a, b), m) <==> SameView(E, t, picked, m)
  {
    assert SameView(E, t, Concat(E, t, start, a, b), picked) by { PickedSeen(E, t, start, a, b, picked); }
    hide CrossView;
    CrossTrans(E, E, E, t, Concat(E, t, start, a, b), picked, m);
  }

  lemma PickedSeen(E: Env, t: nat, start: Msg, a: Msg, b: Msg, picked: Msg)
    requires WfMsg(E, t, a) && WfMsg(E, t, b) && Blank(E, t, start) && |picked.cells| == |E[t]|
    requires Size(E, t, a) < INT_MAX_SPAN && Size(E, t, b) < INT_MAX_SPAN
    requires forall i :: 0 <= i < |E[t]| ==> picked.cells[i] == Later(E, E[t][i], a.cells[i], b.cells[i])
    ensures SameView(E, t, Concat(E, t, start, a, b), picked)
  {
    hide SeeCell, See, WfCell, Later, Concat, Size;
    var c := Concat(E, t, start, a, b);
    assert |c.cells| == |E[t]| by { ConcatShape(E, t, start, a, b); }
    forall path: seq<nat>
      ensures See(E, t, c, path) == See(E, t, picked, path)
    {
      SeeStep(E, t, picked, path);
      SeeStep(E, t, c, path);
      if path != [] && path[0] < |E[t]| { ConcatSeen(E, t, start, a, b, path); }
    }
  }

  lemma ConcatShape(E: Env, t: nat, start: Msg, a: Msg, b: Msg)
    requires t < |E| && |start.cells| == |E[t]|
    ensures |Concat(E, t, start, a, b).cells| == |E[t]|
  {
  }

  /** An eager submessage with one member set in each message: merging keeps both, concatenating only the later. */
  lemma ReplacedSubmessage()
    ensures var E: Env := [[Field(1, KVarint(Int32)), Field(2, KVarint(Int32))], [Field(1, KMessage(0))]];
            var a := Msg([Sub(Msg([Num(1), Num(0)]))]);
            var b := Msg([Sub(Msg([Num(0), Num(1)]))]);
            && WfMsg(E, 1, a) && WfMsg(E, 1, b)
            && See(E, 1, Concat(E, 1, Default(E, 1), a, b), [0, 0]) == SeenNum(0)
            && See(E, 1, Merge(E, 1, a, b), [0, 0]) == SeenNum(1)
  {
    var E: Env := [[Field(1, KVarint(Int32)), Field(2, KVarint(Int32))], [Field(1, KMessage(0))]];
    hide *;
    ReplacedIn(E, Msg([Num(1), Num(0)]), Msg([Num(0), Num(1)]));
  }

  lemma ReplacedIn(E: Env, x: Msg, y: Msg)
    requires |E| == 2 && E[0] == [Field(1, KVarint(Int32)), Field(2, KVarint(Int32))] && E[1] == [Field(1, KMessage(0))]
    requires x == Msg([Num(1), Num(0)]) && y == Msg([Num(0), Num(1)])
    ensures var a, b := Msg([Sub(x)]), Msg([Sub(y)]);
            && WfMsg(E, 1, a) && WfMsg(E, 1, b)
            && See(E, 1, Concat(E, 1, Default(E, 1), a, b), [0, 0]) == SeenNum(0)
            && See(E, 1, Merge(E, 1, a, b), [0, 0]) == SeenNum(1)
  {
    var a, b := Msg([Sub(x)]), Msg([Sub(y)]);
    var p: seq<nat> := [0, 0];
    HolderMerge(E, x, y);
    HolderSees(E, Merge(E, 0, x, y));
    HolderSees(E, y);
    SmallPair(E, x);
    SmallPair(E, y);
    SmallHolder(E, x);
    SmallHolder(E, y);
    assert Blank(E, 1, Default(E, 1));
    assert Later(E, E[1][0], a.cells[0], b.cells[0]) == Sub(y);
    hide *;
    assert p == [0, 0];
    ConcatSeen(E, 1, Default(E, 1), a, b, p);
  }

  lemma HolderMerge(E: Env, x: Msg, y: Msg)
    requires |E| == 2 && E[0] == [Field(1, KVarint(Int32)), Field(2, KVarint(Int32))] && E[1] == [Field(1, KMessage(0))]
    requires x == Msg([Num(1), Num(0)]) && y == Msg([Num(0), Num(1)])
    ensures WfMsg(E, 0, x) && WfMsg(E, 0, y) && WfMsg(E, 1, Msg([Sub(x)])) && WfMsg(E, 1, Msg([Sub(y)]))
    ensures Merge(E, 0, x, y) == Msg([Num(1), Num(1)])
    ensures Merge(E, 1, Msg([Sub(x)]), Msg([Sub(y)])) == Msg([Sub(Merge(E, 0, x, y))])
  {
    hide Size;
    SmallPair(E, y);
    assert Merge(E, 0, x, y).cells == [Num(1), Num(1)];
    assert Merge(E, 1, Msg([Sub(x)]), Msg([Sub(y)])).cells == [Sub(Merge(E, 0, x, y))];
  }

  lemma HolderSees(E: Env, z: Msg)
    requires |E| == 2 && E[0] == [Field(1, KVarint(Int32)), Field(2, KVarint(Int32))] && E[1] == [Field(1, KMessage(0))]
    requires |z.cells| == 2 && z.cells[0].Num?
    ensures SeeCell(E, E[1][0].kind, Sub(z), [0, 0]) == See(E, 1, Msg([Sub(z)]), [0, 0]) == SeenNum(z.cells[0].v)
  {
    var p: seq<nat> := [0, 0];
    assert p[1..] == [0];
    assert See(E, 0, z, [0]) == SeenNum(z.cells[0].v);
  }

  lemma SmallPair(E: Env, x: Msg)
    requires |E| > 0 && E[0] == [Field(1, KVarint(Int32)), Field(2, KVarint(Int32))]
    requires x == Msg([Num(1), Num(0)]) || x == Msg([Num(0), Num(1)])
    ensures Size(E, 0, x) == 2
  {
    hide Encode, Tag;
    TagValue(E[0][0]);
    TagValue(E[0][1]);
    EncodeLength(8);
    EncodeLength(16);
    EncodeLength(1);
    assert SizeTo(E, 0, x, 0) == 0;
    assert SizeTo(E, 0, x, 1) == FieldSize(E, E[0][0], x.cells[0]);
    assert Size(E, 0, x) == SizeTo(E, 0, x, 2);
  }

  lemma SmallHolder(E: Env, x: Msg)
    requires |E| == 2 && E[1] == [Field(1, KMessage(0))] && Size(E, 0, x) == 2
    ensures FieldSize(E, E[1][0], Sub(x)) == 4 == Size(E, 1, Msg([Sub(x)]))
  {
    hide Encode, Tag, Size;
    TagValue(E[1][0]);
    EncodeLength(10);
    EncodeLength(2);
    OneMember(E, 1, Msg([Sub(x)]));
  }

  /** A lazy member set only in the earlier message: concatenating keeps it, merging puts a default there. */
  lemma UnsetLazyOverwrites()
    ensures var E: Env := [[Field(1, KVarint(Int32))], [Field(1, KLazy(0))]];
            var a, b := Msg([Lazy(Live(Msg([Num(1)])))]), Msg([Lazy(Unset)]);
            && WfMsg(E, 1, a) && WfMsg(E, 1, b)
            && See(E, 1, Concat(E, 1, Default(E, 1), a, b), [0, 0]) == SeenNum(1)
            && See(E, 1, Merge(E, 1, a, b), [0, 0]) == SeenNum(0)
  {
    var E: Env := [[Field(1, KVarint(Int32))], [Field(1, KLazy(0))]];
    hide *;
    UnsetIn(E, Msg([Num(1)]));
  }

  lemma UnsetIn(E: Env, x: Msg)
    requires |E| == 2 && E[0] == [Field(1, KVarint(Int32))] && E[1] == [Field(1, KLazy(0))] && x == Msg([Num(1)])
    ensures var a, b := Msg([Lazy(Live(x))]), Msg([Lazy(Unset)]);
            && WfMsg(E, 1, a) && WfMsg(E, 1, b)
            && See(E, 1, Concat(E, 1, Default(E, 1), a, b), [0, 0]) == SeenNum(1)
            && See(E, 1, Merge(E, 1, a, b), [0, 0]) == SeenNum(0)
  {
    var a, b := Msg([Lazy(Live(x))]), Msg([Lazy(Unset)]);
    var p: seq<nat> := [0, 0];
    UnsetSizes(E, x);
    UnsetSees(E, x);
    assert Blank(E, 1, Default(E, 1));
    hide *;
    assert p == [0, 0];
    ConcatSeen(E, 1, Default(E, 1), a, b, p);
  }

  lemma UnsetSizes(E: Env, x: Msg)
    requires |E| == 2 && E[0] == [Field(1, KVarint(Int32))] && E[1] == [Field(1, KLazy(0))] && x == Msg([Num(1)])
    ensures var a, b := Msg([Lazy(Live(x))]), Msg([Lazy(Unset)]);
            && Size(E, 1, a) == 4 && Size(E, 1, b) == 0
            && Later(E, E[1][0], a.cells[0], b.cells[0]) == Lazy(Live(x))
  {
    hide Encode, Tag, Size;
    OneSize(E, x);
    TagValue(E[1][0]);
    EncodeLength(10);
    EncodeLength(2);
    assert 2 % TWO32 == 2;
    OneMember(E, 1, Msg([Lazy(Live(x))]));
    OneMember(E, 1, Msg([Lazy(Unset)]));
  }

  lemma OneSize(E: Env, x: Msg)
    requires |E| > 0 && E[0] == [Field(1, KVarint(Int32))] && x == Msg([Num(1)])
    ensures Size(E, 0, x) == 2
  {
    hide Encode, Tag, Size;
    TagValue(E[0][0]);
    EncodeLength(8);
    EncodeLength(1);
    OneMember(E, 0, x);
  }

  lemma UnsetSees(E: Env, x: Msg)
    requires |E| == 2 && E[0] == [Field(1, KVarint(Int32))] && E[1] == [Field(1, KLazy(0))] && x == Msg([Num(1)])
    ensures var a, b := Msg([Lazy(Live(x))]), Msg([Lazy(Unset)]);
            && WfMsg(E, 1, a) && WfMsg(E, 1, b)
            && SeeCell(E, E[1][0].kind, a.cells[0], [0, 0]) == SeenNum(1)
            && See(E, 1, Merge(E, 1, a, b), [0, 0]) == SeenNum(0)
  {
    hide *;
    UnsetMerge(E, x);
    LiveSees(E, x);
    LiveSees(E, Default(E, 0));
  }

  lemma UnsetMerge(E: Env, x: Msg)
    requires |E| == 2 && E[0] == [Field(1, KVarint(Int32))] && E[1] == [Field(1, KLazy(0))] && x == Msg([Num(1)])
    ensures WfMsg(E, 1, Msg([Lazy(Live(x))])) && WfMsg(E, 1, Msg([Lazy(Unset)]))
    ensures Default(E, 0) == Msg([Num(0)])
    ensures Merge(E, 1, Msg([Lazy(Live(x))]), Msg([Lazy(Unset)])) == Msg([Lazy(Live(Default(E, 0)))])
  {
    hide Size, Encode;
    assert WfMsg(E, 0, x);
    assert Default(E, 0).cells == [Num(0)];
    assert Merge(E, 1, Msg([Lazy(Live(x))]), Msg([Lazy(Unset)])).cells == [Lazy(Live(Default(E, 0)))];
  }

  lemma LiveSees(E: Env, x: Msg)
    requires |E| == 2 && |E[0]| == |x.cells| == 1 && x.cells[0].Num? && E[1] == [Field(1, KLazy(0))]
    ensures SeeCell(E, E[1][0].kind, Lazy(Live(x)), [0, 0]) == See(E, 1, Msg([Lazy(Live(x))]), [0, 0]) == SeenNum(x.cells[0].v)
  {
    var p: seq<nat> := [0, 0];
    assert p[1..] == [0];
    assert See(E, 0, x, [0]) == SeenNum(x.cells[0].v);
  }

  /** Schemas without submessages meet the promise on all messages. */
  lemma FlatConcatenationIsMerge(E: Env, t: nat, start: Msg, a: Msg, b: Msg, path: seq<nat>)
    requires WfMsg(E, t, a) && WfMsg(E, t, b) && Blank(E, t, start)
    requires Size(E, t, a) < INT_MAX_SPAN && Size(E, t, b) < INT_MAX_SPAN
    requires forall i :: 0 <= i < |E[t]| ==> !E[t][i].kind.KMessage? && !E[t][i].kind.KLazy?
    ensures ParseFrom(E, t, start, Enc(E, t, a) + Enc(E, t, b), 0).Ok?
    ensures See(E, t, ParseFrom(E, t, start, Enc(E, t, a) + Enc(E, t, b), 0).msg, path) ==
            See(E, t, Merge(E, t, a, b), path)
  {
    hide ParseFrom, Size, Enc, See, Merge;
    ConcatenationIsMerge(E, t, start, a, b);
  }
}
