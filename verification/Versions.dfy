/**
  Two versions of a schema: a message written under one and read under the other. Fields only
  the writer knows are skipped, fields only the reader knows stay at their default.
*/
module Versions {
  import opened Varint
  import opened Wire
  import opened Schema
  import opened Codec
  import opened Meaning
  import opened Records
  import opened RoundTrip
  import opened WireForm

  /** Where both versions use a field number they use it for the same field. */
  predicate Compatible(W: Env, R: Env)
  {
    && |W| == |R|
    && forall t, i, j ::
         0 <= t < |W| && 0 <= i < |W[t]| && 0 <= j < |R[t]| && W[t][i].number == R[t][j].number ==> W[t][i] == R[t][j]
  }

  lemma SharedField(W: Env, R: Env, t: nat, i: nat)
    requires Compatible(W, R) && t < |W| && i < |W[t]|
    ensures var j := Find(R[t], W[t][i].number);
            && (j >= 0 ==> R[t][j] == W[t][i] && Find(W[t], R[t][j].number) == i)
            && Target(R[t], Low32(TagBytes(W[t][i]))) == j
            && IsVarint(TagBytes(W[t][i]), 10) && Low32(TagBytes(W[t][i])) != 0
  {
    hide IsVarint, RawValue, Tag, Find;
    TagParts(W, t, i);
    FindOwn(W, t, i);
  }

  // ---- the reader accepts what the writer wrote -----------------------------------------------------------

  lemma {:induction false} ReadableField(W: Env, R: Env, t: nat, m: Msg, i: nat)
    requires Compatible(W, R) && WfMsg(W, t, m) && i < |m.cells|
    requires FieldSize(W, W[t][i], m.cells[i]) < INT_MAX_SPAN
    ensures RecsOk(R, t, FieldRecs(W, W[t][i], m.cells[i]))
    decreases m, 0
  {
    hide FieldSize, PayloadOk, PayloadOf, Target, IsVarint, TagBytes, RawValue, Find;
    var f, c := W[t][i], m.cells[i];
    var rs := FieldRecs(W, f, c);
    if rs == [] {
      NoRecsOk(R, t);
    } else {
      assert rs[1..] == [];
      SharedField(W, R, t, i);
      if Find(R[t], f.number) >= 0 {
        ReadablePayload(W, R, t, m, i);
      } else {
        FieldRecsWf(W, Inline, t, m, i);
      }
      assert RecOk(R, t, rs[0]);
    }
  }

  lemma {:induction false} ReadablePayload(W: Env, R: Env, t: nat, m: Msg, i: nat)
    requires Compatible(W, R) && WfMsg(W, t, m) && i < |m.cells|
    requires 0 < FieldSize(W, W[t][i], m.cells[i]) < INT_MAX_SPAN
    ensures PayloadOk(R, W[t][i].kind, PayloadOf(W, W[t][i].kind, m.cells[i]))
    decreases m, 0, 0
  {
    hide Encode, RecsOk, RecsOf, Size, Stops, IsZero, RawValue, IsVarint, TagBytes, EncRecs;
    assert WfFields(W[t], t, |W|);
    PayloadOfOk(W, W[t][i], m.cells[i]);
    if W[t][i].kind.KMessage? {
      Readable(W, R, W[t][i].kind.sub, m.cells[i].msg);
    }
  }

  lemma {:induction false} ReadableTo(W: Env, R: Env, t: nat, m: Msg, n: nat)
    requires Compatible(W, R) && WfMsg(W, t, m) && Size(W, t, m) < INT_MAX_SPAN && n <= |m.cells|
    ensures RecsOk(R, t, RecsTo(W, t, m, n))
    decreases m, 1, n
  {
    hide Size, FieldSize, RecsOk, WfCell, FieldRecs;
    if n > 0 {
      ReadableTo(W, R, t, m, n - 1);
      FieldWithin(W, t, m, n - 1, |m.cells|);
      ReadableField(W, R, t, m, n - 1);
      RecsOkAppend(R, t, RecsTo(W, t, m, n - 1), FieldRecs(W, W[t][n - 1], m.cells[n - 1]));
    } else {
      NoRecsOk(R, t);
    }
  }

  lemma {:induction false} Readable(W: Env, R: Env, t: nat, m: Msg)
    requires Compatible(W, R) && WfMsg(W, t, m) && Size(W, t, m) < INT_MAX_SPAN
    ensures RecsOk(R, t, RecsOf(W, t, m))
    decreases m, 2
  {
    ReadableTo(W, R, t, m, |m.cells|);
  }

  // ---- what the reader shows ------------------------------------------------------------------------------

  /**
    What the reader should show along a path of its own members: the writer's value where the
    writer has the field, the default where not. A payload the writer never parsed reaches the
    reader as it is, and the reader parses it by its own schema.
  */
  function Conveyed(W: Env, R: Env, t: nat, m: Msg, path: seq<nat>): Seen
    requires t < |R|
    decreases path
  {
    if path == [] || path[0] >= |R[t]| || t >= |W| then Nothing
    else
      var i := Find(W[t], R[t][path[0]].number);
      if i < 0 || i >= |m.cells| then See(R, t, Default(R, t), path)
      else
        match m.cells[i]
        case Sub(s) =>
          if W[t][i].kind.KMessage? && W[t][i].kind.sub < |R| then Conveyed(W, R, W[t][i].kind.sub, s, path[1..]) else Nothing
        case Lazy(Live(s)) =>
          if W[t][i].kind.KLazy? && W[t][i].kind.sub < |R| then Conveyed(W, R, W[t][i].kind.sub, s, path[1..]) else Nothing
        case Lazy(val) =>
          if W[t][i].kind.KLazy? && W[t][i].kind.sub < |R| then See(R, W[t][i].kind.sub, Get(R, W[t][i].kind.sub, val), path[1..]) else Nothing
        case c => SeeCell(W, W[t][i].kind, c, path)
  }

  /** The reader's member after applying what the writer wrote. */
  lemma Received(W: Env, R: Env, t: nat, start: Msg, m: Msg, j: nat)
    requires Compatible(W, R) && WfMsg(W, t, m) && |start.cells| == |R[t]| && j < |R[t]|
    ensures var i := Find(W[t], R[t][j].number);
            ApplyAll(R, t, start, RecsOf(W, t, m)).cells[j] ==
            if i < 0 || FieldSize(W, W[t][i], m.cells[i]) == 0 then start.cells[j]
            else CellOf(R, R[t][j].kind, start.cells[j], PayloadOf(W, W[t][i].kind, m.cells[i]))
  {
    hide ApplyAll, FieldSize, PayloadOf, CellOf, RecsTo, Find, WfCell;
    MemberFold(R, t, start, RecsOf(W, t, m), j);
    SentRecs(W, R, t, m, |m.cells|, j);
    var i := Find(W[t], R[t][j].number);
    if i >= 0 {
      var own := FieldRecs(W, W[t][i], m.cells[i]);
      if own != [] { assert own[1..] == []; }
    }
  }

  lemma {:induction false} SentRecs(W: Env, R: Env, t: nat, m: Msg, n: nat, j: nat)
    requires Compatible(W, R) && t < |W| && |m.cells| == |W[t]| && n <= |m.cells| && j < |R[t]|
    ensures var i := Find(W[t], R[t][j].number);
            ForField(R, t, RecsTo(W, t, m, n), j) == if 0 <= i < n then FieldRecs(W, W[t][i], m.cells[i]) else []
    decreases n
  {
    hide Target, FieldRecs, ForField, Find;
    if n > 0 {
      var last := FieldRecs(W, W[t][n - 1], m.cells[n - 1]);
      SentRecs(W, R, t, m, n - 1, j);
      ForFieldAppend(R, t, RecsTo(W, t, m, n - 1), last, j);
      OneSent(W, R, t, n - 1, m.cells[n - 1], j);
    } else {
      NoneForField(R, t, [], j);
    }
  }

  lemma OneSent(W: Env, R: Env, t: nat, i: nat, c: Cell, j: nat)
    requires Compatible(W, R) && t < |W| && i < |W[t]| && j < |R[t]|
    ensures ForField(R, t, FieldRecs(W, W[t][i], c), j) ==
            if i == Find(W[t], R[t][j].number) then FieldRecs(W, W[t][i], c) else []
  {
    hide Target, FieldSize, PayloadOf, TagBytes, Low32, Find;
    SharedField(W, R, t, i);
    FindOwn(R, t, j);
    var rs := FieldRecs(W, W[t][i], c);
    if rs != [] { assert rs[1..] == []; }
  }

  lemma {:induction false} ReceivedSeen(W: Env, R: Env, t: nat, start: Msg, m: Msg, path: seq<nat>)
    requires Compatible(W, R) && WfMsg(W, t, m) && Size(W, t, m) < INT_MAX_SPAN && Blank(R, t, start)
    ensures See(R, t, ApplyAll(R, t, start, RecsOf(W, t, m)), path) == Conveyed(W, R, t, m, path)
    decreases |path|, 1
  {
    hide ApplyAll, RecsOf, Size, FieldSize, WfCell, CellOf, PayloadOf, SeeCell, Find, Conveyed;
    if path != [] && path[0] < |R[t]| {
      var j := path[0];
      var i := Find(W[t], R[t][j].number);
      Received(W, R, t, start, m, j);
      BlankSeen(R, t, start, j, path);
      if i >= 0 {
        FieldWithin(W, t, m, i, |m.cells|);
        MemberConveyed(W, R, t, start.cells[j], m, i, path);
      } else {
        UnknownConveyed(W, R, t, m, path);
      }
    } else {
      NowhereConveyed(W, R, t, m, path);
    }
  }

  lemma NowhereConveyed(W: Env, R: Env, t: nat, m: Msg, path: seq<nat>)
    requires t < |R| && (path == [] || path[0] >= |R[t]|)
    ensures Conveyed(W, R, t, m, path) == Nothing
  {
  }

  lemma UnknownConveyed(W: Env, R: Env, t: nat, m: Msg, path: seq<nat>)
    requires t < |R| && t < |W| && path != [] && path[0] < |R[t]| && Find(W[t], R[t][path[0]].number) < 0
    ensures Conveyed(W, R, t, m, path) == SeeCell(R, R[t][path[0]].kind, DefaultCell(R, t, path[0]), path)
  {
    hide Find, SeeCell;
  }

  /** One member: shown as the writer's if it was sent, as the default if not. */
  lemma {:induction false} MemberConveyed(W: Env, R: Env, t: nat, prev: Cell, m: Msg, i: nat, path: seq<nat>)
    requires Compatible(W, R) && WfMsg(W, t, m) && i < |m.cells| && path != [] && path[0] < |R[t]|
    requires i == Find(W[t], R[t][path[0]].number)
    requires FieldSize(W, W[t][i], m.cells[i]) < INT_MAX_SPAN
    ensures var k := R[t][path[0]].kind;
            SeeCell(R, k, if FieldSize(W, W[t][i], m.cells[i]) == 0 then DefaultCell(R, t, path[0])
                          else CellOf(R, k, prev, PayloadOf(W, k, m.cells[i])), path) == Conveyed(W, R, t, m, path)
    decreases |path|, 0
  {
    hide ApplyAll, RecsOf, Size, Encode, RawValue, FromU64, ParseFrom, See, IsZero, ToU64, EncRecs, Decode, Enc, Find, TagBytes;
    assert WfFields(W[t], t, |W|);
    var f, c, j := W[t][i], m.cells[i], path[0];
    if FieldSize(W, f, c) == 0 && !f.kind.KMessage? {
      UnsentConveyed(W, R, t, m, i, path);
    } else {
      match f.kind
      case KVarint(vt) =>
        NumPrefix(ToU64(c.v));
        assert ToU64(c.v) % TWO64 == ToU64(c.v);
        Narrow(vt, c.v);
      case KMessage(u) =>
        ReceivedSeen(W, R, u, Default(R, u), c.msg, path[1..]);
        if Size(W, u, c.msg) == 0 { NothingSent(W, R, u, c.msg); }
      case KLazy(u) =>
        if c.val.Live? {
          RecsEncode(W, u, c.val.msg);
          assert EncRecs(RecsOf(W, u, c.val.msg)) + [] == Enc(W, u, c.val.msg);
          DecodeReceived(W, R, u, c.val.msg);
          ReceivedSeen(W, R, u, Default(R, u), c.val.msg, path[1..]);
        }
      case _ =>
    }
  }

  lemma UnsentConveyed(W: Env, R: Env, t: nat, m: Msg, i: nat, path: seq<nat>)
    requires Compatible(W, R) && WfMsg(W, t, m) && i < |m.cells| && path != [] && path[0] < |R[t]|
    requires i == Find(W[t], R[t][path[0]].number)
    requires FieldSize(W, W[t][i], m.cells[i]) == 0 && !W[t][i].kind.KMessage?
    ensures SeeCell(R, R[t][path[0]].kind, DefaultCell(R, t, path[0]), path) == Conveyed(W, R, t, m, path)
  {
    hide Size, Encode, Enc, See, ToU64, TagBytes, Find, Decode;
    assert WfFields(W[t], t, |W|);
  }

  lemma NothingSent(W: Env, R: Env, u: nat, m: Msg)
    requires u < |R| && Size(W, u, m) == 0
    ensures ApplyAll(R, u, Default(R, u), RecsOf(W, u, m)) == Default(R, u)
  {
    RecsEncode(W, u, m);
    SizeIsLength(W, u, m);
    if RecsOf(W, u, m) != [] { SentLength(W, u, m, Width(W, u, m)); }
  }

  lemma {:induction false} SentLength(W: Env, u: nat, m: Msg, n: nat)
    requires n <= Width(W, u, m)
    ensures SizeTo(W, u, m, n) == 0 ==> RecsTo(W, u, m, n) == []
    decreases n
  {
    hide FieldSize;
    if n > 0 { SentLength(W, u, m, n - 1); }
  }

  lemma DecodeReceived(W: Env, R: Env, u: nat, m: Msg)
    requires Compatible(W, R) && WfMsg(W, u, m) && Size(W, u, m) < INT_MAX_SPAN
    ensures Decode(R, u, Enc(W, u, m)) == ApplyAll(R, u, Default(R, u), RecsOf(W, u, m))
  {
    hide ParseFrom, ApplyAll, RecsOf, Enc, Size, WfMsg;
    WfShape(W, u, m);
    ParseReceived(W, R, u, Default(R, u), m);
  }

  lemma ParseReceived(W: Env, R: Env, t: nat, start: Msg, m: Msg)
    requires Compatible(W, R) && WfMsg(W, t, m) && Size(W, t, m) < INT_MAX_SPAN && |start.cells| == |R[t]|
    ensures ParseFrom(R, t, start, Enc(W, t, m), 0) == Ok(ApplyAll(R, t, start, RecsOf(W, t, m)), |Enc(W, t, m)|)
  {
    hide ParseFrom, ApplyAll, RecsOf, Enc, Size, WfMsg, RecsOk, Stops, StopAt;
    WfShape(W, t, m);
    RecsEncode(W, t, m);
    Readable(W, R, t, m);
    EmptyTailStops();
    assert Enc(W, t, m)[0..] == EncRecs(RecsOf(W, t, m)) + [];
    ParseAccepts(R, t, start, RecsOf(W, t, m), [], Enc(W, t, m), 0);
  }

  /**
    Versions of a schema that do not reuse a field number differently understand each other: a
    reader that knows fewer fields, more of them, or some of each parses every message of the
    writer to its end, shows the writer's value for each field both have, at every depth, and
    the default for each field of its own.
  */
  lemma VersionsAgree(W: Env, R: Env, t: nat, start: Msg, m: Msg, path: seq<nat>)
    requires Compatible(W, R) && WfMsg(W, t, m) && Size(W, t, m) < INT_MAX_SPAN && Blank(R, t, start)
    ensures var r := ParseFrom(R, t, start, Enc(W, t, m), 0);
            r.Ok? && r.pos == Size(W, t, m) && See(R, t, r.msg, path) == Conveyed(W, R, t, m, path)
  {
    hide ParseFrom, ApplyAll, RecsOf, Enc, Size, See, Conveyed;
    ParseReceived(W, R, t, start, m);
    SizeIsLength(W, t, m);
    ReceivedSeen(W, R, t, start, m, path);
  }

  /** Between equal versions this is the plain round trip. */
  lemma {:induction false} ConveyedIsSeen(E: Env, t: nat, m: Msg, path: seq<nat>)
    requires WfMsg(E, t, m)
    ensures Conveyed(E, E, t, m, path) == See(E, t, m, path)
    decreases |path|
  {
    hide Decode, IsZero, Find;
    if path != [] && path[0] < |E[t]| {
      var i := path[0];
      assert WfFields(E[t], t, |E|);
      FindOwn(E, t, i);
      var k, c := E[t][i].kind, m.cells[i];
      if k.KMessage? {
        ConveyedIsSeen(E, k.sub, c.msg, path[1..]);
      } else if k.KLazy? && c.val.Live? {
        ConveyedIsSeen(E, k.sub, c.val.msg, path[1..]);
      }
    }
  }
}
