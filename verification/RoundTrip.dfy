/** Serialising a message tree and parsing it back, and copying it. */
module RoundTrip {
  import opened Varint
  import opened Wire
  import opened Schema
  import opened Codec
  import opened Meaning
  import opened Records

  // ---- the records a message serialises to -----------------------------------------------------------

  function RecsOf(E: Env, t: nat, m: Msg): seq<Rec>
    decreases m, 2
  {
    RecsTo(E, t, m, Width(E, t, m))
  }

  function RecsTo(E: Env, t: nat, m: Msg, n: nat): seq<Rec>
    requires n <= Width(E, t, m)
    decreases m, 1, n
  {
    if n == 0 then [] else RecsTo(E, t, m, n - 1) + FieldRecs(E, E[t][n - 1], m.cells[n - 1])
  }

  /** No record when `ByteSizeLong` counts nothing, otherwise one. */
  function FieldRecs(E: Env, f: Field, c: Cell): seq<Rec>
    decreases c, 2
  {
    if FieldSize(E, f, c) == 0 then [] else [Rec(TagBytes(f), PayloadOf(E, f.kind, c))]
  }

  function PayloadOf(E: Env, k: Kind, c: Cell): Payload
    decreases c, 1
  {
    match c
    case Num(v) => PVarint(Encode(ToU64(v)))
    case Fix(raw) => if k.KFixed64? then PFixed64(raw) else PFixed32(raw)
    case Str(_, text) => PBytes(Encode(|text|), text)
    case Sub(m) =>
      if k.KMessage? then PRecords(Encode(Size(E, k.sub, m)), RecsOf(E, k.sub, m), []) else PBytes([], [])
    case Lazy(val) => LazyPayload(E, k, val)
  }

  function LazyPayload(E: Env, k: Kind, val: LazyVal): Payload
    decreases val, 0
  {
    match val
    case Live(m) =>
      if k.KLazy? then PRecords(Encode(Size(E, k.sub, m) % TWO32), RecsOf(E, k.sub, m), []) else PBytes([], [])
    case Raw(bytes) => PBytes(Encode(|bytes| % TWO32), bytes)
    case Unset => PBytes([], [])
  }

  lemma {:induction false} RecsEncode(E: Env, t: nat, m: Msg)
    ensures EncRecs(RecsOf(E, t, m)) == Enc(E, t, m)
    decreases m, 2
  {
    RecsEncodeTo(E, t, m, Width(E, t, m));
  }

  lemma {:induction false} RecsEncodeTo(E: Env, t: nat, m: Msg, n: nat)
    requires n <= Width(E, t, m)
    ensures EncRecs(RecsTo(E, t, m, n)) == EncTo(E, t, m, n)
    decreases m, 1, n
  {
    hide FieldRecs, EncField;
    if n > 0 {
      RecsEncodeTo(E, t, m, n - 1);
      EncRecsAppend(RecsTo(E, t, m, n - 1), FieldRecs(E, E[t][n - 1], m.cells[n - 1]));
      FieldRecsEncode(E, E[t][n - 1], m.cells[n - 1]);
    }
  }

  lemma {:induction false} FieldRecsEncode(E: Env, f: Field, c: Cell)
    ensures EncRecs(FieldRecs(E, f, c)) == EncField(E, f, c)
    decreases c, 1
  {
    hide Enc, Encode, TagBytes, Size, RecsOf;
    FieldSizeIsLength(E, f, c);
    if FieldSize(E, f, c) != 0 {
      var r := Rec(TagBytes(f), PayloadOf(E, f.kind, c));
      assert [r][1..] == [];
      assert EncRecs([r]) == EncRec(r) == r.tag + EncPayload(r.payload);
      PayloadEncodes(E, f, c);
    }
  }

  lemma {:induction false} PayloadEncodes(E: Env, f: Field, c: Cell)
    requires FieldSize(E, f, c) != 0
    ensures EncField(E, f, c) == TagBytes(f) + EncPayload(PayloadOf(E, f.kind, c))
    decreases c, 0
  {
    hide Enc, Encode, TagBytes, Size, RecsOf;
    if c.Sub? {
      RecsEncode(E, f.kind.sub, c.msg);
      assert EncRecs(RecsOf(E, f.kind.sub, c.msg)) + [] == EncRecs(RecsOf(E, f.kind.sub, c.msg));
    } else if c.Lazy? && c.val.Live? {
      RecsEncode(E, f.kind.sub, c.val.msg);
      assert EncRecs(RecsOf(E, f.kind.sub, c.val.msg)) + [] == EncRecs(RecsOf(E, f.kind.sub, c.val.msg));
    }
  }

  /** A serialised length reads back as itself. */
  lemma LengthPrefix(n: nat)
    requires n < INT_MAX_SPAN
    ensures n % TWO32 == n
    ensures IsVarint(Encode(n), 10) && IsVarint(Encode(n), 5)
    ensures RawValue(Encode(n)) % TWO64 == n && Low32(Encode(n)) == n
  {
    EncodeLength(n);
    EncodeInverse(n);
  }

  lemma {:induction false} PayloadOfOk(E: Env, f: Field, c: Cell)
    requires WfCell(E, f.kind, c) && FieldSize(E, f, c) < INT_MAX_SPAN
    requires FieldSize(E, f, c) > 0 && (f.kind.KMessage? ==> f.kind.sub < |E|)
    ensures PayloadOk(E, f.kind, PayloadOf(E, f.kind, c))
    decreases c, 0
  {
    hide Encode, RecsOk, RecsOf, Size, Enc, Stops, IsZero, RawValue, IsVarint, TagBytes;
    match f.kind
    case KVarint(vt) => NumPrefix(ToU64(c.v));
    case KFixed64(_) =>
    case KFixed32(_) =>
    case KString => LengthPrefix(|c.text|);
    case KMessage(u) =>
      LengthPrefix(Size(E, u, c.msg));
      RecsOfOk(E, u, c.msg);
      RecsEncode(E, u, c.msg);
      SizeIsLength(E, u, c.msg);
      EmptyTailStops();
      assert EncRecs(RecsOf(E, u, c.msg)) + [] == Enc(E, u, c.msg);
    case KLazy(u) =>
      if c.val.Live? {
        LengthPrefix(Size(E, u, c.val.msg));
        RecsEncode(E, u, c.val.msg);
        SizeIsLength(E, u, c.val.msg);
        assert EncRecs(RecsOf(E, u, c.val.msg)) + [] == Enc(E, u, c.val.msg);
      } else {
        LengthPrefix(|c.val.bytes|);
      }
  }

  lemma NumPrefix(u: nat)
    requires u < TWO64
    ensures IsVarint(Encode(u), 10) && RawValue(Encode(u)) == u
  {
    EncodeLength(u);
    EncodeInverse(u);
  }

  lemma EmptyTailStops()
    ensures Stops([]) && StopAt([]) == 0
  {
  }

  lemma {:induction false} RecsOfOk(E: Env, t: nat, m: Msg)
    requires WfMsg(E, t, m) && Size(E, t, m) < INT_MAX_SPAN
    ensures RecsOk(E, t, RecsOf(E, t, m))
    decreases m, 2
  {
    RecsToOk(E, t, m, |m.cells|);
  }

  lemma {:induction false} RecsToOk(E: Env, t: nat, m: Msg, n: nat)
    requires WfMsg(E, t, m) && Size(E, t, m) < INT_MAX_SPAN && n <= |m.cells|
    ensures RecsOk(E, t, RecsTo(E, t, m, n))
    decreases m, 1, n
  {
    hide Size, FieldSize, RecsOk, WfCell, FieldRecs;
    if n > 0 {
      RecsToOk(E, t, m, n - 1);
      FieldWithin(E, t, m, n - 1, |m.cells|);
      FieldRecsOk(E, t, m, n - 1);
      RecsOkAppend(E, t, RecsTo(E, t, m, n - 1), FieldRecs(E, E[t][n - 1], m.cells[n - 1]));
    } else {
      NoRecsOk(E, t);
    }
  }

  lemma NoRecsOk(E: Env, t: nat)
    requires t < |E|
    ensures RecsOk(E, t, [])
  {
  }

  /** The tag written for a member is dispatched back to that member. */
  lemma OwnTarget(E: Env, t: nat, i: nat)
    requires t < |E| && i < |E[t]|
    ensures IsVarint(TagBytes(E[t][i]), 10) && Low32(TagBytes(E[t][i])) != 0
    ensures Target(E[t], Low32(TagBytes(E[t][i]))) == i
  {
    hide IsVarint, RawValue, Tag, Find;
    TagParts(E, t, i);
    FindOwn(E, t, i);
  }

  lemma {:induction false} FieldRecsOk(E: Env, t: nat, m: Msg, i: nat)
    requires WfMsg(E, t, m) && i < |m.cells| && FieldSize(E, E[t][i], m.cells[i]) < INT_MAX_SPAN
    ensures RecsOk(E, t, FieldRecs(E, E[t][i], m.cells[i]))
    decreases m, 0
  {
    hide FieldSize, PayloadOk, PayloadOf, Target, IsVarint, TagBytes, RawValue;
    assert WfFields(E[t], t, |E|);
    OwnTarget(E, t, i);
    if FieldSize(E, E[t][i], m.cells[i]) > 0 {
      PayloadOfOk(E, E[t][i], m.cells[i]);
      var rs := FieldRecs(E, E[t][i], m.cells[i]);
      assert rs[1..] == [];
      assert RecOk(E, t, rs[0]);
    }
  }

  lemma {:induction false} OwnRecs(E: Env, t: nat, m: Msg, n: nat, i: nat)
    requires t < |E| && |m.cells| == |E[t]| && n <= |m.cells| && i < |m.cells|
    ensures ForField(E, t, RecsTo(E, t, m, n), i) == if i < n then FieldRecs(E, E[t][i], m.cells[i]) else []
    decreases n
  {
    hide Target, FieldRecs, ForField;
    if n > 0 {
      var last := FieldRecs(E, E[t][n - 1], m.cells[n - 1]);
      OwnRecs(E, t, m, n - 1, i);
      ForFieldAppend(E, t, RecsTo(E, t, m, n - 1), last, i);
      OneForField(E, t, n - 1, m.cells[n - 1], i);
    } else {
      NoneForField(E, t, [], i);
    }
  }

  lemma OneForField(E: Env, t: nat, j: nat, c: Cell, i: nat)
    requires t < |E| && j < |E[t]|
    ensures ForField(E, t, FieldRecs(E, E[t][j], c), i) == if i == j then FieldRecs(E, E[t][j], c) else []
  {
    hide Target, FieldSize, PayloadOf, TagBytes, Low32;
    OwnTarget(E, t, j);
    var rs := FieldRecs(E, E[t][j], c);
    if rs != [] { assert rs[1..] == []; }
  }

  /** The members after applying a message's own records: only those it emitted change. */
  lemma Reparsed(E: Env, t: nat, start: Msg, m: Msg, i: nat)
    requires t < |E| && |start.cells| == |m.cells| == |E[t]| && i < |E[t]|
    ensures ApplyAll(E, t, start, RecsOf(E, t, m)).cells[i] ==
            if FieldSize(E, E[t][i], m.cells[i]) == 0 then start.cells[i]
            else CellOf(E, E[t][i].kind, start.cells[i], PayloadOf(E, E[t][i].kind, m.cells[i]))
  {
    hide ApplyAll, FieldSize, PayloadOf, CellOf, RecsTo;
    MemberFold(E, t, start, RecsOf(E, t, m), i);
    OwnRecs(E, t, m, |m.cells|, i);
    var own := FieldRecs(E, E[t][i], m.cells[i]);
    if own != [] { assert own[1..] == []; }
  }

  // ---- defaults -----------------------------------------------------------------------------------------

  /** A message that serialises to nothing shows a default at every getter. */
  lemma {:induction false} ZeroSizeSeen(E: Env, t: nat, m: Msg, path: seq<nat>)
    requires WfMsg(E, t, m) && Size(E, t, m) == 0
    ensures See(E, t, m, path) == See(E, t, Default(E, t), path)
    decreases |path|
  {
    if path != [] && path[0] < |m.cells| {
      var i := path[0];
      assert WfFields(E[t], t, |E|);
      FieldWithin(E, t, m, i, |m.cells|);
      ZeroCellSeen(E, t, i, m.cells[i], path);
    }
  }

  lemma {:induction false} ZeroCellSeen(E: Env, t: nat, i: nat, c: Cell, path: seq<nat>)
    requires t < |E| && i < |E[t]| && path != []
    requires WfCell(E, E[t][i].kind, c) && FieldSize(E, E[t][i], c) == 0
    ensures SeeCell(E, E[t][i].kind, c, path) == SeeCell(E, E[t][i].kind, DefaultCell(E, t, i), path)
    decreases |path|, 0
  {
    assert WfFields(E[t], t, |E|);
    if c.Sub? {
      ZeroSizeSeen(E, E[t][i].kind.sub, c.msg, path[1..]);
    }
  }

  lemma {:induction false} FreshSeen(E: Env, t: nat, onArena: bool, path: seq<nat>)
    requires t < |E|
    ensures See(E, t, Fresh(E, t, onArena), path) == See(E, t, Default(E, t), path)
    decreases |path|
  {
    if path != [] && path[0] < |E[t]| {
      assert WfFields(E[t], t, |E|);
      if E[t][path[0]].kind.KMessage? {
        FreshSeen(E, E[t][path[0]].kind.sub, onArena, path[1..]);
      }
    }
  }

  // ---- the round trip -------------------------------------------------------------------------------------

  /** `start` shows only defaults: a message from either constructor, or a cleared one. */
  predicate Blank(E: Env, t: nat, start: Msg)
    requires t < |E|
  {
    start == Default(E, t) || start == Fresh(E, t, true) || start == Fresh(E, t, false)
  }

  lemma BlankSeen(E: Env, t: nat, start: Msg, i: nat, path: seq<nat>)
    requires t < |E| && Blank(E, t, start) && i < |E[t]| && path != [] && path[0] == i
    ensures SeeCell(E, E[t][i].kind, start.cells[i], path) == SeeCell(E, E[t][i].kind, DefaultCell(E, t, i), path)
  {
    FreshSeen(E, t, true, path);
    FreshSeen(E, t, false, path);
  }

  /** Parsing what `_InternalSerialize` wrote applies exactly the message's records. */
  lemma ParseOwn(E: Env, t: nat, start: Msg, m: Msg)
    requires WfMsg(E, t, m) && Size(E, t, m) < INT_MAX_SPAN && |start.cells| == |E[t]|
    ensures ParseFrom(E, t, start, Enc(E, t, m), 0) == Ok(ApplyAll(E, t, start, RecsOf(E, t, m)), |Enc(E, t, m)|)
  {
    hide ParseFrom, ApplyAll, RecsOf, Enc, Size, WfMsg, RecsOk, Stops, StopAt;
    RecsEncode(E, t, m);
    RecsOfOk(E, t, m);
    EmptyTailStops();
    assert WfMsg(E, t, m) ==> t < |E| && |m.cells| == |E[t]| by { WfShape(E, t, m); }
    assert Enc(E, t, m)[0..] == EncRecs(RecsOf(E, t, m)) + [];
    ParseAccepts(E, t, start, RecsOf(E, t, m), [], Enc(E, t, m), 0);
  }

  lemma WfShape(E: Env, t: nat, m: Msg)
    ensures WfMsg(E, t, m) ==> t < |E| && |m.cells| == |E[t]|
  {
  }

  lemma {:induction false} ReparsedSeen(E: Env, t: nat, start: Msg, m: Msg, path: seq<nat>)
    requires WfMsg(E, t, m) && Size(E, t, m) < INT_MAX_SPAN && Blank(E, t, start)
    ensures See(E, t, ApplyAll(E, t, start, RecsOf(E, t, m)), path) == See(E, t, m, path)
    decreases |path|, 1
  {
    hide ApplyAll, RecsOf, Size, FieldSize, WfCell, CellOf, PayloadOf, SeeCell;
    if path != [] && path[0] < |m.cells| {
      var i := path[0];
      Reparsed(E, t, start, m, i);
      FieldWithin(E, t, m, i, |m.cells|);
      if FieldSize(E, E[t][i], m.cells[i]) == 0 {
        BlankSeen(E, t, start, i, path);
        ZeroCellSeen(E, t, i, m.cells[i], path);
      } else {
        EmittedSeen(E, t, i, start.cells[i], m.cells[i], path);
      }
    }
  }

  lemma {:induction false} EmittedSeen(E: Env, t: nat, i: nat, prev: Cell, c: Cell, path: seq<nat>)
    requires t < |E| && i < |E[t]| && path != [] && WfCell(E, E[t][i].kind, c)
    requires 0 < FieldSize(E, E[t][i], c) < INT_MAX_SPAN
    ensures SeeCell(E, E[t][i].kind, CellOf(E, E[t][i].kind, prev, PayloadOf(E, E[t][i].kind, c)), path) ==
            SeeCell(E, E[t][i].kind, c, path)
    decreases |path|, 0
  {
    hide ApplyAll, RecsOf, Size, Encode, RawValue, FromU64, ParseFrom, See, IsZero, ToU64, EncRecs, Decode, Enc;
    assert WfFields(E[t], t, |E|);
    match E[t][i].kind
    case KVarint(vt) =>
      NumPrefix(ToU64(c.v));
      assert ToU64(c.v) % TWO64 == ToU64(c.v);
      Narrow(vt, c.v);
    case KMessage(u) => ReparsedSeen(E, u, Default(E, u), c.msg, path[1..]);
    case KLazy(u) =>
      if c.val.Live? {
        RecsEncode(E, u, c.val.msg);
        assert EncRecs(RecsOf(E, u, c.val.msg)) + [] == Enc(E, u, c.val.msg);
        DecodeOwn(E, u, c.val.msg);
        ReparsedSeen(E, u, Default(E, u), c.val.msg, path[1..]);
      }
    case _ =>
  }

  lemma DecodeOwn(E: Env, u: nat, m: Msg)
    requires WfMsg(E, u, m) && Size(E, u, m) < INT_MAX_SPAN
    ensures Decode(E, u, Enc(E, u, m)) == ApplyAll(E, u, Default(E, u), RecsOf(E, u, m))
  {
    hide ParseFrom, ApplyAll, RecsOf, Enc, Size;
    ParseOwn(E, u, Default(E, u), m);
  }

  /**
    Nested round trip: for every message tree, in whatever state its lazy members are, parsing
    its serialisation into a new message succeeds, consumes every byte, and every getter at
    every depth returns what the original's returns.
  */
  lemma RoundTrips(E: Env, t: nat, start: Msg, m: Msg, path: seq<nat>)
    requires WfMsg(E, t, m) && Size(E, t, m) < INT_MAX_SPAN && Blank(E, t, start)
    ensures var r := ParseFrom(E, t, start, Enc(E, t, m), 0);
            r.Ok? && r.pos == Size(E, t, m) && See(E, t, r.msg, path) == See(E, t, m, path)
  {
    hide ParseFrom, ApplyAll, RecsOf, Enc, Size, See;
    ParseOwn(E, t, start, m);
    SizeIsLength(E, t, m);
    ReparsedSeen(E, t, start, m, path);
  }

  // ---- presence and bytes of lazy members --------------------------------------------------------------------

  datatype Held = NotLazy | Holds(sub: nat, val: LazyVal)

  /** The lazy member at the end of a path through eager submessages. */
  function HeldAt(E: Env, t: nat, m: Msg, path: seq<nat>): Held
    decreases |path|
  {
    if path == [] || path[0] >= Width(E, t, m) then NotLazy
    else
      match m.cells[path[0]]
      case Lazy(val) =>
        if |path| == 1 && E[t][path[0]].kind.KLazy? then Holds(E[t][path[0]].kind.sub, val) else NotLazy
      case Sub(s) => if E[t][path[0]].kind.KMessage? then HeldAt(E, E[t][path[0]].kind.sub, s, path[1..]) else NotLazy
      case _ => NotLazy
  }

  /** After a round trip a lazy member holds its serialised form, unparsed. */
  function Forwarded(E: Env, u: nat, val: LazyVal): LazyVal
  {
    match val
    case Live(m) => Raw(Enc(E, u, m))
    case _ => val
  }

  predicate SameHeld(E: Env, before: Held, after: Held)
  {
    match before
    case NotLazy => after == NotLazy
    case Holds(u, val) => after == Holds(u, Forwarded(E, u, val))
  }

  lemma {:induction false} ZeroSizeHeld(E: Env, t: nat, m: Msg, start: Msg, path: seq<nat>)
    requires WfMsg(E, t, m) && Size(E, t, m) == 0 && Blank(E, t, start)
    ensures HeldAt(E, t, m, path) == HeldAt(E, t, start, path)
    ensures HeldAt(E, t, m, path) == NotLazy || HeldAt(E, t, m, path).val == Unset
    decreases |path|
  {
    hide Encode, IsZero, ToU64, TagBytes;
    if path != [] && path[0] < |m.cells| {
      var i := path[0];
      assert WfFields(E[t], t, |E|);
      FieldWithin(E, t, m, i, |m.cells|);
      if E[t][i].kind.KMessage? {
        ZeroSizeHeld(E, E[t][i].kind.sub, m.cells[i].msg, start.cells[i].msg, path[1..]);
      }
    }
  }

  /**
    Presence survives the round trip, and unparsed bytes survive it verbatim: a set lazy
    member stays set, an unset one unset, and the payload of an unparsed one is unchanged.
  */
  lemma {:induction false} PresenceSurvives(E: Env, t: nat, start: Msg, m: Msg, path: seq<nat>)
    requires WfMsg(E, t, m) && Size(E, t, m) < INT_MAX_SPAN && Blank(E, t, start)
    ensures var r := ParseFrom(E, t, start, Enc(E, t, m), 0);
            r.Ok? && SameHeld(E, HeldAt(E, t, m, path), HeldAt(E, t, r.msg, path))
    decreases |path|, 1
  {
    hide ParseFrom, ApplyAll, RecsOf, Size, FieldSize, Encode, Enc;
    ParseOwn(E, t, start, m);
    if path != [] && path[0] < |m.cells| {
      var i := path[0];
      assert WfFields(E[t], t, |E|);
      Reparsed(E, t, start, m, i);
      FieldWithin(E, t, m, i, |m.cells|);
      if E[t][i].kind.KMessage? {
        HeldSub(E, t, start, m, path);
      } else if E[t][i].kind.KLazy? {
        HeldLazy(E, E[t][i], m.cells[i], start.cells[i]);
        assert |path| == 1 ==>
          HeldAt(E, t, ApplyAll(E, t, start, RecsOf(E, t, m)), path) ==
          Holds(E[t][i].kind.sub, Forwarded(E, E[t][i].kind.sub, m.cells[i].val));
      }
    }
  }

  lemma {:induction false} HeldSub(E: Env, t: nat, start: Msg, m: Msg, path: seq<nat>)
    requires WfMsg(E, t, m) && Size(E, t, m) < INT_MAX_SPAN && Blank(E, t, start)
    requires path != [] && path[0] < |m.cells| && E[t][path[0]].kind.KMessage?
    ensures SameHeld(E, HeldAt(E, t, m, path), HeldAt(E, t, ApplyAll(E, t, start, RecsOf(E, t, m)), path))
    decreases |path|, 0
  {
    hide ParseFrom, ApplyAll, RecsOf, Size, FieldSize, Encode, Enc;
    var i := path[0];
    assert WfFields(E[t], t, |E|);
    Reparsed(E, t, start, m, i);
    FieldWithin(E, t, m, i, |m.cells|);
    var u, s := E[t][i].kind.sub, m.cells[i].msg;
    SubSize(E, E[t][i], m.cells[i]);
    if FieldSize(E, E[t][i], m.cells[i]) == 0 {
      ZeroSizeHeld(E, u, s, start.cells[i].msg, path[1..]);
    } else {
      ParseOwn(E, u, Default(E, u), s);
      PresenceSurvives(E, u, Default(E, u), s, path[1..]);
    }
  }

  lemma SubSize(E: Env, f: Field, c: Cell)
    requires f.kind.KMessage? && c.Sub?
    ensures Size(E, f.kind.sub, c.msg) <= FieldSize(E, f, c)
    ensures FieldSize(E, f, c) == 0 <==> Size(E, f.kind.sub, c.msg) == 0
    ensures PayloadOf(E, f.kind, c) == PRecords(Encode(Size(E, f.kind.sub, c.msg)), RecsOf(E, f.kind.sub, c.msg), [])
  {
  }

  lemma HeldLazy(E: Env, f: Field, c: Cell, prev: Cell)
    requires f.kind.KLazy? && c.Lazy?
    ensures FieldSize(E, f, c) == 0 <==> c.val == Unset
    ensures FieldSize(E, f, c) > 0 ==>
              CellOf(E, f.kind, prev, PayloadOf(E, f.kind, c)) == Lazy(Forwarded(E, f.kind.sub, c.val))
  {
    hide Encode, Size, RecsOf, Enc;
    if c.val.Live? {
      RecsEncode(E, f.kind.sub, c.val.msg);
      assert EncRecs(RecsOf(E, f.kind.sub, c.val.msg)) + [] == Enc(E, f.kind.sub, c.val.msg);
    }
  }

  /**
    The bits of a fixed-size member survive a round trip exactly when the member is not a
    negative zero of a floating type: `!= 0.0` is false of it, so it is not written.
  */
  lemma FixedBitsSurvive(E: Env, t: nat, start: Msg, m: Msg, i: nat)
    requires WfMsg(E, t, m) && Size(E, t, m) < INT_MAX_SPAN && Blank(E, t, start)
    requires i < |m.cells| && m.cells[i].Fix?
    ensures ParseFrom(E, t, start, Enc(E, t, m), 0).Ok?
    ensures ParseFrom(E, t, start, Enc(E, t, m), 0).msg.cells[i] == m.cells[i] <==>
            !(IsFloat(E[t][i].kind) && NegativeZero(m.cells[i].raw))
  {
    hide ParseFrom, ApplyAll, RecsOf, Size, Enc;
    ParseOwn(E, t, start, m);
    Reparsed(E, t, start, m, i);
    var raw := m.cells[i].raw;
    if NegativeZero(raw) {
      assert raw[|raw| - 1] == 0x80 && Zeros(|raw|)[|raw| - 1] == 0;
    }
  }

  /** Such a value, and what is parsed back: positive zero. */
  lemma NegativeZeroIsLost()
    ensures var E: Env := [[Field(1, KFixed64(true))]];
            var m := Msg([Fix([0, 0, 0, 0, 0, 0, 0, 0x80])]);
            WfMsg(E, 0, m) && ParseFrom(E, 0, Default(E, 0), Enc(E, 0, m), 0) == Ok(Msg([Fix(Zeros(8))]), 0)
  {
    var E: Env := [[Field(1, KFixed64(true))]];
    var raw: seq<byte> := [0, 0, 0, 0, 0, 0, 0, 0x80];
    hide *;
    LostIn(E, Msg([Fix(raw)]), raw);
  }

  lemma LostIn(E: Env, m: Msg, raw: seq<byte>)
    requires |E| == 1 && E[0] == [Field(1, KFixed64(true))]
    requires m == Msg([Fix(raw)]) && raw == [0, 0, 0, 0, 0, 0, 0, 0x80]
    ensures WfMsg(E, 0, m) && ParseFrom(E, 0, Default(E, 0), Enc(E, 0, m), 0) == Ok(Msg([Fix(Zeros(8))]), 0)
  {
    assert raw == Zeros(7) + [0x80];
    assert NegativeZero(raw) && |Zeros(7)| == |raw| - 1;
    assert EncTo(E, 0, m, 0) == [];
    assert EncTo(E, 0, m, 1) == [];
    assert Enc(E, 0, m) == [];
    assert Default(E, 0).cells == [Fix(Zeros(8))];
  }

  // ---- CopyFrom ------------------------------------------------------------------------------------------------

  /** After `CopyFrom` every getter at every depth returns what the source's returns. */
  lemma {:induction false} CopyAgrees(E: Env, t: nat, from: Msg, path: seq<nat>)
    requires WfMsg(E, t, from)
    ensures See(E, t, Copy(E, t, from), path) == See(E, t, from, path)
    decreases |path|
  {
    hide Size;
    if path != [] && path[0] < |from.cells| {
      var i, c := path[0], from.cells[path[0]];
      assert WfFields(E[t], t, |E|);
      if E[t][i].kind.KMessage? {
        var u := E[t][i].kind.sub;
        if Size(E, u, c.msg) > 0 {
          CopyAgrees(E, u, c.msg, path[1..]);
        } else {
          ZeroSizeSeen(E, u, c.msg, path[1..]);
        }
      }
    }
  }

  /** Merging or copying parses lazy members of the source, which changes none of its getters. */
  lemma {:induction false} MergeSourceSeen(E: Env, t: nat, from: Msg, path: seq<nat>)
    requires WfMsg(E, t, from)
    ensures See(E, t, MergeSource(E, t, from), path) == See(E, t, from, path)
    decreases |path|
  {
    hide Size, Decode;
    if path != [] && path[0] < |from.cells| {
      var k, c := E[t][path[0]].kind, from.cells[path[0]];
      if c.Sub? && Size(E, k.sub, c.msg) > 0 {
        MergeSourceSeen(E, k.sub, c.msg, path[1..]);
      }
    }
  }
}
