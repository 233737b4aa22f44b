/**
  `LazyField::Serialize` walks its message twice under its mutex: once for the length prefix,
  once to write, and inside does the same for every submessage. A thread that already holds the
  message (from `Get`) can read nested lazy members in between, which may change sizes. What
  can be written, when every prefix is right, and what the bytes mean then.
*/
module SerializeRace {
  import opened Options
  import opened Varint
  import opened Wire
  import opened Schema
  import opened Codec
  import opened RoundTrip
  import opened Views
  import opened Laziness
  import opened Framing
  import opened Reads
  import opened Walks
  import LazyFields
  import opened ConcurrentReaders
  import opened Schedules

  /** Every length prefix written, inside bodies too, is the length of the body written after it. */
  predicate AllFramed(log: seq<Entry>)
  {
    forall i :: 0 <= i < |log| && log[i].event.WroteMessage? ==> log[i].event.right && log[i].event.size == |log[i].event.body|
  }

  // ---- what the walks see ---------------------------------------------------------------------------------

  lemma ExpectedWf(E: Env, u: nat, s: LazyFields.LazyState)
    requires u < |E| && LazyFields.Inv(E, u, s)
    ensures WfMsg(E, u, Expected(E, u, s))
  {
    hide WfMsg, SameView, Decode, LazyFields.Created;
    LazyFields.CreatedIsDefault(E, u, s);
    DecodeWf(E, u, s.bytes);
  }

  lemma AfterReads(E: Env, u: nat, s: LazyFields.LazyState, touches: seq<seq<nat>>, i: nat, j: nat)
    requires u < |E| && i <= j <= |touches|
    ensures ReadOn(E, u, After(E, u, s, touches, i), After(E, u, s, touches, j))
  {
    hide ReadOn, TouchAll, Expected;
    assert touches[..j] == touches[..i] + touches[i..j];
    TouchAllAppend(E, u, Expected(E, u, s), touches[..i], touches[i..j]);
    TouchAllReadsOn(E, u, After(E, u, s, touches, i), touches[i..j]);
  }

  lemma SnapsAreMoments(E: Env, u: nat, s: LazyFields.LazyState, touches: seq<seq<nat>>, at: seq<nat>)
    requires u < |E| && LazyFields.Inv(E, u, s) && Ordered(at, |touches|) && at != []
    ensures var S := Snaps(E, u, s, touches, at); Moments(E, u, S[0], S, 1) && ReadOn(E, u, Expected(E, u, s), S[0])
  {
    hide ReadOn, WfMsg, After, Expected, LazyFields.Inv;
    var S := Snaps(E, u, s, touches, at);
    ExpectedWf(E, u, s);
    AfterNothing(E, u, s, touches);
    AfterReads(E, u, s, touches, 0, at[0]);
    ReadOnWf(E, u, Expected(E, u, s), S[0]);
    forall j, k | 0 <= j <= k < |S|
      ensures ReadOn(E, u, S[j], S[k])
    {
      AfterReads(E, u, s, touches, at[j], at[k]);
    }
  }

  /** A size computed is that of the message in some state reads can bring it to. */
  lemma SizedMeans(E: Env, u: nat, s: LazyFields.LazyState, touches: seq<seq<nat>>, size: nat, at: seq<nat>) returns (m: Msg)
    requires u < |E| && LazyFields.Inv(E, u, s) && SizedOk(E, u, s, touches, size, at)
    ensures ReadOn(E, u, Expected(E, u, s), m) && size == Size(E, u, m)
  {
    hide ReadOn, WfMsg, SizeWalk, Expected, LazyFields.Inv, Moments, Size, After, Snaps;
    var S := Snaps(E, u, s, touches, at);
    SnapsAreMoments(E, u, s, touches, at);
    SizeMeans(E, u, S[0], S, 1);
    m := SizeOf(E, u, S).saw;
    ReadOnTrans(E, u, Expected(E, u, s), S[0], m);
  }

  /** A body whose prefixes are right is the encoding of the message in such a state. */
  lemma WroteMeans(E: Env, u: nat, s: LazyFields.LazyState, touches: seq<seq<nat>>, body: seq<byte>, right: bool, at: seq<nat>)
    returns (m: Msg)
    requires u < |E| && LazyFields.Inv(E, u, s) && WroteOk(E, u, s, touches, body, right, at)
    ensures ReadOn(E, u, Expected(E, u, s), m) && (right ==> body == Enc(E, u, m))
  {
    hide ReadOn, WfMsg, WriteWalk, Expected, LazyFields.Inv, Moments, Enc, After, Snaps;
    var S := Snaps(E, u, s, touches, at);
    SnapsAreMoments(E, u, s, touches, at);
    WriteMeans(E, u, S[0], S, 1);
    m := WriteOf(E, u, S).saw;
    ReadOnTrans(E, u, Expected(E, u, s), S[0], m);
  }

  /**
    Whatever was read meanwhile: each size is that of the message after some reads, and a body
    with right prefixes is the encoding of the message after some reads (not always after those
    that had happened at any one moment). So it parses to its end, and every getter of the
    receiver shows what a single-threaded `Get` shows.
  */
  lemma BodiesMean(E: Env, u: nat, s: LazyFields.LazyState, n: nat, schedule: seq<Choice>, i: nat, start: Msg, path: seq<nat>)
    requires u < |E| && LazyFields.Inv(E, u, s) && Blank(E, u, start)
    requires i < |Run(E, u, s, Start(s, n), schedule).log| && Run(E, u, s, Start(s, n), schedule).log[i].event.WroteMessage?
    ensures var e := Run(E, u, s, Start(s, n), schedule).log[i].event;
            && (exists paths :: e.size == Size(E, u, TouchAll(E, u, Expected(E, u, s), paths)))
            && (e.right ==> exists paths :: e.body == Enc(E, u, TouchAll(E, u, Expected(E, u, s), paths)))
            && (e.right && |e.body| < INT_MAX_SPAN ==>
                  var r := ParseFrom(E, u, start, e.body, 0);
                  && r.Ok? && r.pos == |e.body|
                  && See(E, u, r.msg, path) == See(E, u, Get(E, u, LazyFields.Abs(s)), path))
  {
    StartOk(E, u, s, n);
    RunOk(E, u, s, Start(s, n), schedule);
    var g := Run(E, u, s, Start(s, n), schedule);
    hide Run, ReadOn, Expected, LazyFields.Inv, Size, Enc, See, TouchAll, ParseFrom, SharedOk, ThreadOk, SizedOk, WroteOk, Blank;
    var e := g.log[i].event;
    assert EventOk(E, u, s, g.touches, e);
    var x := Expected(E, u, s);
    var sized := SizedMeans(E, u, s, g.touches, e.size, e.sizedAt);
    var a := ReadByTouches(E, u, x, sized);
    var wrote := WroteMeans(E, u, s, g.touches, e.body, e.right, e.wroteAt);
    var b := ReadByTouches(E, u, x, wrote);
    if e.right && |e.body| < INT_MAX_SPAN { ReceiverSees(E, u, s, wrote, start, path); }
  }

  /** What `ByteSizeLong` returns, of a parsed message, is what its `Serialize` would write after some reads, prefix included. */
  lemma SizesMean(E: Env, u: nat, s: LazyFields.LazyState, n: nat, schedule: seq<Choice>, i: nat)
    requires u < |E| && LazyFields.Inv(E, u, s)
    requires i < |Run(E, u, s, Start(s, n), schedule).log| && Run(E, u, s, Start(s, n), schedule).log[i].event.SizedMessage?
    ensures var e := Run(E, u, s, Start(s, n), schedule).log[i].event;
            exists paths :: e.total == |EncLazy(E, KLazy(u), Live(TouchAll(E, u, Expected(E, u, s), paths)))|
  {
    StartOk(E, u, s, n);
    RunOk(E, u, s, Start(s, n), schedule);
    var g := Run(E, u, s, Start(s, n), schedule);
    hide Run, ReadOn, Expected, LazyFields.Inv, Size, Enc, TouchAll, SharedOk, ThreadOk, SizedOk, WroteOk, EncLazy;
    var e := g.log[i].event;
    assert EventOk(E, u, s, g.touches, e);
    var sized := SizedMeans(E, u, s, g.touches, e.size, e.sizedAt);
    var paths := ReadByTouches(E, u, Expected(E, u, s), sized);
    LiveTotal(E, u, sized);
  }

  lemma LiveTotal(E: Env, u: nat, m: Msg)
    ensures |EncLazy(E, KLazy(u), Live(m))| == Framed(Size(E, u, m))
  {
    hide Size, Enc, Encode;
    SizeIsLength(E, u, m);
  }

  lemma ReceiverSees(E: Env, u: nat, s: LazyFields.LazyState, m: Msg, start: Msg, path: seq<nat>)
    requires u < |E| && LazyFields.Inv(E, u, s) && ReadOn(E, u, Expected(E, u, s), m) && |Enc(E, u, m)| < INT_MAX_SPAN && Blank(E, u, start)
    ensures var r := ParseFrom(E, u, start, Enc(E, u, m), 0);
            && r.Ok? && r.pos == |Enc(E, u, m)|
            && See(E, u, r.msg, path) == See(E, u, Get(E, u, LazyFields.Abs(s)), path)
  {
    ExpectedWf(E, u, s);
    ReadersAreSafe(E, u, s, 0, []);
    hide ReadOn, Expected, LazyFields.Inv, Size, Enc, See, ParseFrom, Blank, LazyFields.Abs, Run, LogOk, WfMsg;
    ReadOnWf(E, u, Expected(E, u, s), m);
    ReadOnSeen(E, u, Expected(E, u, s), m, path);
    SizeIsLength(E, u, m);
    RoundTrips(E, u, start, m, path);
  }

  // ---- no race ------------------------------------------------------------------------------------------

  lemma StableFramed(E: Env, u: nat, s: LazyFields.LazyState, n: nat, schedule: seq<Choice>)
    requires u < |E| && LazyFields.Inv(E, u, s) && (!s.hasValue || SameSizes(E, u, Expected(E, u, s)))
    ensures AllFramed(Run(E, u, s, Start(s, n), schedule).log)
  {
    StartOk(E, u, s, n);
    RunOk(E, u, s, Start(s, n), schedule);
    hide Run, LazyFields.Inv, Expected, SameSizes, SizedOk, WroteOk;
    var g := Run(E, u, s, Start(s, n), schedule);
    forall i | 0 <= i < |g.log| && g.log[i].event.WroteMessage?
      ensures g.log[i].event.right && g.log[i].event.size == |g.log[i].event.body|
    {
      assert EventOk(E, u, s, g.touches, g.log[i].event);
      StableEvent(E, u, s, g.touches, g.log[i].event);
    }
  }

  lemma StableEvent(E: Env, u: nat, s: LazyFields.LazyState, touches: seq<seq<nat>>, e: Event)
    requires u < |E| && LazyFields.Inv(E, u, s) && SameSizes(E, u, Expected(E, u, s)) && e.WroteMessage?
    requires SizedOk(E, u, s, touches, e.size, e.sizedAt) && WroteOk(E, u, s, touches, e.body, e.right, e.wroteAt)
    ensures e.right && e.size == |e.body|
  {
    hide ReadOn, WfMsg, WriteWalk, Expected, LazyFields.Inv, Moments, Enc, After, SameSizes, Size, Snaps, SizeOf;
    var x := Expected(E, u, s);
    var S := Snaps(E, u, s, touches, e.wroteAt);
    SnapsAreMoments(E, u, s, touches, e.wroteAt);
    ReadOnSameSizes(E, u, x, S[0]);
    StableRight(E, u, S[0], S, 1);
    var sized := SizedMeans(E, u, s, touches, e.size, e.sizedAt);
    var wrote := WroteMeans(E, u, s, touches, e.body, e.right, e.wroteAt);
    ReadOnSize(E, u, x, sized);
    ReadOnSize(E, u, x, wrote);
    SizeIsLength(E, u, wrote);
  }

  predicate AllNow(at: seq<nat>, now: nat)
  {
    forall k :: 0 <= k < |at| ==> at[k] == now
  }

  /** All looks of both walks at one moment. */
  ghost predicate OneMoment(sizedAt: seq<nat>, wroteAt: seq<nat>)
  {
    exists now :: AllNow(sizedAt, now) && AllNow(wroteAt, now)
  }

  /** A single thread reads nothing during its walks. */
  ghost predicate Alone(g: Config)
  {
    && |g.threads| <= 1
    && (|g.threads| == 1 && g.threads[0].SizeWalking? ==> AllNow(g.threads[0].at, |g.touches|))
    && (|g.threads| == 1 && g.threads[0].WriteWalking? ==>
          AllNow(g.threads[0].sizedAt, |g.touches|) && AllNow(g.threads[0].at, |g.touches|))
    && forall i :: 0 <= i < |g.log| && g.log[i].event.WroteMessage? ==> OneMoment(g.log[i].event.sizedAt, g.log[i].event.wroteAt)
  }

  lemma AloneStep(E: Env, u: nat, s: LazyFields.LazyState, g: Config, ch: Choice)
    requires u < |E| && Alone(g)
    ensures Alone(Step(E, u, s, g, ch))
  {
    hide ParseFrom, Default, LazyFields.Created, Touch, See, LazyFields.Abs, EncLazy, LazySize, WalkStep;
    if ch.thread < |g.threads| {
      if InParse(g.threads[ch.thread]) {
        hide FreeStep;
      } else if InWalk(g.threads[ch.thread]) {
        hide ParseStep, FreeStep, Alone;
        AloneWalk(E, u, s, g);
      } else {
        hide ParseStep;
      }
    }
  }

  lemma AloneWalk(E: Env, u: nat, s: LazyFields.LazyState, g: Config)
    requires u < |E| && |g.threads| == 1 && Alone(g)
    ensures Alone(WalkStep(E, u, s, g, 0))
  {
    hide SizeOf, WriteOf, LazyFields.Abs, EncLazy, LazySize;
  }

  lemma {:induction false} AloneRun(E: Env, u: nat, s: LazyFields.LazyState, g: Config, schedule: seq<Choice>)
    requires u < |E| && Alone(g)
    ensures Alone(Run(E, u, s, g, schedule))
    decreases |schedule|
  {
    hide Step, Alone;
    if schedule != [] {
      AloneStep(E, u, s, g, schedule[0]);
      AloneRun(E, u, s, Step(E, u, s, g, schedule[0]), schedule[1..]);
    }
  }

  lemma AloneFramed(E: Env, u: nat, s: LazyFields.LazyState, n: nat, schedule: seq<Choice>)
    requires u < |E| && LazyFields.Inv(E, u, s) && n <= 1
    ensures AllFramed(Run(E, u, s, Start(s, n), schedule).log)
  {
    StartOk(E, u, s, n);
    RunOk(E, u, s, Start(s, n), schedule);
    AloneRun(E, u, s, Start(s, n), schedule);
    hide Run, LazyFields.Inv, Expected, SizedOk, WroteOk;
    var g := Run(E, u, s, Start(s, n), schedule);
    forall i | 0 <= i < |g.log| && g.log[i].event.WroteMessage?
      ensures g.log[i].event.right && g.log[i].event.size == |g.log[i].event.body|
    {
      assert EventOk(E, u, s, g.touches, g.log[i].event);
      StillEvent(E, u, s, g.touches, g.log[i].event);
    }
  }

  lemma StillEvent(E: Env, u: nat, s: LazyFields.LazyState, touches: seq<seq<nat>>, e: Event)
    requires u < |E| && e.WroteMessage? && OneMoment(e.sizedAt, e.wroteAt)
    requires SizedOk(E, u, s, touches, e.size, e.sizedAt) && WroteOk(E, u, s, touches, e.body, e.right, e.wroteAt)
    ensures e.right && e.size == |e.body|
  {
    hide SizeWalk, WriteWalk, Size, Enc, After, SizeLooks, WriteLooks;
    assert e.sizedAt != [] && e.wroteAt != [];
    var S, W := Snaps(E, u, s, touches, e.sizedAt), Snaps(E, u, s, touches, e.wroteAt);
    var now :| AllNow(e.sizedAt, now) && AllNow(e.wroteAt, now);
    assert S[0] == W[0] == After(E, u, s, touches, now);
    SizeStillDone(E, u, S[0], S, 1);
    WriteStillDone(E, u, W[0], W, 1);
    SizeIsLength(E, u, S[0]);
  }

  // ---- the race -----------------------------------------------------------------------------------------

  /** In particular nothing stops a thread from reading `paths` between two walks that see nothing else. */
  lemma Race(E: Env, u: nat, s: LazyFields.LazyState, n: nat, paths: seq<seq<nat>>) returns (schedule: seq<Choice>, e: Event)
    requires u < |E| && LazyFields.Inv(E, u, s) && s.hasValue && n >= 2
    ensures Entry(0, e) in Run(E, u, s, Start(s, n), schedule).log && e.WroteMessage?
    ensures e.size == Size(E, u, Expected(E, u, s)) && e.body == Enc(E, u, TouchAll(E, u, Expected(E, u, s), paths))
  {
    hide LazyFields.Inv, Run, Expected, TouchAll, Size, Enc, SizeLooks, WriteLooks, SizeWalk, WriteWalk;
    var x, y := Expected(E, u, s), TouchAll(E, u, Expected(E, u, s), paths);
    var sizedAt := seq(SizeLooks(E, u, x) + 1, _ => 0);
    var wroteAt := seq(WriteLooks(E, u, y) + 1, _ => |paths|);
    AfterNothing(E, u, s, paths);
    assert paths[..|paths|] == paths;
    var S, W := Snaps(E, u, s, paths, sizedAt), Snaps(E, u, s, paths, wroteAt);
    SizeStill(E, u, x, S, 1);
    WriteStill(E, u, y, W, 1);
    schedule := EveryWalkHappens(E, u, s, n, paths, sizedAt, wroteAt);
    e := WroteMessage(SizeOf(E, u, S).size, WriteOf(E, u, W).out, WriteOf(E, u, W).right, sizedAt, wroteAt);
  }

  // ---- exactly when ----------------------------------------------------------------------------------------

  /**
    The prefixes `Serialize` writes, inside its message too, are right in every interleaving
    exactly when nothing is set, a single thread runs, or every payload still unparsed in the
    message, at any depth, re-encodes to as many bytes as it has.
  */
  lemma PrefixesRightExactly(E: Env, u: nat, s: LazyFields.LazyState, n: nat)
    requires u < |E| && LazyFields.Inv(E, u, s) && Size(E, u, Expected(E, u, s)) < INT_MAX_SPAN
    ensures (forall schedule :: AllFramed(Run(E, u, s, Start(s, n), schedule).log)) <==>
            !s.hasValue || n <= 1 || SameSizes(E, u, Expected(E, u, s))
  {
    hide LazyFields.Inv, Run, Size, Enc, TouchAll, Expected, SameSizes, Start;
    if !s.hasValue || SameSizes(E, u, Expected(E, u, s)) {
      forall schedule: seq<Choice>
        ensures AllFramed(Run(E, u, s, Start(s, n), schedule).log)
      {
        StableFramed(E, u, s, n, schedule);
      }
    } else if n <= 1 {
      forall schedule: seq<Choice>
        ensures AllFramed(Run(E, u, s, Start(s, n), schedule).log)
      {
        AloneFramed(E, u, s, n, schedule);
      }
    } else {
      var x := Expected(E, u, s);
      var paths := SizeCanChange(E, u, x);
      var schedule, e := Race(E, u, s, n, paths);
      SizeIsLength(E, u, TouchAll(E, u, x, paths));
      assert !AllFramed(Run(E, u, s, Start(s, n), schedule).log);
    }
  }

  // ---- two races --------------------------------------------------------------------------------------------

  /** A nested member holding a padded zero, read between the walks: a prefix of 5 before 2 bytes. */
  lemma PrefixOfFiveBodyOfTwo() returns (schedule: seq<Choice>, e: Event)
    ensures var E: Env := [[Field(1, KVarint(Int32))], [Field(1, KLazy(0))]];
            var s := Holding(Msg([Lazy(Raw([0x08, 0x80, 0x00]))]));
            && LazyFields.Inv(E, 1, s) && Entry(0, e) in Run(E, 1, s, Start(s, 2), schedule).log
            && e.WroteMessage? && e.size == 5 && |e.body| == 2
  {
    var E: Env := [[Field(1, KVarint(Int32))], [Field(1, KLazy(0))]];
    var bytes: seq<byte> := [0x08, 0x80, 0x00];
    hide *;
    schedule, e := RacedIn(E, bytes, Holding(Msg([Lazy(Raw(bytes))])));
  }

  /** A field edited through `Mutable`. */
  function Holding(m: Msg): LazyFields.LazyState
  {
    LazyFields.LazyState(LazyFields.DIRTY, [], Some(m), true, None, false)
  }

  lemma RacedIn(E: Env, bytes: seq<byte>, s: LazyFields.LazyState) returns (schedule: seq<Choice>, e: Event)
    requires |E| == 2 && E[0] == [Field(1, KVarint(Int32))] && E[1] == [Field(1, KLazy(0))] && bytes == [0x08, 0x80, 0x00]
    requires s == Holding(Msg([Lazy(Raw(bytes))]))
    ensures LazyFields.Inv(E, 1, s) && Entry(0, e) in Run(E, 1, s, Start(s, 2), schedule).log
    ensures e.WroteMessage? && e.size == 5 && |e.body| == 2
  {
    hide *;
    var m := Msg([Lazy(Raw(bytes))]);
    RacedWf(E, m);
    HoldingState(E, m);
    RacedSizes(E, bytes, m);
    schedule, e := Race(E, 1, s, 2, [[0]]);
    SizeIsLength(E, 1, TouchAll(E, 1, m, [[0]]));
  }

  lemma RacedWf(E: Env, m: Msg)
    requires |E| == 2 && E[1] == [Field(1, KLazy(0))] && |m.cells| == 1 && m.cells[0].Lazy? && m.cells[0].val.Raw?
    ensures WfMsg(E, 1, m)
  {
  }

  lemma HoldingState(E: Env, m: Msg)
    requires |E| == 2 && WfMsg(E, 1, m)
    ensures LazyFields.Inv(E, 1, Holding(m)) && Expected(E, 1, Holding(m)) == m && Holding(m).hasValue
  {
    hide WfMsg;
  }

  lemma RacedSizes(E: Env, bytes: seq<byte>, m: Msg)
    requires |E| == 2 && E[0] == [Field(1, KVarint(Int32))] && E[1] == [Field(1, KLazy(0))]
    requires bytes == [0x08, 0x80, 0x00] && m == Msg([Lazy(Raw(bytes))])
    ensures Size(E, 1, m) == 5 && Size(E, 1, TouchAll(E, 1, m, [[0]])) == 2
  {
    hide Decode, Size, Encode, Tag;
    DecodesPadded(E, bytes);
    var d := Decode(E, 0, bytes);
    var paths: seq<seq<nat>> := [[0]];
    assert paths[..0] == [];
    assert TouchAll(E, 1, m, []) == m;
    assert Touch(E, 1, m, [0]).cells == [Lazy(Live(d))];
    OneMember(E, 0, d);
    OneMember(E, 1, m);
    OneMember(E, 1, Touch(E, 1, m, [0]));
    TagValue(E[1][0]);
    EncodeLength(10);
    EncodeLength(3);
    EncodeLength(0);
  }

  /**
    Two nested members holding padded zeros, both read while `Serialize` is between them: the
    first is written as it was, the second as it is, and the body is the message's encoding at
    no moment. (It is its encoding after the second read alone.)
  */
  lemma BodyOfNoMoment() returns (schedule: seq<Choice>, e: Event)
    ensures var E: Env := [[Field(1, KVarint(Int32))], [Field(1, KLazy(0)), Field(2, KLazy(0))]];
            var m := Msg([Lazy(Raw([0x08, 0x80, 0x00])), Lazy(Raw([0x08, 0x80, 0x00]))]);
            && LazyFields.Inv(E, 1, Holding(m)) && Entry(0, e) in Run(E, 1, Holding(m), Start(Holding(m), 2), schedule).log
            && e.WroteMessage? && e.body == [0x0a, 3, 0x08, 0x80, 0x00, 0x12, 0]
            && forall k :: 0 <= k <= 2 ==> e.body != Enc(E, 1, TouchAll(E, 1, m, [[0], [1]][..k]))
  {
    var E: Env := [[Field(1, KVarint(Int32))], [Field(1, KLazy(0)), Field(2, KLazy(0))]];
    var bytes: seq<byte> := [0x08, 0x80, 0x00];
    hide *;
    schedule, e := MixedIn(E, bytes, Msg([Lazy(Raw(bytes)), Lazy(Raw(bytes))]), [[0], [1]]);
  }

  predicate TwoLazy(E: Env, bytes: seq<byte>)
  {
    && |E| == 2 && E[0] == [Field(1, KVarint(Int32))] && E[1] == [Field(1, KLazy(0)), Field(2, KLazy(0))]
    && bytes == [0x08, 0x80, 0x00]
  }

  lemma MixedIn(E: Env, bytes: seq<byte>, m: Msg, paths: seq<seq<nat>>) returns (schedule: seq<Choice>, e: Event)
    requires |E| == 2 && E[0] == [Field(1, KVarint(Int32))] && E[1] == [Field(1, KLazy(0)), Field(2, KLazy(0))]
    requires bytes == [0x08, 0x80, 0x00] && m == Msg([Lazy(Raw(bytes)), Lazy(Raw(bytes))]) && paths == [[0], [1]]
    ensures LazyFields.Inv(E, 1, Holding(m)) && Entry(0, e) in Run(E, 1, Holding(m), Start(Holding(m), 2), schedule).log
    ensures e.WroteMessage? && e.body == [0x0a, 3, 0x08, 0x80, 0x00, 0x12, 0]
    ensures forall k :: 0 <= k <= 2 ==> e.body != Enc(E, 1, TouchAll(E, 1, m, paths[..k]))
  {
    hide *;
    TwoLazyHere(E, bytes);
    schedule, e := MixedRun(E, bytes, m, paths);
  }

  lemma TwoLazyHere(E: Env, bytes: seq<byte>)
    requires |E| == 2 && E[0] == [Field(1, KVarint(Int32))] && E[1] == [Field(1, KLazy(0)), Field(2, KLazy(0))]
    requires bytes == [0x08, 0x80, 0x00]
    ensures TwoLazy(E, bytes)
  {
  }

  lemma MixedRun(E: Env, bytes: seq<byte>, m: Msg, paths: seq<seq<nat>>) returns (schedule: seq<Choice>, e: Event)
    requires TwoLazy(E, bytes) && |E| == 2 && m == Msg([Lazy(Raw(bytes)), Lazy(Raw(bytes))]) && paths == [[0], [1]]
    ensures LazyFields.Inv(E, 1, Holding(m)) && Entry(0, e) in Run(E, 1, Holding(m), Start(Holding(m), 2), schedule).log
    ensures e.WroteMessage? && e.body == [0x0a, 3, 0x08, 0x80, 0x00, 0x12, 0]
    ensures forall k :: 0 <= k <= 2 ==> e.body != Enc(E, 1, TouchAll(E, 1, m, paths[..k]))
  {
    hide *;
    var s := Holding(m);
    var sizedAt, wroteAt: seq<nat> := [0, 0, 0], [0, 0, 0, 2, 2];
    var d := MixedStates(E, bytes, m, paths);
    HoldingState(E, m);
    var S, W := MixedSnaps(E, s, m, paths, sizedAt, wroteAt);
    MixedWalks(E, bytes, m, d, TouchAll(E, 1, m, paths), S, W);
    schedule := EveryWalkHappens(E, 1, s, 2, paths, sizedAt, wroteAt);
    e := WroteMessage(SizeOf(E, 1, S).size, WriteOf(E, 1, W).out, WriteOf(E, 1, W).right, sizedAt, wroteAt);
    MixedBytes(E, bytes, d);
    NoMoment(E, bytes, m, d, paths, e.body);
  }

  lemma NoMoment(E: Env, bytes: seq<byte>, m: Msg, d: Msg, paths: seq<seq<nat>>, body: seq<byte>)
    requires TwoLazy(E, bytes) && d == Msg([Num(0)]) && |paths| == 2
    requires m == Msg([Lazy(Raw(bytes)), Lazy(Raw(bytes))]) == TouchAll(E, 1, m, paths[..0])
    requires TouchAll(E, 1, m, paths[..1]) == Msg([Lazy(Live(d)), Lazy(Raw(bytes))])
    requires TouchAll(E, 1, m, paths[..2]) == Msg([Lazy(Live(d)), Lazy(Live(d))])
    requires |body| == 7 && body[1] == 3
    ensures forall k :: 0 <= k <= 2 ==> body != Enc(E, 1, TouchAll(E, 1, m, paths[..k]))
  {
    hide *;
    MixedBytes(E, bytes, d);
    assert body != Enc(E, 1, TouchAll(E, 1, m, paths[..0]));
    assert body != Enc(E, 1, TouchAll(E, 1, m, paths[..1]));
    assert body != Enc(E, 1, TouchAll(E, 1, m, paths[..2]));
  }

  /** The message at the three moments. */
  lemma MixedStates(E: Env, bytes: seq<byte>, m: Msg, paths: seq<seq<nat>>) returns (d: Msg)
    requires TwoLazy(E, bytes) && m == Msg([Lazy(Raw(bytes)), Lazy(Raw(bytes))]) && paths == [[0], [1]]
    ensures d == Msg([Num(0)]) && WfMsg(E, 1, m)
    ensures TouchAll(E, 1, m, paths[..0]) == m
    ensures TouchAll(E, 1, m, paths[..1]) == Msg([Lazy(Live(d)), Lazy(Raw(bytes))])
    ensures TouchAll(E, 1, m, paths[..2]) == TouchAll(E, 1, m, paths) == Msg([Lazy(Live(d)), Lazy(Live(d))])
  {
    DecodesPadded(E, bytes);
    hide Decode;
    d := Decode(E, 0, bytes);
    var one := Msg([Lazy(Live(d)), Lazy(Raw(bytes))]);
    assert paths[..2] == paths && paths[..2][..1] == paths[..1] && paths[..1][..0] == paths[..0] == [];
    var p, q: seq<nat> := [0], [1];
    assert p[1..] == [] && q[1..] == [];
    assert Touch(E, 0, d, []) == d;
    assert Touch(E, 1, m, p).cells == one.cells;
    assert Touch(E, 1, one, q).cells == [Lazy(Live(d)), Lazy(Live(d))];
    assert TouchAll(E, 1, m, paths[..1]) == Touch(E, 1, TouchAll(E, 1, m, []), p);
    assert TouchAll(E, 1, m, paths[..2]) == Touch(E, 1, TouchAll(E, 1, m, paths[..1]), q);
  }

  lemma MixedSnaps(E: Env, s: LazyFields.LazyState, m: Msg, paths: seq<seq<nat>>, sizedAt: seq<nat>, wroteAt: seq<nat>)
    returns (S: seq<Msg>, W: seq<Msg>)
    requires |E| == 2 && |paths| == 2 && Expected(E, 1, s) == m && sizedAt == [0, 0, 0] && wroteAt == [0, 0, 0, 2, 2]
    ensures Ordered(sizedAt, |paths|) && Ordered(wroteAt, |paths|)
    ensures S == Snaps(E, 1, s, paths, sizedAt) == [m, m, m]
    ensures W == Snaps(E, 1, s, paths, wroteAt) == [m, m, m, TouchAll(E, 1, m, paths), TouchAll(E, 1, m, paths)]
  {
    hide Expected, TouchAll;
    AfterNothing(E, 1, s, paths);
    assert paths[..2] == paths;
    S, W := Snaps(E, 1, s, paths, sizedAt), Snaps(E, 1, s, paths, wroteAt);
  }

  lemma MixedWalks(E: Env, bytes: seq<byte>, m: Msg, d: Msg, n: Msg, S: seq<Msg>, W: seq<Msg>)
    requires TwoLazy(E, bytes) && m == Msg([Lazy(Raw(bytes)), Lazy(Raw(bytes))]) && d == Msg([Num(0)])
    requires n == Msg([Lazy(Live(d)), Lazy(Live(d))]) && S == [m, m, m] && W == [m, m, m, n, n]
    ensures SizeOf(E, 1, S).used == 3 && WriteOf(E, 1, W).used == 5
    ensures WriteOf(E, 1, W).out == EncField(E, E[1][0], Lazy(Raw(bytes))) + EncField(E, E[1][1], Lazy(Live(d)))
  {
    FlatLooks(E, d);
    TwoLooks(E, m);
    LazyLooks(E, bytes, d);
    hide *;
    StillHere(m, S, 1);
    SizeStill(E, 1, m, S, 1);
    OfFirst(E, S);
    OfFirst(E, W);
    assert W[..3] == S;
    FieldWriteStill(E, 1, m, 0, S, 1);
    FieldWriteExtends(E, 1, 0, m.cells[0], W, 3, 1);
    StillHere(n, W, 3);
    FieldWriteStill(E, 1, n, 1, W, 3);
    LazyAnyway(E, 1, 1, m.cells[1], n.cells[1], W, 3);
    TwoMembers(E, m, W);
  }

  lemma FlatLooks(E: Env, d: Msg)
    requires |E| > 0 && E[0] == [Field(1, KVarint(Int32))] && d == Msg([Num(0)])
    ensures SizeLooks(E, 0, d) == 0 && WriteLooks(E, 0, d) == 0
  {
    assert SizeLooksTo(E, 0, d, 0) == SizeLooksTo(E, 0, d, 1) == 0;
    assert WriteLooksTo(E, 0, d, 0) == WriteLooksTo(E, 0, d, 1) == 0;
  }

  lemma TwoLooks(E: Env, m: Msg)
    requires |E| == 2 && E[1] == [Field(1, KLazy(0)), Field(2, KLazy(0))]
    requires |m.cells| == 2 && (forall i :: 0 <= i < 2 ==> m.cells[i].Lazy? && m.cells[i].val.Raw?)
    ensures SizeLooks(E, 1, m) == 2 && Width(E, 1, m) == 2
  {
    assert SizeLooksTo(E, 1, m, 0) == 0;
    assert SizeLooksTo(E, 1, m, 1) == 1;
    assert SizeLooksTo(E, 1, m, 2) == 2;
  }

  lemma LazyLooks(E: Env, bytes: seq<byte>, d: Msg)
    requires |E| > 0 && SizeLooks(E, 0, d) == 0 && WriteLooks(E, 0, d) == 0
    ensures FieldWriteLooks(E, KLazy(0), Lazy(Raw(bytes))) == 2 == FieldWriteLooks(E, KLazy(0), Lazy(Live(d)))
  {
    hide SizeLooks, WriteLooks, Size, Encode;
    EncodeNotEmpty(|bytes| % TWO32);
    EncodeNotEmpty(Size(E, 0, d) % TWO32);
    assert LazySize(E, KLazy(0), Raw(bytes)) > 0 && LazySize(E, KLazy(0), Live(d)) > 0;
  }

  lemma StillHere(m: Msg, S: seq<Msg>, at: nat)
    requires forall k :: at <= k < |S| ==> S[k] == m
    ensures Still(m, S, at)
  {
  }

  lemma OfFirst(E: Env, S: seq<Msg>)
    requires S != []
    ensures SizeOf(E, 1, S) == SizeWalk(E, 1, S[0], S, 1) && WriteOf(E, 1, S) == WriteWalk(E, 1, S[0], S, 1)
  {
  }

  /** What a walk does at a lazy member depends on what it finds there only. */
  lemma LazyAnyway(E: Env, t: nat, i: nat, c: Cell, d: Cell, S: seq<Msg>, at: nat)
    requires t < |E| && i < |E[t]| && at <= |S| + 1 && c.Lazy? && d.Lazy?
    ensures FieldWriteWalk(E, t, i, c, S, at) == FieldWriteWalk(E, t, i, d, S, at)
  {
    hide LazySizeWalk, LazyWriteWalk, Tag, Encode;
  }

  lemma TwoMembers(E: Env, m: Msg, W: seq<Msg>)
    requires |E| == 2 && Width(E, 1, m) == 2 && |m.cells| == 2 && W != []
    ensures var a := FieldWriteWalk(E, 1, 0, m.cells[0], W, 1);
            var b := FieldWriteWalk(E, 1, 1, m.cells[1], W, a.used);
            var r := WriteWalk(E, 1, m, W, 1);
            r.out == a.out + b.out && r.used == b.used
  {
    hide FieldWriteWalk;
    var a := FieldWriteWalk(E, 1, 0, m.cells[0], W, 1);
    assert WriteWalkTo(E, 1, m, W, 1, 0) == Writing([], [], 1, true);
    var one := WriteWalkTo(E, 1, m, W, 1, 1);
    assert one.out == [] + a.out == a.out && one.used == a.used;
  }

  /** The bytes of these members, and of the whole message at the three moments. */
  lemma MixedBytes(E: Env, bytes: seq<byte>, d: Msg)
    requires TwoLazy(E, bytes) && d == Msg([Num(0)])
    ensures EncField(E, E[1][0], Lazy(Raw(bytes))) + EncField(E, E[1][1], Lazy(Live(d))) == [0x0a, 3, 0x08, 0x80, 0x00, 0x12, 0]
    ensures |Enc(E, 1, Msg([Lazy(Raw(bytes)), Lazy(Raw(bytes))]))| == 10
    ensures var b := Enc(E, 1, Msg([Lazy(Live(d)), Lazy(Raw(bytes))])); |b| > 1 && b[1] == 0
    ensures |Enc(E, 1, Msg([Lazy(Live(d)), Lazy(Live(d))]))| == 4
  {
    hide *;
    TwoTags(E, bytes, d);
    LazyBytes(E, E[1][0], Raw(bytes));
    LazyBytes(E, E[1][1], Raw(bytes));
    LazyBytes(E, E[1][0], Live(d));
    LazyBytes(E, E[1][1], Live(d));
    EncTwo(E, Lazy(Raw(bytes)), Lazy(Raw(bytes)));
    EncTwo(E, Lazy(Live(d)), Lazy(Raw(bytes)));
    EncTwo(E, Lazy(Live(d)), Lazy(Live(d)));
  }

  lemma TwoTags(E: Env, bytes: seq<byte>, d: Msg)
    requires TwoLazy(E, bytes) && d == Msg([Num(0)])
    ensures |E| == 2 && |E[1]| == 2 && E[1][0].kind == E[1][1].kind == KLazy(0)
    ensures TagBytes(E[1][0]) == [10] && TagBytes(E[1][1]) == [18]
    ensures EncLazy(E, KLazy(0), Raw(bytes)) == [3, 0x08, 0x80, 0x00] && EncLazy(E, KLazy(0), Live(d)) == [0]
  {
    ShortForms(E, 0, bytes, d);
    hide Tag, EncLazy;
    TagValue(E[1][0]);
    TagValue(E[1][1]);
  }

  lemma LazyBytes(E: Env, f: Field, val: LazyVal)
    requires f.kind.KLazy? && |EncLazy(E, f.kind, val)| > 0
    ensures EncField(E, f, Lazy(val)) == TagBytes(f) + EncLazy(E, f.kind, val)
  {
    hide EncLazy, LazySize, Tag;
    FieldSizeIsLength(E, f, Lazy(val));
  }

  lemma EncTwo(E: Env, a: Cell, b: Cell)
    requires |E| == 2 && |E[1]| == 2
    ensures Enc(E, 1, Msg([a, b])) == EncField(E, E[1][0], a) + EncField(E, E[1][1], b)
  {
    hide EncField;
    var m := Msg([a, b]);
    assert EncTo(E, 1, m, 0) == [];
    assert EncTo(E, 1, m, 1) == EncField(E, E[1][0], a);
    assert Enc(E, 1, m) == EncTo(E, 1, m, 2);
  }
}
