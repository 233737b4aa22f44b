/**
  Schedules of two threads, built step by step: one serialises a lazy field, the other reads
  through its message in between. They show that every pair of walks the invariant allows does
  happen.
*/
module Schedules {
  import opened Options
  import opened Schema
  import opened Codec
  import opened Laziness
  import opened Walks
  import LazyFields
  import opened ConcurrentReaders

  lemma {:induction false} RunAppend(E: Env, u: nat, s: LazyFields.LazyState, g: Config, a: seq<Choice>, b: seq<Choice>)
    requires u < |E|
    ensures Run(E, u, s, g, a + b) == Run(E, u, s, Run(E, u, s, g, a), b)
    decreases |a|
  {
    hide Step;
    if a == [] {
      assert a + b == b;
    } else {
      assert (a + b)[1..] == a[1..] + b;
      RunAppend(E, u, s, Step(E, u, s, g, a[0]), a[1..], b);
    }
  }

  lemma RunOne(E: Env, u: nat, s: LazyFields.LazyState, g: Config, ch: Choice)
    requires u < |E|
    ensures Run(E, u, s, g, [ch]) == Step(E, u, s, g, ch)
  {
    hide Step;
    assert [ch][1..] == [];
  }

  /** Steps left in a call of `IsInitialized` that has started to parse. */
  function Left(pc: Pc): nat
  {
    match pc
    case TestParsed(_) => 10
    case AwaitParseLock(_) => 9
    case TestMessage(_) => 8
    case TestState(_) => 7
    case StartParse(_) => 6
    case Parsing(_) => 5
    case ClearMessage(_) => 4
    case Publish(_) => 3
    case Unlock(_) => 2
    case Use(_) => 1
    case _ => 0
  }

  /** Thread `t` is in such a call, and no other thread holds the mutex. */
  predicate Initializing(g: Config, t: nat)
  {
    && t < |g.threads| && (g.lock.None? || g.lock == Some(t))
    && Left(g.threads[t]) > 0 && g.threads[t].c == CallIsInitialized
  }

  lemma InitParse(E: Env, u: nat, s: LazyFields.LazyState, g: Config, t: nat, junk: Msg)
    requires u < |E| && Initializing(g, t) && InParse(g.threads[t])
    ensures var g' := ParseStep(E, u, s, g, t, junk);
            && g'.touches == g.touches && g'.threads == g.threads[t := g'.threads[t]]
            && Initializing(g', t) && Left(g'.threads[t]) < Left(g.threads[t])
  {
    hide ParseFrom, Default, LazyFields.Created;
  }

  lemma InitFree(E: Env, u: nat, s: LazyFields.LazyState, g: Config, t: nat, call: Call)
    requires u < |E| && Initializing(g, t) && !InParse(g.threads[t])
    requires g.threads[t].Use? ==> g.message.Some? && g.state != LazyFields.UNPARSED && g.lock.None?
    ensures var g' := FreeStep(E, u, s, g, t, call);
            && g'.touches == g.touches && g'.threads == g.threads[t := g'.threads[t]]
            && if g.threads[t].Use? then g'.threads[t] == Idle && g'.lock.None? && g'.state != LazyFields.UNPARSED
               else g.lock.None? ==> Initializing(g', t) && Left(g'.threads[t]) < Left(g.threads[t])
  {
    hide Touch, See;
  }

  lemma InitStep(E: Env, u: nat, s: LazyFields.LazyState, g: Config, ch: Choice)
    requires u < |E| && ConfigOk(E, u, s, g) && Initializing(g, ch.thread)
    ensures var g' := Step(E, u, s, g, ch);
            && g'.touches == g.touches && g'.threads == g.threads[ch.thread := g'.threads[ch.thread]]
            && if g.threads[ch.thread].Use? then g'.threads[ch.thread] == Idle && g'.lock.None? && g'.state != LazyFields.UNPARSED
               else Initializing(g', ch.thread) && Left(g'.threads[ch.thread]) < Left(g.threads[ch.thread])
  {
    MoverOk(E, u, s, g, ch.thread);
    var pc := g.threads[ch.thread];
    hide ConfigOk, ParseStep, WalkStep, FreeStep, Expected, After, Decode, Default, Size;
    if InParse(pc) {
      hide SharedOk, ThreadOk;
      InitParse(E, u, s, g, ch.thread, ch.junk);
    } else {
      assert !InWalk(pc);
      InitFree(E, u, s, g, ch.thread, ch.call);
    }
  }

  /** It finishes, and then the parsed message is published. */
  lemma {:induction false} Initialize(E: Env, u: nat, s: LazyFields.LazyState, g: Config, t: nat) returns (schedule: seq<Choice>)
    requires u < |E| && LazyFields.Inv(E, u, s) && ConfigOk(E, u, s, g) && Initializing(g, t)
    ensures var g' := Run(E, u, s, g, schedule);
            && ConfigOk(E, u, s, g') && g'.threads == g.threads[t := Idle]
            && g'.lock.None? && g'.state != LazyFields.UNPARSED && g'.touches == g.touches
    decreases Left(g.threads[t])
  {
    hide LazyFields.Inv, ConfigOk, Step, Left;
    var ch := Choice(t, CallIsInitialized, Default(E, u));
    var g' := Step(E, u, s, g, ch);
    InitStep(E, u, s, g, ch);
    StepOk(E, u, s, g, ch);
    RunOne(E, u, s, g, ch);
    if g.threads[t].Use? {
      schedule := [ch];
    } else {
      var rest := Initialize(E, u, s, g', t);
      schedule := [ch] + rest;
      RunAppend(E, u, s, g, [ch], rest);
    }
  }

  /** An idle thread publishes the message of a set field. */
  lemma PublishFirst(E: Env, u: nat, s: LazyFields.LazyState, g: Config, t: nat) returns (schedule: seq<Choice>)
    requires u < |E| && LazyFields.Inv(E, u, s) && ConfigOk(E, u, s, g) && s.hasValue
    requires t < |g.threads| && g.threads[t] == Idle && g.lock.None?
    ensures var g' := Run(E, u, s, g, schedule);
            && ConfigOk(E, u, s, g') && g'.threads == g.threads && g'.lock.None? && g'.state != LazyFields.UNPARSED && g'.touches == g.touches
  {
    hide LazyFields.Inv, ConfigOk;
    var ch := Choice(t, CallIsInitialized, Default(E, u));
    var g1 := Step(E, u, s, g, ch);
    var g2 := Step(E, u, s, g1, ch);
    StepOk(E, u, s, g, ch);
    StepOk(E, u, s, g1, ch);
    assert g2 == GoTo(Log(g, t, Begun(CallIsInitialized)), t, TestParsed(CallIsInitialized));
    hide Step, FreeStep;
    var rest := Initialize(E, u, s, g2, t);
    schedule := [ch] + ([ch] + rest);
    RunOne(E, u, s, g, ch);
    RunOne(E, u, s, g1, ch);
    RunAppend(E, u, s, g, [ch], [ch] + rest);
    RunAppend(E, u, s, g1, [ch], rest);
  }

  lemma GetSteps(E: Env, u: nat, s: LazyFields.LazyState, g: Config, ch: Choice)
    requires u < |E| && ch.thread < |g.threads| && g.threads[ch.thread] == Idle && ch.call.CallGet?
    requires g.state != LazyFields.UNPARSED && g.message.Some?
    ensures var g2 := Step(E, u, s, Step(E, u, s, g, ch), ch);
            && g2 == GoTo(Log(g, ch.thread, Begun(ch.call)), ch.thread, Use(ch.call))
            && Step(E, u, s, g2, ch) ==
               GoTo(Log(Log(g, ch.thread, Begun(ch.call)), ch.thread, Got(g.message.value, |g.touches|)), ch.thread, Reading(ch.call.path))
  {
    hide ParseStep, WalkStep, Touch, See;
    var g1 := Step(E, u, s, g, ch);
    assert g1 == GoTo(Log(g, ch.thread, Begun(ch.call)), ch.thread, TestParsed(ch.call));
    assert g1.threads[ch.thread := Use(ch.call)] == g.threads[ch.thread := Use(ch.call)];
    var g2 := Step(E, u, s, g1, ch);
    assert g2.threads[ch.thread := Reading(ch.call.path)] == g.threads[ch.thread := Reading(ch.call.path)];
  }

  /** An idle thread gets the published message and reads one path. */
  lemma ReadOnce(E: Env, u: nat, s: LazyFields.LazyState, g: Config, t: nat, path: seq<nat>) returns (schedule: seq<Choice>)
    requires u < |E| && LazyFields.Inv(E, u, s) && ConfigOk(E, u, s, g)
    requires t < |g.threads| && g.threads[t] == Idle && g.state != LazyFields.UNPARSED
    ensures var g' := Run(E, u, s, g, schedule);
            ConfigOk(E, u, s, g') && g'.threads == g.threads && g'.state != LazyFields.UNPARSED && g'.touches == g.touches + [path]
  {
    var ch := Choice(t, CallGet(path), Default(E, u));
    assert g.message.Some? by { hide Expected, After; }
    hide ConfigOk, LazyFields.Inv, Step, See, After;
    var g1 := Step(E, u, s, g, ch);
    var g2 := Step(E, u, s, g1, ch);
    var g3 := Step(E, u, s, g2, ch);
    StepOk(E, u, s, g, ch);
    StepOk(E, u, s, g1, ch);
    StepOk(E, u, s, g2, ch);
    StepOk(E, u, s, g3, ch);
    GetSteps(E, u, s, g, ch);
    ReadStep(E, u, s, g3, ch);
    assert g3.threads[t := Idle] == g.threads;
    schedule := [ch] + ([ch] + ([ch] + [ch]));
    RunOne(E, u, s, g, ch);
    RunOne(E, u, s, g1, ch);
    RunOne(E, u, s, g2, ch);
    RunOne(E, u, s, g3, ch);
    RunAppend(E, u, s, g, [ch], [ch] + ([ch] + [ch]));
    RunAppend(E, u, s, g1, [ch], [ch] + [ch]);
    RunAppend(E, u, s, g2, [ch], [ch]);
  }

  lemma {:induction false} ReadMany(E: Env, u: nat, s: LazyFields.LazyState, g: Config, t: nat, paths: seq<seq<nat>>) returns (schedule: seq<Choice>)
    requires u < |E| && LazyFields.Inv(E, u, s) && ConfigOk(E, u, s, g) && t < |g.threads| && g.threads[t] == Idle && g.state != LazyFields.UNPARSED
    ensures var g' := Run(E, u, s, g, schedule);
            ConfigOk(E, u, s, g') && g'.threads == g.threads && g'.state != LazyFields.UNPARSED && g'.touches == g.touches + paths
    decreases |paths|
  {
    hide LazyFields.Inv, ConfigOk, Step;
    if paths == [] {
      schedule := [];
    } else {
      var first := ReadOnce(E, u, s, g, t, paths[0]);
      var rest := ReadMany(E, u, s, Run(E, u, s, g, first), t, paths[1..]);
      schedule := first + rest;
      RunAppend(E, u, s, g, first, rest);
    }
  }

  // ---- every walk happens -------------------------------------------------------------------------------------

  /** A walking thread with these looks. */
  function Taken(pc: Pc, at: seq<nat>, snaps: seq<Msg>): Pc
  {
    match pc
    case SizeWalking(c, _, _) => SizeWalking(c, at, snaps)
    case WriteWalking(size, sizedAt, _, _) => WriteWalking(size, sizedAt, at, snaps)
    case _ => pc
  }

  predicate Finished(E: Env, u: nat, pc: Pc, snaps: seq<Msg>)
  {
    match pc
    case SizeWalking(_, _, _) => SizeOf(E, u, snaps).used <= |snaps|
    case _ => WriteOf(E, u, snaps).used <= |snaps|
  }

  lemma LookStep(E: Env, u: nat, s: LazyFields.LazyState, g: Config, ch: Choice, pc: Pc, at: seq<nat>, snaps: seq<Msg>)
    requires u < |E| && ch.thread < |g.threads| && (pc.SizeWalking? || pc.WriteWalking?)
    requires g.threads[ch.thread] == Taken(pc, at, snaps) && g.message.Some? && !Finished(E, u, pc, snaps)
    ensures Step(E, u, s, g, ch) == GoTo(g, ch.thread, Taken(pc, at + [|g.touches|], snaps + [g.message.value]))
  {
    hide SizeOf, WriteOf, ParseStep, FreeStep;
  }

  /** The message after the first reads of `paths` is that of this moment. */
  lemma MessageNow(E: Env, u: nat, s: LazyFields.LazyState, g: Config, paths: seq<seq<nat>>, now: nat)
    requires u < |E| && ConfigOk(E, u, s, g) && g.state != LazyFields.UNPARSED && now <= |paths| && g.touches == paths[..now]
    ensures g.message == Some(After(E, u, s, paths, now))
  {
    hide Expected, TouchAll, ThreadOk, LogOk;
    assert paths[..now][..now] == paths[..now];
  }

  /** The walker looks on, the other thread reading in between as `at` says. */
  lemma {:induction false} LookOn(E: Env, u: nat, s: LazyFields.LazyState, g: Config, pc: Pc, paths: seq<seq<nat>>, at: seq<nat>, k: nat, now: nat)
    returns (schedule: seq<Choice>)
    requires u < |E| && LazyFields.Inv(E, u, s) && ConfigOk(E, u, s, g) && g.state != LazyFields.UNPARSED
    requires Ordered(at, |paths|) && k <= |at| && now <= |paths| && g.touches == paths[..now] && (k < |at| ==> now <= at[k])
    requires (pc.SizeWalking? || pc.WriteWalking?) && |g.threads| >= 2 && g.threads[1] == Idle
    requires g.threads[0] == Taken(pc, at[..k], Snaps(E, u, s, paths, at)[..k])
    requires forall j :: 0 <= j < |at| ==> !Finished(E, u, pc, Snaps(E, u, s, paths, at)[..j])
    ensures var g' := Run(E, u, s, g, schedule);
            && ConfigOk(E, u, s, g') && g'.state != LazyFields.UNPARSED
            && g'.threads == g.threads[0 := Taken(pc, at, Snaps(E, u, s, paths, at))]
            && g'.touches == paths[..if k == |at| then now else at[|at| - 1]]
    decreases |at| - k
  {
    hide LazyFields.Inv, ConfigOk, Step, Finished, After, ParseStep, FreeStep, WalkStep;
    var S := Snaps(E, u, s, paths, at);
    if k == |at| {
      schedule := [];
      assert at[..k] == at && S[..k] == S;
      assert g.threads[0 := g.threads[0]] == g.threads;
    } else {
      var between := paths[now..at[k]];
      var first := ReadMany(E, u, s, g, 1, between);
      var g1 := Run(E, u, s, g, first);
      assert paths[..now] + between == paths[..at[k]];
      MessageNow(E, u, s, g1, paths, at[k]);
      var ch := Choice(0, CallSerialize, Default(E, u));
      LookStep(E, u, s, g1, ch, pc, at[..k], S[..k]);
      StepOk(E, u, s, g1, ch);
      RunOne(E, u, s, g1, ch);
      var g2 := Step(E, u, s, g1, ch);
      assert at[..k] + [at[k]] == at[..k + 1] && S[..k] + [S[k]] == S[..k + 1];
      var rest := LookOn(E, u, s, g2, pc, paths, at, k + 1, at[k]);
      assert g2.threads[0 := Taken(pc, at, S)] == g.threads[0 := Taken(pc, at, S)];
      RunAppend(E, u, s, g1, [ch], rest);
      RunAppend(E, u, s, g, first, [ch] + rest);
      schedule := first + ([ch] + rest);
    }
  }

  lemma EnterSteps(E: Env, u: nat, s: LazyFields.LazyState, g: Config, ch: Choice)
    requires u < |E| && |g.threads| > 0 && g.threads[0] == Idle && g.lock.None? && g.message.Some? && s.hasValue
    requires g.state != LazyFields.UNPARSED && ch.thread == 0 && ch.call == CallSerialize
    ensures Step(E, u, s, Step(E, u, s, Step(E, u, s, g, ch), ch), ch) ==
            GoTo(Log(g, 0, Begun(CallSerialize)).(lock := Some(0)), 0, SizeWalking(CallSerialize, [], []))
  {
    hide ParseStep;
    var g1 := Step(E, u, s, g, ch);
    assert g1 == GoTo(Log(g, 0, Begun(CallSerialize)), 0, AwaitReadLock(CallSerialize));
    var g2 := Step(E, u, s, g1, ch);
    assert g2.threads == g.threads[0 := SizeLocked(CallSerialize)];
    assert g2 == GoTo(Log(g, 0, Begun(CallSerialize)).(lock := Some(0)), 0, SizeLocked(CallSerialize));
    var g3 := Step(E, u, s, g2, ch);
    assert g3.threads == g.threads[0 := SizeWalking(CallSerialize, [], [])];
  }

  /** A thread takes the mutex and begins its size walk. */
  lemma EnterWalk(E: Env, u: nat, s: LazyFields.LazyState, g: Config) returns (schedule: seq<Choice>)
    requires u < |E| && LazyFields.Inv(E, u, s) && ConfigOk(E, u, s, g) && s.hasValue
    requires |g.threads| >= 2 && g.threads[0] == Idle && g.lock.None? && g.state != LazyFields.UNPARSED
    ensures var g' := Run(E, u, s, g, schedule);
            && ConfigOk(E, u, s, g') && g'.state != LazyFields.UNPARSED && g'.touches == g.touches
            && g'.threads == g.threads[0 := SizeWalking(CallSerialize, [], [])]
  {
    hide LazyFields.Inv, Step, Expected, After, ThreadOk, LogOk;
    var ch := Choice(0, CallSerialize, Default(E, u));
    assert g.message.Some?;
    EnterSteps(E, u, s, g, ch);
    schedule := [ch] + ([ch] + [ch]);
    RunThree(E, u, s, g, ch);
    RunOk(E, u, s, g, schedule);
  }

  lemma RunThree(E: Env, u: nat, s: LazyFields.LazyState, g: Config, ch: Choice)
    requires u < |E|
    ensures Run(E, u, s, g, [ch] + ([ch] + [ch])) == Step(E, u, s, Step(E, u, s, Step(E, u, s, g, ch), ch), ch)
  {
    hide Step;
    var g1 := Step(E, u, s, g, ch);
    var g2 := Step(E, u, s, g1, ch);
    RunOne(E, u, s, g, ch);
    RunOne(E, u, s, g1, ch);
    RunOne(E, u, s, g2, ch);
    RunAppend(E, u, s, g, [ch], [ch] + [ch]);
    RunAppend(E, u, s, g1, [ch], [ch]);
  }

  /** The step after the last look. */
  lemma EndWalk(E: Env, u: nat, s: LazyFields.LazyState, g: Config, ch: Choice)
    requires u < |E| && ch.thread < |g.threads| && g.message.Some?
    ensures var pc := g.threads[ch.thread];
            && (pc.SizeWalking? && pc.c == CallSerialize && Finished(E, u, pc, pc.snaps) ==>
                  Step(E, u, s, g, ch) == GoTo(g, ch.thread, WriteWalking(SizeOf(E, u, pc.snaps).size, pc.at, [], [])))
            && (pc.WriteWalking? && Finished(E, u, pc, pc.snaps) ==>
                  var r := WriteOf(E, u, pc.snaps);
                  Step(E, u, s, g, ch).log == g.log + [Entry(ch.thread, WroteMessage(pc.size, r.out, r.right, pc.sizedAt, pc.at))])
  {
    hide SizeOf, WriteOf, ParseStep, FreeStep;
  }

  /** A walk that needs all its snapshots is not done before. */
  lemma NotFinished(E: Env, u: nat, S: seq<Msg>)
    ensures SizeOf(E, u, S).used == |S| ==> forall j :: 0 <= j < |S| ==> SizeOf(E, u, S[..j]).used > j
    ensures WriteOf(E, u, S).used == |S| ==> forall j :: 0 <= j < |S| ==> WriteOf(E, u, S[..j]).used > j
  {
    hide SizeOf, WriteOf;
    forall j | 0 <= j < |S|
      ensures SizeOf(E, u, S).used == |S| ==> SizeOf(E, u, S[..j]).used > j
      ensures WriteOf(E, u, S).used == |S| ==> WriteOf(E, u, S[..j]).used > j
    {
      OfExtends(E, u, S, j);
    }
  }

  /**
    Every pair of walks happens: for any reads `paths` and any moments in order, two threads
    have a schedule in which one reads `paths` and the other's walks look at these moments.
  */
  lemma EveryWalkHappens(E: Env, u: nat, s: LazyFields.LazyState, n: nat, paths: seq<seq<nat>>, sizedAt: seq<nat>, wroteAt: seq<nat>)
    returns (schedule: seq<Choice>)
    requires u < |E| && LazyFields.Inv(E, u, s) && s.hasValue && n >= 2
    requires Ordered(sizedAt, |paths|) && Ordered(wroteAt, |paths|)
    requires sizedAt != [] && wroteAt != [] && sizedAt[|sizedAt| - 1] <= wroteAt[0]
    requires SizeOf(E, u, Snaps(E, u, s, paths, sizedAt)).used == |sizedAt|
    requires WriteOf(E, u, Snaps(E, u, s, paths, wroteAt)).used == |wroteAt|
    ensures var r := WriteOf(E, u, Snaps(E, u, s, paths, wroteAt));
            Entry(0, WroteMessage(SizeOf(E, u, Snaps(E, u, s, paths, sizedAt)).size, r.out, r.right, sizedAt, wroteAt))
              in Run(E, u, s, Start(s, n), schedule).log
  {
    hide LazyFields.Inv, ConfigOk, Expected, SizeOf, WriteOf, After, Snaps, Ordered;
    var g0 := Start(s, n);
    StartOk(E, u, s, n);
    var a := PublishFirst(E, u, s, g0, 1);
    var g1 := Run(E, u, s, g0, a);
    hide Run;
    var b := SizePhase(E, u, s, g1, paths, sizedAt);
    var g2 := Run(E, u, s, g1, b);
    var c := WritePhase(E, u, s, g2, paths, SizeOf(E, u, Snaps(E, u, s, paths, sizedAt)).size, sizedAt, wroteAt);
    RunAppend(E, u, s, g1, b, c);
    RunAppend(E, u, s, g0, a, b + c);
    schedule := a + (b + c);
  }

  lemma SizePhase(E: Env, u: nat, s: LazyFields.LazyState, g: Config, paths: seq<seq<nat>>, sizedAt: seq<nat>) returns (schedule: seq<Choice>)
    requires u < |E| && LazyFields.Inv(E, u, s) && ConfigOk(E, u, s, g) && s.hasValue && g.state != LazyFields.UNPARSED
    requires |g.threads| >= 2 && g.threads[0] == Idle == g.threads[1] && g.lock.None? && g.touches == []
    requires Ordered(sizedAt, |paths|) && sizedAt != [] && SizeOf(E, u, Snaps(E, u, s, paths, sizedAt)).used == |sizedAt|
    ensures var g' := Run(E, u, s, g, schedule);
            && ConfigOk(E, u, s, g') && g'.state != LazyFields.UNPARSED && g'.touches == paths[..sizedAt[|sizedAt| - 1]]
            && g'.threads == g.threads[0 := WriteWalking(SizeOf(E, u, Snaps(E, u, s, paths, sizedAt)).size, sizedAt, [], [])]
  {
    hide LazyFields.Inv, ConfigOk, Step, Run, Expected, SizeOf, WriteOf, After, Snaps;
    var S := Snaps(E, u, s, paths, sizedAt);
    NotFinished(E, u, S);
    var a := EnterWalk(E, u, s, g);
    var g1 := Run(E, u, s, g, a);
    var b := LookOn(E, u, s, g1, SizeWalking(CallSerialize, [], []), paths, sizedAt, 0, 0);
    var g2 := Run(E, u, s, g1, b);
    MessageNow(E, u, s, g2, paths, sizedAt[|sizedAt| - 1]);
    var ch := Choice(0, CallSerialize, Default(E, u));
    EndWalk(E, u, s, g2, ch);
    StepOk(E, u, s, g2, ch);
    RunOne(E, u, s, g2, ch);
    RunAppend(E, u, s, g1, b, [ch]);
    RunAppend(E, u, s, g, a, b + [ch]);
    schedule := a + (b + [ch]);
  }

  lemma WritePhase(E: Env, u: nat, s: LazyFields.LazyState, g: Config, paths: seq<seq<nat>>, size: nat, sizedAt: seq<nat>, wroteAt: seq<nat>)
    returns (schedule: seq<Choice>)
    requires u < |E| && LazyFields.Inv(E, u, s) && ConfigOk(E, u, s, g) && g.state != LazyFields.UNPARSED
    requires |g.threads| >= 2 && g.threads[0] == WriteWalking(size, sizedAt, [], []) && g.threads[1] == Idle
    requires Ordered(wroteAt, |paths|) && wroteAt != [] && WriteOf(E, u, Snaps(E, u, s, paths, wroteAt)).used == |wroteAt|
    requires sizedAt != [] && sizedAt[|sizedAt| - 1] <= wroteAt[0] && g.touches == paths[..sizedAt[|sizedAt| - 1]]
    ensures var r := WriteOf(E, u, Snaps(E, u, s, paths, wroteAt));
            Entry(0, WroteMessage(size, r.out, r.right, sizedAt, wroteAt)) in Run(E, u, s, g, schedule).log
  {
    hide LazyFields.Inv, ConfigOk, Step, Run, Expected, SizeOf, WriteOf, After, Snaps;
    var W := Snaps(E, u, s, paths, wroteAt);
    NotFinished(E, u, W);
    var a := LookOn(E, u, s, g, g.threads[0], paths, wroteAt, 0, sizedAt[|sizedAt| - 1]);
    var g1 := Run(E, u, s, g, a);
    MessageNow(E, u, s, g1, paths, wroteAt[|wroteAt| - 1]);
    var ch := Choice(0, CallSerialize, Default(E, u));
    EndWalk(E, u, s, g1, ch);
    RunOne(E, u, s, g1, ch);
    RunAppend(E, u, s, g, a, [ch]);
    schedule := a + [ch];
    var log := Run(E, u, s, g, schedule).log;
    assert log[|log| - 1] in log;
  }
}
