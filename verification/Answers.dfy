/**
  Calls and what they come to, thread by thread: in every interleaving each call comes to
  exactly the kind of answer it asked for, once; and only calls that need the message make it.
*/
module Answers {
  import opened Schema
  import opened Codec
  import opened Laziness
  import opened Walks
  import LazyFields
  import opened ConcurrentReaders

  // ---- one answer a call ------------------------------------------------------------------------------------

  /** What a thread owes its caller: nothing, the answer to a call, or, after `Get`, the value of its getters. */
  datatype Debt = Free | Owes(call: Call) | OwesRead(path: seq<nat>) | Broken

  /** Accounts broken by an answer nobody asked for, or by a second call before the first has its answer. */
  function Settle(d: Debt, e: Event): Debt
  {
    match e
    case Begun(call) => if d == Free then Owes(call) else Broken
    case Got(_, _) => if d.Owes? && d.call.CallGet? then OwesRead(d.call.path) else Broken
    case Saw(path, _) => if d == OwesRead(path) then Free else Broken
    case Initialized => if d == Owes(CallIsInitialized) then Free else Broken
    case Wrote(_) => if d == Owes(CallSerialize) then Free else Broken
    case WroteMessage(_, _, _, _, _) => if d == Owes(CallSerialize) then Free else Broken
    case Sized(_) => if d == Owes(CallByteSizeLong) then Free else Broken
    case SizedMessage(_, _, _) => if d == Owes(CallByteSizeLong) then Free else Broken
    case NullDereference => Broken
  }

  function Standing(log: seq<Entry>, t: nat): Debt
    decreases |log|
  {
    if log == [] then Free
    else
      var d := Standing(log[..|log| - 1], t);
      if log[|log| - 1].thread == t then Settle(d, log[|log| - 1].event) else d
  }

  lemma StandingOne(log: seq<Entry>, e: Entry, t: nat)
    ensures Standing(log + [e], t) == if e.thread == t then Settle(Standing(log, t), e.event) else Standing(log, t)
  {
    assert (log + [e])[..|log|] == log;
  }

  /** What a thread owes by where it is. */
  function Due(pc: Pc): Debt
  {
    match pc
    case Idle => Free
    case ReadUnlock => Free
    case TestHasValue => Owes(CallIsInitialized)
    case Reading(path) => OwesRead(path)
    case WriteWalking(_, _, _, _) => Owes(CallSerialize)
    case TestParsed(c) => Owes(c)
    case AwaitParseLock(c) => Owes(c)
    case TestMessage(c) => Owes(c)
    case TestState(c) => Owes(c)
    case StartParse(c) => Owes(c)
    case Parsing(c) => Owes(c)
    case ClearMessage(c) => Owes(c)
    case Publish(c) => Owes(c)
    case Unlock(c) => Owes(c)
    case Use(c) => Owes(c)
    case AwaitReadLock(c) => Owes(c)
    case SizeLocked(c) => Owes(c)
    case SizeWalking(c, _, _) => Owes(c)
  }

  /** Parsing is on the way to `Get` and `IsInitialized` only, the walks on the way to the other two. */
  predicate OnItsWay(pc: Pc)
  {
    if InParse(pc) || pc.TestParsed? || pc.AwaitParseLock? || pc.Use?
    then pc.c.CallGet? || pc.c == CallIsInitialized
    else pc.AwaitReadLock? || pc.SizeLocked? || pc.SizeWalking? ==> pc.c == CallSerialize || pc.c == CallByteSizeLong
  }

  predicate Accounted(g: Config, t: nat)
    requires t < |g.threads|
  {
    OnItsWay(g.threads[t]) && Standing(g.log, t) == Due(g.threads[t])
  }

  ghost predicate AllAccounted(g: Config)
  {
    forall t :: 0 <= t < |g.threads| ==> Accounted(g, t)
  }

  /** Thread `t` has logged nothing and owes what it owed, or one event in its own name that settles the rest. */
  ghost predicate Squares(g: Config, g': Config, t: nat)
    requires t < |g.threads| && t < |g'.threads|
  {
    && OnItsWay(g'.threads[t])
    && if g'.log == g.log then Due(g'.threads[t]) == Due(g.threads[t])
       else exists e :: g'.log == g.log + [Entry(t, e)] && Due(g'.threads[t]) == Settle(Due(g.threads[t]), e)
  }

  lemma MoverLogs(E: Env, u: nat, s: LazyFields.LazyState, g: Config, ch: Choice)
    requires u < |E| && ConfigOk(E, u, s, g) && ch.thread < |g.threads| && OnItsWay(g.threads[ch.thread])
    ensures var t, g' := ch.thread, Step(E, u, s, g, ch);
            Squares(g, g', t)
  {
    MoverOk(E, u, s, g, ch.thread);
    MessageThere(E, u, s, g, ch.thread);
    var pc := g.threads[ch.thread];
    hide ConfigOk, After, Expected, Decode, Default, ParseFrom, EncLazy, LazySize, LazyFields.Abs, Touch, See, SizeOf, WriteOf, LazyFields.Created;
    if InParse(pc) {
      hide WalkStep, FreeStep, SharedOk, ThreadOk;
      ParseLogs(E, u, s, g, ch.thread, ch.junk);
    } else if InWalk(pc) {
      hide ParseStep, FreeStep, WalkStep;
      WalkLogs(E, u, s, g, ch.thread);
    } else {
      hide ParseStep, WalkStep, FreeStep;
      FreeLogs(E, u, s, g, ch.thread, ch.call);
    }
  }

  lemma ParseLogs(E: Env, u: nat, s: LazyFields.LazyState, g: Config, t: nat, junk: Msg)
    requires u < |E| && t < |g.threads| && OnItsWay(g.threads[t]) && InParse(g.threads[t])
    ensures var g' := ParseStep(E, u, s, g, t, junk);
            Squares(g, g', t)
  {
    hide Decode, Default, ParseFrom, LazyFields.Created;
  }

  /** Where a thread dereferences the message, there is one. */
  predicate HasMessage(g: Config, pc: Pc)
  {
    pc.Use? || pc.Reading? || pc.SizeWalking? || pc.WriteWalking? ==> g.message.Some?
  }

  lemma MessageThere(E: Env, u: nat, s: LazyFields.LazyState, g: Config, t: nat)
    requires u < |E| && SharedOk(E, u, s, g) && t < |g.threads| && ThreadOk(E, u, s, g, t)
    ensures HasMessage(g, g.threads[t])
  {
    hide After, WalkerOk, Expected;
  }

  lemma WalkLogs(E: Env, u: nat, s: LazyFields.LazyState, g: Config, t: nat)
    requires u < |E| && t < |g.threads| && OnItsWay(g.threads[t]) && InWalk(g.threads[t]) && HasMessage(g, g.threads[t])
    ensures Squares(g, WalkStep(E, u, s, g, t), t)
  {
    hide EncLazy, LazySize, LazyFields.Abs, SizeOf, WriteOf;
    var g' := WalkStep(E, u, s, g, t);
    if g'.log != g.log {
      assert g'.log == g.log + [Entry(t, g'.log[|g.log|].event)];
    }
  }

  lemma FreeLogs(E: Env, u: nat, s: LazyFields.LazyState, g: Config, t: nat, call: Call)
    requires u < |E| && t < |g.threads| && OnItsWay(g.threads[t]) && !HoldsLock(g.threads[t]) && HasMessage(g, g.threads[t])
    ensures Squares(g, FreeStep(E, u, s, g, t, call), t)
  {
    var pc, g' := g.threads[t], FreeStep(E, u, s, g, t, call);
    if pc.Idle? {
      CallLogs(E, u, s, g, t, call);
      hide *;
    } else if pc.Use? || pc.Reading? {
      hide Touch, See;
      assert g'.log == g.log + [Entry(t, g'.log[|g.log|].event)];
    } else if g'.log != g.log {
      assert g'.log == g.log + [Entry(t, Initialized)];
    }
  }

  lemma CallLogs(E: Env, u: nat, s: LazyFields.LazyState, g: Config, t: nat, call: Call)
    requires u < |E| && t < |g.threads| && g.threads[t].Idle?
    ensures Squares(g, FreeStep(E, u, s, g, t, call), t)
  {
    var g' := FreeStep(E, u, s, g, t, call);
    assert g'.log == g.log + [Entry(t, Begun(call))];
  }

  lemma StepAccounted(E: Env, u: nat, s: LazyFields.LazyState, g: Config, ch: Choice)
    requires u < |E| && ConfigOk(E, u, s, g) && AllAccounted(g)
    ensures AllAccounted(Step(E, u, s, g, ch))
  {
    hide Step, ConfigOk, Settle, OnItsWay, Due;
    var g' := Step(E, u, s, g, ch);
    if ch.thread >= |g.threads| {
      NoSuchThread(E, u, s, g, ch);
    } else {
      assert Accounted(g, ch.thread);
      MoverLogs(E, u, s, g, ch);
      OthersStay(E, u, s, g, ch);
      if g'.log == g.log {
        forall t | 0 <= t < |g'.threads|
          ensures Accounted(g', t)
        {
          assert Accounted(g, t);
        }
      } else {
        var e :| g'.log == g.log + [Entry(ch.thread, e)] && Due(g'.threads[ch.thread]) == Settle(Due(g.threads[ch.thread]), e);
        forall t | 0 <= t < |g'.threads|
          ensures Accounted(g', t)
        {
          assert Accounted(g, t);
          StandingOne(g.log, Entry(ch.thread, e), t);
        }
      }
    }
  }

  lemma {:induction false} RunAccounted(E: Env, u: nat, s: LazyFields.LazyState, g: Config, schedule: seq<Choice>)
    requires u < |E| && LazyFields.Inv(E, u, s) && ConfigOk(E, u, s, g) && AllAccounted(g)
    ensures AllAccounted(Run(E, u, s, g, schedule))
    decreases |schedule|
  {
    hide Step, ConfigOk, LazyFields.Inv, AllAccounted;
    if schedule != [] {
      StepOk(E, u, s, g, schedule[0]);
      StepAccounted(E, u, s, g, schedule[0]);
      RunAccounted(E, u, s, Step(E, u, s, g, schedule[0]), schedule[1..]);
    }
  }

  lemma StartAccounted(s: LazyFields.LazyState, n: nat)
    ensures AllAccounted(Start(s, n))
  {
  }

  // ---- counting -----------------------------------------------------------------------------------------------

  datatype Method = MGet | MIsInitialized | MSerialize | MByteSizeLong

  function MethodOf(call: Call): Method
  {
    match call
    case CallGet(_) => MGet
    case CallIsInitialized => MIsInitialized
    case CallSerialize => MSerialize
    case CallByteSizeLong => MByteSizeLong
  }

  predicate Calls(e: Event, m: Method)
  {
    e.Begun? && MethodOf(e.call) == m
  }

  /** The event is what a call of the method returns. */
  predicate Returns(e: Event, m: Method)
  {
    match m
    case MGet => e.Got?
    case MIsInitialized => e.Initialized?
    case MSerialize => e.Wrote? || e.WroteMessage?
    case MByteSizeLong => e.Sized? || e.SizedMessage?
  }

  function CallsOf(log: seq<Entry>, t: nat, m: Method): nat
  {
    if log == [] then 0
    else CallsOf(log[..|log| - 1], t, m) + if log[|log| - 1].thread == t && Calls(log[|log| - 1].event, m) then 1 else 0
  }

  function ReturnsOf(log: seq<Entry>, t: nat, m: Method): nat
  {
    if log == [] then 0
    else ReturnsOf(log[..|log| - 1], t, m) + if log[|log| - 1].thread == t && Returns(log[|log| - 1].event, m) then 1 else 0
  }

  lemma {:induction false} Balance(log: seq<Entry>, t: nat, m: Method)
    requires Standing(log, t) != Broken
    ensures CallsOf(log, t, m) ==
            ReturnsOf(log, t, m) + if Standing(log, t).Owes? && MethodOf(Standing(log, t).call) == m then 1 else 0
    decreases |log|
  {
    if log != [] {
      Balance(log[..|log| - 1], t, m);
    }
  }

  /** The thread is between two calls, or on its way out of one that has its answer. */
  predicate Between(pc: Pc)
  {
    pc.Idle? || pc.ReadUnlock?
  }

  /**
    In every interleaving every call comes to exactly one answer of its own kind: `Serialize` to
    one writing, `ByteSizeLong` to one size, `IsInitialized` to one truth value, `Get` to one
    message whose getters are then read. A thread in the middle of a call has none for it yet,
    apart from the message `Get` returned; a thread between calls owes nothing.
  */
  lemma EveryCallAnswered(E: Env, u: nat, s: LazyFields.LazyState, n: nat, schedule: seq<Choice>, t: nat, m: Method)
    requires u < |E| && LazyFields.Inv(E, u, s) && t < n
    ensures var g := Run(E, u, s, Start(s, n), schedule);
            && |g.threads| == n && Standing(g.log, t) == Due(g.threads[t]) != Broken
            && (Between(g.threads[t]) ==> CallsOf(g.log, t, m) == ReturnsOf(g.log, t, m))
            && CallsOf(g.log, t, m) ==
               ReturnsOf(g.log, t, m) + if Due(g.threads[t]).Owes? && MethodOf(Due(g.threads[t]).call) == m then 1 else 0
  {
    hide Run, LazyFields.Inv, ConfigOk, CallsOf, ReturnsOf;
    StartOk(E, u, s, n);
    StartAccounted(s, n);
    RunAccounted(E, u, s, Start(s, n), schedule);
    var g := Run(E, u, s, Start(s, n), schedule);
    assert Accounted(g, t);
    Balance(g.log, t, m);
  }

  // ---- who parses ---------------------------------------------------------------------------------------------

  /** A call that needs the message: `Get`, and `IsInitialized` of a set field. */
  predicate Needs(s: LazyFields.LazyState, e: Event)
  {
    e.Begun? && (e.call.CallGet? || (e.call.CallIsInitialized? && s.hasValue))
  }

  predicate NoneNeeds(s: LazyFields.LazyState, log: seq<Entry>)
  {
    forall i :: 0 <= i < |log| ==> !Needs(s, log[i].event)
  }

  predicate Outside(s: LazyFields.LazyState, pc: Pc)
  {
    pc.Idle? || (pc.TestHasValue? && !s.hasValue) || pc.AwaitReadLock? || InWalk(pc)
  }

  ghost predicate LeftAlone(s: LazyFields.LazyState, g: Config)
  {
    NoneNeeds(s, g.log) ==>
      && g.state == s.state && g.message == s.message && g.touches == [] && g.created == 0 && g.parses == 0
      && forall t :: 0 <= t < |g.threads| ==> Outside(s, g.threads[t])
  }

  lemma StepLeavesAlone(E: Env, u: nat, s: LazyFields.LazyState, g: Config, ch: Choice)
    requires u < |E| && LeftAlone(s, g)
    ensures LeftAlone(s, Step(E, u, s, g, ch))
  {
    var g' := Step(E, u, s, g, ch);
    OthersStay(E, u, s, g, ch);
    if NoneNeeds(s, g'.log) && ch.thread < |g.threads| {
      assert NoneNeeds(s, g.log) by { LogPrefix(s, g.log, g'.log); }
      assert Outside(s, g.threads[ch.thread]);
      hide ParseStep, ParseFrom, EncLazy, LazySize, LazyFields.Abs, SizeOf, WriteOf, Touch, See;
      if InWalk(g.threads[ch.thread]) {
        WalkKeeps(E, u, s, g, ch.thread);
        WalkStaysOut(E, u, s, g, ch.thread);
        hide WalkStep, FreeStep;
      } else {
        FreeStaysOut(E, u, s, g, ch.thread, ch.call);
        hide WalkStep, FreeStep;
      }
    }
  }

  lemma LogPrefix(s: LazyFields.LazyState, log: seq<Entry>, more: seq<Entry>)
    requires log <= more && NoneNeeds(s, more)
    ensures NoneNeeds(s, log)
  {
    forall i | 0 <= i < |log|
      ensures !Needs(s, log[i].event)
    {
      assert log[i] == more[i];
    }
  }

  lemma WalkStaysOut(E: Env, u: nat, s: LazyFields.LazyState, g: Config, t: nat)
    requires u < |E| && t < |g.threads| && InWalk(g.threads[t])
    ensures Outside(s, WalkStep(E, u, s, g, t).threads[t])
  {
    hide EncLazy, LazySize, LazyFields.Abs, SizeOf, WriteOf;
  }

  lemma FreeStaysOut(E: Env, u: nat, s: LazyFields.LazyState, g: Config, t: nat, call: Call)
    requires u < |E| && t < |g.threads| && Outside(s, g.threads[t]) && !InWalk(g.threads[t])
    requires NoneNeeds(s, FreeStep(E, u, s, g, t, call).log)
    ensures var g' := FreeStep(E, u, s, g, t, call);
            g' == g.(threads := g'.threads, lock := g'.lock, log := g'.log) && Outside(s, g'.threads[t])
  {
    hide Touch, See;
    var g' := FreeStep(E, u, s, g, t, call);
    if g.threads[t].Idle? {
      assert g'.log[|g.log|].event == Begun(call);
    }
  }

  lemma {:induction false} RunLeavesAlone(E: Env, u: nat, s: LazyFields.LazyState, g: Config, schedule: seq<Choice>)
    requires u < |E| && LeftAlone(s, g)
    ensures LeftAlone(s, Run(E, u, s, g, schedule))
    decreases |schedule|
  {
    hide Step, LeftAlone;
    if schedule != [] {
      StepLeavesAlone(E, u, s, g, schedule[0]);
      RunLeavesAlone(E, u, s, Step(E, u, s, g, schedule[0]), schedule[1..]);
    }
  }

  /**
    Serialising and sizing parse nothing: as long as nobody has called `Get`, or `IsInitialized`
    of a set field, state and message are what they were, in every interleaving.
  */
  lemma OnlyNeededParses(E: Env, u: nat, s: LazyFields.LazyState, n: nat, schedule: seq<Choice>)
    requires u < |E|
    ensures var g := Run(E, u, s, Start(s, n), schedule);
            NoneNeeds(s, g.log) ==> g.state == s.state && g.message == s.message && g.created == 0 && g.parses == 0
  {
    hide Run;
    RunLeavesAlone(E, u, s, Start(s, n), schedule);
  }

  /** An answer that took the message: `Get`'s, and `IsInitialized`'s of a set field. */
  predicate Took(s: LazyFields.LazyState, e: Event)
  {
    e.Got? || (e.Initialized? && s.hasValue)
  }

  ghost predicate TookParsed(s: LazyFields.LazyState, g: Config)
  {
    forall i :: 0 <= i < |g.log| && Took(s, g.log[i].event) ==> g.state != LazyFields.UNPARSED
  }

  /** A step that logs such an answer finds the message published. */
  lemma TakesPublished(E: Env, u: nat, s: LazyFields.LazyState, g: Config, ch: Choice)
    requires u < |E| && ConfigOk(E, u, s, g) && ch.thread < |g.threads|
    ensures var g' := Step(E, u, s, g, ch);
            |g'.log| > |g.log| && Took(s, g'.log[|g.log|].event) ==> g.state != LazyFields.UNPARSED
  {
    MoverOk(E, u, s, g, ch.thread);
    hide ConfigOk, SharedOk, After, Expected, Decode, Default, ParseFrom, EncLazy, LazySize, LazyFields.Abs, Touch, See, SizeOf, WriteOf, LazyFields.Created, WalkerOk;
    if InParse(g.threads[ch.thread]) {
      hide WalkStep, FreeStep, ThreadOk;
    } else if InWalk(g.threads[ch.thread]) {
      hide ParseStep, FreeStep, ThreadOk;
    } else {
      hide ParseStep, WalkStep;
    }
  }

  lemma StepTakesParsed(E: Env, u: nat, s: LazyFields.LazyState, g: Config, ch: Choice)
    requires u < |E| && ConfigOk(E, u, s, g) && TookParsed(s, g)
    ensures TookParsed(s, Step(E, u, s, g, ch))
  {
    hide Step, ConfigOk, Took;
    if ch.thread < |g.threads| {
      TakesPublished(E, u, s, g, ch);
      OthersStay(E, u, s, g, ch);
      Unparsing(E, u, s, g, ch);
    } else {
      NoSuchThread(E, u, s, g, ch);
    }
  }

  lemma {:induction false} RunTakesParsed(E: Env, u: nat, s: LazyFields.LazyState, g: Config, schedule: seq<Choice>)
    requires u < |E| && LazyFields.Inv(E, u, s) && ConfigOk(E, u, s, g) && TookParsed(s, g)
    ensures TookParsed(s, Run(E, u, s, g, schedule))
    decreases |schedule|
  {
    hide Step, ConfigOk, LazyFields.Inv, TookParsed;
    if schedule != [] {
      StepOk(E, u, s, g, schedule[0]);
      StepTakesParsed(E, u, s, g, schedule[0]);
      RunTakesParsed(E, u, s, Step(E, u, s, g, schedule[0]), schedule[1..]);
    }
  }

  /** Conversely, once one such call has returned the message is parsed and published for good. */
  lemma AnsweredIsParsed(E: Env, u: nat, s: LazyFields.LazyState, n: nat, schedule: seq<Choice>, i: nat)
    requires u < |E| && LazyFields.Inv(E, u, s)
    requires i < |Run(E, u, s, Start(s, n), schedule).log| && Took(s, Run(E, u, s, Start(s, n), schedule).log[i].event)
    ensures var g := Run(E, u, s, Start(s, n), schedule);
            g.state == LazyFields.Parsed(E, u, s).state != LazyFields.UNPARSED && g.message.Some?
  {
    hide Run, LazyFields.Inv, LazyFields.Parsed, Took;
    var g := Run(E, u, s, Start(s, n), schedule);
    StartOk(E, u, s, n);
    RunOk(E, u, s, Start(s, n), schedule);
    RunTakesParsed(E, u, s, Start(s, n), schedule);
    AsOneThread(E, u, s, g);
  }
}
