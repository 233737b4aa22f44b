/**
  The double-checked locking of `LazyField`: any number of threads calling its const methods,
  in every interleaving of their atomic steps, and reading on through the message `Get`
  returned. A schedule picks who moves next; a thread that waits for the mutex stays where it
  is. A walk over the message takes one step for each lazy member it looks at, which it does
  under that member's own mutex; readers may parse others in between. A chain of getters is
  one step: one that is interrupted half-way is two shorter ones.
*/
module ConcurrentReaders {
  import opened Options
  import opened Varint
  import opened Schema
  import opened Codec
  import opened Views
  import opened Laziness
  import opened Framing
  import opened Walks
  import opened LazyFields

  /** `CallGet(path)` calls `Get` and then, on the message it returned, the getters along `path`. */
  datatype Call = CallGet(path: seq<nat>) | CallIsInitialized | CallSerialize | CallByteSizeLong

  /** Where a thread is in a const method; `c` is the call to finish after parsing. */
  datatype Pc =
    | Idle
    | TestHasValue                // IsInitialized reads has_value_
    | TestParsed(c: Call)         // EnsureParsed loads state_
    | AwaitParseLock(c: Call)
    | TestMessage(c: Call)        // EnsureParsedLocked: is message_ null?
    | TestState(c: Call)          //   has_value_, state_, and whether there are bytes
    | StartParse(c: Call)
    | Parsing(c: Call)
    | ClearMessage(c: Call)
    | Publish(c: Call)            //   store PARSED
    | Unlock(c: Call)
    | Use(c: Call)                // dereference message_
    | Reading(path: seq<nat>)     // getters of the message, which parse its own lazy members
    | AwaitReadLock(c: Call)      // Serialize and ByteSizeLong
    | SizeLocked(c: Call)         //   has_value_, state_, message_
    | SizeWalking(c: Call, at: seq<nat>, snaps: seq<Msg>)   //   the walk that computes the size
    | WriteWalking(size: nat, sizedAt: seq<nat>, at: seq<nat>, snaps: seq<Msg>)   // Serialize: prefix and body
    | ReadUnlock

  /**
    What threads do and observe: that a method is called, and what it comes to. A moment is the number of reads through the message that came before;
    `at` gives one for each look of a walk, and `right` says that the prefixes inside a body are.
  */
  datatype Event =
    | Begun(call: Call)
    | Got(m: Msg, at: nat)
    | Saw(path: seq<nat>, value: Seen)
    | Initialized
    | Wrote(bytes: seq<byte>)
    | WroteMessage(size: nat, body: seq<byte>, right: bool, sizedAt: seq<nat>, wroteAt: seq<nat>)
    | Sized(size: nat)
    | SizedMessage(total: nat, size: nat, sizedAt: seq<nat>)
    | NullDereference

  datatype Entry = Entry(thread: nat, event: Event)

  /** `touches` records, in order, the getter chains that have gone through the message. */
  datatype Config = Config(
    lock: Option<nat>, state: State, message: Option<Msg>, touches: seq<seq<nat>>,
    threads: seq<Pc>, created: nat, parses: nat, log: seq<Entry>)

  /** The scheduler's choice: who moves, which method an idle thread calls, and what a parse leaves half-done. */
  datatype Choice = Choice(thread: nat, call: Call, junk: Msg)

  /** `n` threads about to call const methods on a field in state `s`. */
  function Start(s: LazyState, n: nat): Config
  {
    Config(None, s.state, s.message, [], seq(n, _ => Idle), 0, 0, [])
  }

  function GoTo(g: Config, t: nat, pc: Pc): Config
    requires t < |g.threads|
  {
    g.(threads := g.threads[t := pc])
  }

  function Log(g: Config, t: nat, e: Event): Config
  {
    g.(log := g.log + [Entry(t, e)])
  }

  /** The pc is in `EnsureParsedLocked`. */
  predicate InParse(pc: Pc)
  {
    pc.TestMessage? || pc.TestState? || pc.StartParse? || pc.Parsing? || pc.ClearMessage? || pc.Publish? || pc.Unlock?
  }

  /** The pc is in the critical section of `Serialize` or `ByteSizeLong`. */
  predicate InWalk(pc: Pc)
  {
    pc.SizeLocked? || pc.SizeWalking? || pc.WriteWalking? || pc.ReadUnlock?
  }

  predicate HoldsLock(pc: Pc)
  {
    InParse(pc) || InWalk(pc)
  }

  /** One atomic step; `s` gives the members no const method writes. */
  function Step(E: Env, u: nat, s: LazyState, g: Config, ch: Choice): (g': Config)
    requires u < |E|
    ensures |g'.threads| == |g.threads|
  {
    if ch.thread >= |g.threads| then g
    else if InParse(g.threads[ch.thread]) then ParseStep(E, u, s, g, ch.thread, ch.junk)
    else if InWalk(g.threads[ch.thread]) then WalkStep(E, u, s, g, ch.thread)
    else FreeStep(E, u, s, g, ch.thread, ch.call)
  }

  function ParseStep(E: Env, u: nat, s: LazyState, g: Config, t: nat, junk: Msg): (g': Config)
    requires u < |E| && t < |g.threads|
    ensures |g'.threads| == |g.threads|
  {
    match g.threads[t]
    case TestMessage(c) =>
      if g.message.Some? then GoTo(g, t, TestState(c))
      else GoTo(g.(message := Some(Created(E, u, s)), created := g.created + 1), t, TestState(c))
    case TestState(c) =>
      if !s.hasValue then GoTo(g.(state := PARSED), t, Unlock(c))
      else if g.state != UNPARSED then GoTo(g, t, Unlock(c))
      else GoTo(g, t, if s.bytes == [] then ClearMessage(c) else StartParse(c))
    case StartParse(c) => GoTo(g.(message := Some(junk), parses := g.parses + 1), t, Parsing(c))
    case Parsing(c) =>
      (match ParseFrom(E, u, Default(E, u), s.bytes, 0)
       case Ok(m, _) => GoTo(g.(message := Some(m)), t, Publish(c))
       case _ => GoTo(g.(message := Some(junk)), t, ClearMessage(c)))
    case ClearMessage(c) => GoTo(g.(message := Some(Default(E, u))), t, Publish(c))
    case Publish(c) => GoTo(g.(state := PARSED), t, Unlock(c))
    case Unlock(c) => GoTo(g.(lock := None), t, Use(c))
    case _ => g
  }

  function WalkStep(E: Env, u: nat, s: LazyState, g: Config, t: nat): (g': Config)
    requires u < |E| && t < |g.threads|
    ensures |g'.threads| == |g.threads|
  {
    match g.threads[t]
    case SizeLocked(c) =>
      if !s.hasValue || g.state == UNPARSED || g.message.None? then
        var val := Abs(s.(state := g.state, message := g.message));
        GoTo(Log(g, t, if c == CallSerialize then Wrote(EncLazy(E, KLazy(u), val)) else Sized(LazySize(E, KLazy(u), val))), t, ReadUnlock)
      else GoTo(g, t, SizeWalking(c, [], []))
    case SizeWalking(c, at, snaps) =>
      if g.message.None? then GoTo(Log(g, t, NullDereference), t, ReadUnlock)
      else
        var r := SizeOf(E, u, snaps);
        if r.used > |snaps| then GoTo(g, t, SizeWalking(c, at + [|g.touches|], snaps + [g.message.value]))
        else if c == CallSerialize then GoTo(g, t, WriteWalking(r.size, at, [], []))
        else GoTo(Log(g, t, SizedMessage(Framed(r.size), r.size, at)), t, ReadUnlock)
    case WriteWalking(size, sizedAt, at, snaps) =>
      if g.message.None? then GoTo(Log(g, t, NullDereference), t, ReadUnlock)
      else
        var r := WriteOf(E, u, snaps);
        if r.used > |snaps| then GoTo(g, t, WriteWalking(size, sizedAt, at + [|g.touches|], snaps + [g.message.value]))
        else GoTo(Log(g, t, WroteMessage(size, r.out, r.right, sizedAt, at)), t, ReadUnlock)
    case ReadUnlock => GoTo(g.(lock := None), t, Idle)
    case _ => g
  }

  function FreeStep(E: Env, u: nat, s: LazyState, g: Config, t: nat, call: Call): (g': Config)
    requires u < |E| && t < |g.threads|
    ensures |g'.threads| == |g.threads|
  {
    match g.threads[t]
    case Idle =>
      var g := Log(g, t, Begun(call));
      (match call
       case CallGet(_) => GoTo(g, t, TestParsed(call))
       case CallIsInitialized => GoTo(g, t, TestHasValue)
       case _ => GoTo(g, t, AwaitReadLock(call)))
    case TestHasValue =>
      if s.hasValue then GoTo(g, t, TestParsed(CallIsInitialized))
      else GoTo(Log(g, t, Initialized), t, Idle)
    case TestParsed(c) => GoTo(g, t, if g.state != UNPARSED then Use(c) else AwaitParseLock(c))
    case AwaitParseLock(c) => if g.lock.Some? then g else GoTo(g.(lock := Some(t)), t, TestMessage(c))
    case AwaitReadLock(c) => if g.lock.Some? then g else GoTo(g.(lock := Some(t)), t, SizeLocked(c))
    case Use(c) =>
      if g.message.None? then GoTo(Log(g, t, NullDereference), t, Idle)
      else if c.CallGet? then GoTo(Log(g, t, Got(g.message.value, |g.touches|)), t, Reading(c.path))
      else GoTo(Log(g, t, Initialized), t, Idle)
    case Reading(path) =>
      if g.message.None? then GoTo(Log(g, t, NullDereference), t, Idle)
      else
        var m := Touch(E, u, g.message.value, path);
        GoTo(Log(g.(message := Some(m), touches := g.touches + [path]), t, Saw(path, See(E, u, m, path))), t, Idle)
    case _ => g
  }

  function Run(E: Env, u: nat, s: LazyState, g: Config, schedule: seq<Choice>): (g': Config)
    requires u < |E|
    ensures |g'.threads| == |g.threads|
    decreases |schedule|
  {
    if schedule == [] then g else Run(E, u, s, Step(E, u, s, g, schedule[0]), schedule[1..])
  }

  // ---- the invariant -------------------------------------------------------------------------------------

  /** The parse of this thread is under way and not yet published. */
  predicate Working(pc: Pc)
  {
    pc.StartParse? || pc.Parsing? || pc.ClearMessage? || pc.Publish?
  }

  /** The message every reader must get, before anything is read through it. */
  function Expected(E: Env, u: nat, s: LazyState): Msg
    requires u < |E|
  {
    if s.state == UNPARSED && s.hasValue then Decode(E, u, s.bytes)
    else if s.message.Some? then s.message.value
    else Created(E, u, s)
  }

  /** ... and after the first `at` reads through it. */
  function After(E: Env, u: nat, s: LazyState, touches: seq<seq<nat>>, at: nat): Msg
    requires u < |E| && at <= |touches|
  {
    TouchAll(E, u, Expected(E, u, s), touches[..at])
  }

  /** Moments in order, none later than now. */
  predicate Ordered(at: seq<nat>, now: nat)
  {
    && (forall k :: 0 <= k < |at| ==> at[k] <= now)
    && forall j, k :: 0 <= j <= k < |at| ==> at[j] <= at[k]
  }

  /** The message at these moments. */
  function Snaps(E: Env, u: nat, s: LazyState, touches: seq<seq<nat>>, at: seq<nat>): (r: seq<Msg>)
    requires u < |E| && Ordered(at, |touches|)
    ensures |r| == |at|
  {
    seq(|at|, k requires 0 <= k < |at| => After(E, u, s, touches, at[k]))
  }

  /** `size` is what a size walk finds that looks at these moments. */
  predicate SizedOk(E: Env, u: nat, s: LazyState, touches: seq<seq<nat>>, size: nat, at: seq<nat>)
    requires u < |E|
  {
    && Ordered(at, |touches|)
    && var r := SizeOf(E, u, Snaps(E, u, s, touches, at));
       r.used <= |at| && size == r.size
  }

  /** `body` is what a write walk writes that looks at these moments. */
  predicate WroteOk(E: Env, u: nat, s: LazyState, touches: seq<seq<nat>>, body: seq<byte>, right: bool, at: seq<nat>)
    requires u < |E|
  {
    && Ordered(at, |touches|)
    && var r := WriteOf(E, u, Snaps(E, u, s, touches, at));
       r.used <= |at| && body == r.out && right == r.right
  }

  /**
    Readers get the expected message as it is at that moment, and see the expected values.
    `Serialize` and `ByteSizeLong` write and count the field as it was, or each lazy member of
    that message as it is at one moment, the moments in the order of the walk.
  */
  predicate EventOk(E: Env, u: nat, s: LazyState, touches: seq<seq<nat>>, e: Event)
    requires u < |E|
  {
    match e
    case Begun(_) => true
    case Got(m, at) => at <= |touches| && m == After(E, u, s, touches, at)
    case Saw(path, value) => value == See(E, u, Expected(E, u, s), path)
    case Initialized => true
    case Wrote(bytes) => bytes == EncLazy(E, KLazy(u), Abs(s))
    case WroteMessage(size, body, right, sizedAt, wroteAt) =>
      && s.hasValue && Ordered(sizedAt + wroteAt, |touches|)
      && SizedOk(E, u, s, touches, size, sizedAt) && WroteOk(E, u, s, touches, body, right, wroteAt)
    case Sized(n) => n == LazySize(E, KLazy(u), Abs(s))
    case SizedMessage(n, size, at) => n == Framed(size) && SizedOk(E, u, s, touches, size, at)
    case NullDereference => false
  }

  /** The snapshots a walk has taken so far. */
  predicate TakenOk(E: Env, u: nat, s: LazyState, touches: seq<seq<nat>>, at: seq<nat>, snaps: seq<Msg>)
    requires u < |E|
  {
    Ordered(at, |touches|) && snaps == Snaps(E, u, s, touches, at)
  }

  /** A thread in the middle of a walk. */
  predicate WalkerOk(E: Env, u: nat, s: LazyState, touches: seq<seq<nat>>, pc: Pc)
    requires u < |E|
  {
    match pc
    case SizeWalking(_, at, snaps) => s.hasValue && TakenOk(E, u, s, touches, at, snaps)
    case WriteWalking(size, sizedAt, at, snaps) =>
      && s.hasValue && Ordered(sizedAt + at, |touches|)
      && SizedOk(E, u, s, touches, size, sizedAt) && TakenOk(E, u, s, touches, at, snaps)
    case _ => true
  }

  ghost predicate ThreadOk(E: Env, u: nat, s: LazyState, g: Config, t: nat)
    requires u < |E| && t < |g.threads|
  {
    var pc := g.threads[t];
    && (HoldsLock(pc) <==> g.lock == Some(t))
    && (pc.Use? || pc.Unlock? || pc.Reading? || pc.SizeWalking? || pc.WriteWalking? ==> g.state != UNPARSED)
    && (pc.TestState? ==> g.message.Some?)
    && (Working(pc) ==> g.state == UNPARSED && s.hasValue && g.message.Some?)
    && (pc.ClearMessage? ==> Decode(E, u, s.bytes) == Default(E, u))
    && (pc.Publish? ==> g.message == Some(Expected(E, u, s)))
    && WalkerOk(E, u, s, g.touches, pc)
  }

  /**
    The thread holding the mutex may be rewriting the message; otherwise it is untouched or
    published, and then only reads go through it.
  */
  ghost predicate SharedOk(E: Env, u: nat, s: LazyState, g: Config)
    requires u < |E|
  {
    && (g.state == UNPARSED ==> g.touches == [])
    && (g.state != UNPARSED ==> g.message == Some(After(E, u, s, g.touches, |g.touches|)))
    && (s.state != UNPARSED ==> g.state == s.state)
    && (g.state == DIRTY ==> s.state == DIRTY)
    && (!s.hasValue && g.message.Some? ==> g.message == Some(After(E, u, s, g.touches, |g.touches|)))
    && (s.message.Some? ==> g.message.Some?)
    && g.created == (if s.message.None? && g.message.Some? then 1 else 0)
    && g.parses <= 1
    && (g.parses == 1 && g.state == UNPARSED ==>
          g.lock.Some? && g.lock.value < |g.threads| && PastStart(g.threads[g.lock.value]))
  }

  /** Past the start of its parse. */
  predicate PastStart(pc: Pc)
  {
    pc.Parsing? || pc.ClearMessage? || pc.Publish?
  }

  ghost predicate LogOk(E: Env, u: nat, s: LazyState, touches: seq<seq<nat>>, log: seq<Entry>)
    requires u < |E|
  {
    forall i :: 0 <= i < |log| ==> EventOk(E, u, s, touches, log[i].event)
  }

  ghost predicate ConfigOk(E: Env, u: nat, s: LazyState, g: Config)
    requires u < |E|
  {
    && SharedOk(E, u, s, g)
    && (forall t :: 0 <= t < |g.threads| ==> ThreadOk(E, u, s, g, t))
    && LogOk(E, u, s, g.touches, g.log)
    && (g.lock.Some? ==> g.lock.value < |g.threads|)
  }

  lemma AfterNothing(E: Env, u: nat, s: LazyState, touches: seq<seq<nat>>)
    requires u < |E|
    ensures After(E, u, s, touches, 0) == Expected(E, u, s)
  {
    hide Expected;
    assert touches[..0] == [];
  }

  /** One more read: earlier moments stay what they were. */
  lemma AfterOne(E: Env, u: nat, s: LazyState, touches: seq<seq<nat>>, path: seq<nat>)
    requires u < |E|
    ensures var more := touches + [path];
            && After(E, u, s, more, |more|) == Touch(E, u, After(E, u, s, touches, |touches|), path)
            && forall at :: 0 <= at <= |touches| ==> After(E, u, s, more, at) == After(E, u, s, touches, at)
  {
    hide Expected, Touch;
    var more := touches + [path];
    assert forall at :: 0 <= at <= |touches| ==> more[..at] == touches[..at];
    assert more[..|more|] == more && more[..|touches|] == touches[..|touches|] == touches;
  }

  /** Walks that looked earlier looked at what is still there to be told. */
  lemma SnapsOne(E: Env, u: nat, s: LazyState, touches: seq<seq<nat>>, path: seq<nat>, at: seq<nat>)
    requires u < |E| && Ordered(at, |touches|)
    ensures Ordered(at, |touches| + 1) && Snaps(E, u, s, touches + [path], at) == Snaps(E, u, s, touches, at)
  {
    hide After;
    AfterOne(E, u, s, touches, path);
  }

  lemma SizedOne(E: Env, u: nat, s: LazyState, touches: seq<seq<nat>>, path: seq<nat>, size: nat, at: seq<nat>)
    requires u < |E| && SizedOk(E, u, s, touches, size, at)
    ensures SizedOk(E, u, s, touches + [path], size, at)
  {
    hide SizeOf, Snaps;
    SnapsOne(E, u, s, touches, path, at);
  }

  lemma WroteOne(E: Env, u: nat, s: LazyState, touches: seq<seq<nat>>, path: seq<nat>, body: seq<byte>, right: bool, at: seq<nat>)
    requires u < |E| && WroteOk(E, u, s, touches, body, right, at)
    ensures WroteOk(E, u, s, touches + [path], body, right, at)
  {
    hide WriteOf, Snaps;
    SnapsOne(E, u, s, touches, path, at);
  }

  lemma TakenOne(E: Env, u: nat, s: LazyState, touches: seq<seq<nat>>, path: seq<nat>, at: seq<nat>, snaps: seq<Msg>)
    requires u < |E| && TakenOk(E, u, s, touches, at, snaps)
    ensures TakenOk(E, u, s, touches + [path], at, snaps)
  {
    hide Snaps;
    SnapsOne(E, u, s, touches, path, at);
  }

  lemma WalkerOne(E: Env, u: nat, s: LazyState, touches: seq<seq<nat>>, path: seq<nat>, pc: Pc)
    requires u < |E| && WalkerOk(E, u, s, touches, pc)
    ensures WalkerOk(E, u, s, touches + [path], pc)
  {
    hide SizedOk, TakenOk;
    match pc
    case SizeWalking(_, at, snaps) => TakenOne(E, u, s, touches, path, at, snaps);
    case WriteWalking(size, sizedAt, at, snaps) =>
      SizedOne(E, u, s, touches, path, size, sizedAt);
      TakenOne(E, u, s, touches, path, at, snaps);
    case _ =>
  }

  /** One more look, now. */
  lemma TakeNow(E: Env, u: nat, s: LazyState, touches: seq<seq<nat>>, at: seq<nat>, snaps: seq<Msg>)
    requires u < |E| && TakenOk(E, u, s, touches, at, snaps)
    ensures TakenOk(E, u, s, touches, at + [|touches|], snaps + [After(E, u, s, touches, |touches|)])
  {
    hide After;
  }

  lemma AfterSeen(E: Env, u: nat, s: LazyState, touches: seq<seq<nat>>, at: nat)
    requires u < |E| && at <= |touches|
    ensures SameView(E, u, After(E, u, s, touches, at), Expected(E, u, s))
  {
    hide Expected, TouchAll, See;
    forall path: seq<nat>
      ensures See(E, u, After(E, u, s, touches, at), path) == See(E, u, Expected(E, u, s), path)
    {
      TouchAllSeen(E, u, Expected(E, u, s), touches[..at], path);
    }
  }

  lemma StartOk(E: Env, u: nat, s: LazyState, n: nat)
    requires u < |E| && Inv(E, u, s)
    ensures ConfigOk(E, u, s, Start(s, n))
  {
    hide Decode, Default, SameView, WfMsg, After, Created;
    AfterNothing(E, u, s, []);
  }

  lemma DecodeCases(E: Env, u: nat, bytes: seq<byte>)
    requires u < |E|
    ensures var r := ParseFrom(E, u, Default(E, u), bytes, 0);
            Decode(E, u, bytes) == if r.Ok? then r.msg else Default(E, u)
    ensures bytes == [] ==> Decode(E, u, bytes) == Default(E, u)
  {
  }

  // ---- what a step keeps ---------------------------------------------------------------------------

  /** A step moves one thread only, and only adds to the log. */
  lemma OthersStay(E: Env, u: nat, s: LazyState, g: Config, ch: Choice)
    requires u < |E|
    ensures var g' := Step(E, u, s, g, ch);
            && (forall t :: 0 <= t < |g.threads| && t != ch.thread ==> g'.threads[t] == g.threads[t])
            && g.log <= g'.log && |g'.log| <= |g.log| + 1
            && (g'.touches != g.touches ==> ch.thread < |g.threads| && g.threads[ch.thread].Reading?)
  {
    hide ParseFrom, Default, EncLazy, LazySize, SizeOf, WriteOf, See, Touch, Created, Abs;
    if ch.thread < |g.threads| {
      if InParse(g.threads[ch.thread]) {
        hide WalkStep, FreeStep;
      } else if InWalk(g.threads[ch.thread]) {
        hide ParseStep, FreeStep;
      } else {
        hide ParseStep, WalkStep;
      }
    }
  }

  /** Reading on through the message. */
  lemma ReadStep(E: Env, u: nat, s: LazyState, g: Config, ch: Choice)
    requires u < |E| && ConfigOk(E, u, s, g) && ch.thread < |g.threads| && g.threads[ch.thread].Reading?
    ensures var path := g.threads[ch.thread].path;
            var m := After(E, u, s, g.touches + [path], |g.touches| + 1);
            && Step(E, u, s, g, ch) ==
               GoTo(Log(g.(message := Some(m), touches := g.touches + [path]), ch.thread, Saw(path, See(E, u, m, path))), ch.thread, Idle)
            && See(E, u, m, path) == See(E, u, Expected(E, u, s), path)
  {
    hide After, Touch, Expected, EventOk, ParseStep, WalkStep;
    var path := g.threads[ch.thread].path;
    assert ThreadOk(E, u, s, g, ch.thread);
    AfterOne(E, u, s, g.touches, path);
    AfterSeen(E, u, s, g.touches + [path], |g.touches| + 1);
    hide See;
  }

  /** What the invariant says of the thread that moves and of the holder of the mutex. */
  lemma MoverOk(E: Env, u: nat, s: LazyState, g: Config, t: nat)
    requires u < |E| && ConfigOk(E, u, s, g) && t < |g.threads|
    ensures SharedOk(E, u, s, g) && ThreadOk(E, u, s, g, t)
    ensures HoldsLock(g.threads[t]) <==> g.lock == Some(t)
  {
    hide SharedOk, EventOk, HoldsLock;
    assert ThreadOk(E, u, s, g, t);
  }

  lemma ParseShared(E: Env, u: nat, s: LazyState, g: Config, t: nat, junk: Msg)
    requires u < |E| && Inv(E, u, s) && SharedOk(E, u, s, g) && t < |g.threads| && ThreadOk(E, u, s, g, t) && InParse(g.threads[t])
    ensures SharedOk(E, u, s, ParseStep(E, u, s, g, t, junk)) && ThreadOk(E, u, s, ParseStep(E, u, s, g, t, junk), t)
  {
    DecodeCases(E, u, s.bytes);
    AfterNothing(E, u, s, g.touches);
    hide After, Decode, Default, SameView, WfMsg, ParseFrom, Created, WalkerOk;
  }

  lemma WalkKeeps(E: Env, u: nat, s: LazyState, g: Config, t: nat)
    requires u < |E| && t < |g.threads|
    ensures var g' := WalkStep(E, u, s, g, t);
            && g' == g.(threads := g'.threads, lock := g'.lock, log := g'.log)
            && (g'.lock == g.lock || (g'.lock.None? && g.threads[t].ReadUnlock?))
            && forall o :: 0 <= o < |g.threads| && o != t ==> g'.threads[o] == g.threads[o]
  {
    hide Abs, EncLazy, LazySize, SizeOf, WriteOf;
  }

  lemma WalkShared(E: Env, u: nat, s: LazyState, g: Config, t: nat)
    requires u < |E| && SharedOk(E, u, s, g) && t < |g.threads| && ThreadOk(E, u, s, g, t) && InWalk(g.threads[t])
    ensures SharedOk(E, u, s, WalkStep(E, u, s, g, t))
  {
    WalkKeeps(E, u, s, g, t);
    hide After, Decode, Default, Expected, WalkStep, WalkerOk;
  }

  /** The thread in the walk: what it has computed so far is right for the moments it has looked at. */
  lemma WalkThread(E: Env, u: nat, s: LazyState, g: Config, t: nat)
    requires u < |E| && SharedOk(E, u, s, g) && t < |g.threads| && ThreadOk(E, u, s, g, t) && InWalk(g.threads[t])
    ensures ThreadOk(E, u, s, WalkStep(E, u, s, g, t), t)
  {
    hide After, Decode, Default, Abs, EncLazy, LazySize, Expected, SizedOk, TakenOk, SizeOf, WriteOf;
    var pc := g.threads[t];
    NothingTaken(E, u, s, g.touches);
    if pc.SizeWalking? {
      TakeNow(E, u, s, g.touches, pc.at, pc.snaps);
      DoneSizing(E, u, s, g.touches, pc.at, pc.snaps);
    } else if pc.WriteWalking? {
      TakeNow(E, u, s, g.touches, pc.at, pc.snaps);
      assert pc.sizedAt + (pc.at + [|g.touches|]) == pc.sizedAt + pc.at + [|g.touches|];
    }
  }

  lemma NothingTaken(E: Env, u: nat, s: LazyState, touches: seq<seq<nat>>)
    requires u < |E|
    ensures TakenOk(E, u, s, touches, [], [])
  {
    hide After;
  }

  lemma DoneSizing(E: Env, u: nat, s: LazyState, touches: seq<seq<nat>>, at: seq<nat>, snaps: seq<Msg>)
    requires u < |E| && TakenOk(E, u, s, touches, at, snaps)
    ensures Ordered(at + [], |touches|)
    ensures SizeOf(E, u, snaps).used <= |snaps| ==> SizedOk(E, u, s, touches, SizeOf(E, u, snaps).size, at)
  {
    hide After, SizeOf;
    assert at + [] == at;
  }

  lemma FreeKeeps(E: Env, u: nat, s: LazyState, g: Config, t: nat, call: Call)
    requires u < |E| && t < |g.threads| && !g.threads[t].Reading?
    ensures var g' := FreeStep(E, u, s, g, t, call);
            && g' == g.(threads := g'.threads, lock := g'.lock, log := g'.log)
            && (g.lock.Some? ==> g'.lock == g.lock)
            && forall o :: 0 <= o < |g.threads| && o != t ==> g'.threads[o] == g.threads[o]
  {
    hide See, Touch;
  }

  lemma FreeShared(E: Env, u: nat, s: LazyState, g: Config, t: nat, call: Call)
    requires u < |E| && SharedOk(E, u, s, g) && t < |g.threads|
    requires !HoldsLock(g.threads[t]) && !g.threads[t].Reading?
    ensures SharedOk(E, u, s, FreeStep(E, u, s, g, t, call))
  {
    FreeKeeps(E, u, s, g, t, call);
    hide After, Expected, FreeStep;
  }

  lemma FreeThread(E: Env, u: nat, s: LazyState, g: Config, t: nat, call: Call)
    requires u < |E| && SharedOk(E, u, s, g) && t < |g.threads| && ThreadOk(E, u, s, g, t)
    requires !HoldsLock(g.threads[t]) && !g.threads[t].Reading?
    ensures ThreadOk(E, u, s, FreeStep(E, u, s, g, t, call), t)
  {
    hide After, Decode, Default, Size, Expected, See, Touch, SharedOk;
  }

  /** The shared members after a step, and the thread that moved. */
  lemma StepShared(E: Env, u: nat, s: LazyState, g: Config, ch: Choice)
    requires u < |E| && Inv(E, u, s) && ConfigOk(E, u, s, g) && ch.thread < |g.threads|
    ensures SharedOk(E, u, s, Step(E, u, s, g, ch)) && ThreadOk(E, u, s, Step(E, u, s, g, ch), ch.thread)
  {
    MoverOk(E, u, s, g, ch.thread);
    hide ParseStep, WalkStep, FreeStep, Inv, EventOk, After, Expected, See, Size, Decode, Default;
    if InParse(g.threads[ch.thread]) {
      hide SharedOk, ThreadOk;
      ParseShared(E, u, s, g, ch.thread, ch.junk);
    } else if InWalk(g.threads[ch.thread]) {
      hide SharedOk, ThreadOk;
      WalkShared(E, u, s, g, ch.thread);
      WalkThread(E, u, s, g, ch.thread);
    } else if !g.threads[ch.thread].Reading? {
      hide SharedOk, ThreadOk;
      FreeShared(E, u, s, g, ch.thread, ch.call);
      FreeThread(E, u, s, g, ch.thread, ch.call);
    } else {
      ReadStep(E, u, s, g, ch);
      OthersStay(E, u, s, g, ch);
      hide Step;
    }
  }

  lemma StepLock(E: Env, u: nat, s: LazyState, g: Config, ch: Choice)
    requires u < |E| && ch.thread < |g.threads| && (g.lock.Some? ==> g.lock.value < |g.threads|)
    ensures var g' := Step(E, u, s, g, ch);
            && (g'.lock.Some? ==> g'.lock.value < |g'.threads|)
            && (g'.lock != g.lock ==> g.lock.None? || HoldsLock(g.threads[ch.thread]))
            && (g'.lock != g.lock ==> g'.lock.None? || g'.lock == Some(ch.thread))
            && (!HoldsLock(g.threads[ch.thread]) && !g.threads[ch.thread].Reading? ==> g'.state == g.state && g'.message == g.message)
  {
    hide Decode, Default, ParseFrom, EncLazy, LazySize, Abs, Touch, SizeOf, WriteOf, See, Created;
    if InParse(g.threads[ch.thread]) {
      hide WalkStep, FreeStep;
    } else if InWalk(g.threads[ch.thread]) {
      hide ParseStep, FreeStep;
    } else {
      hide ParseStep, WalkStep;
    }
  }

  /**
    The other threads' assertions survive: only the mutex holder writes before publication,
    and after it reads leave the earlier moments as they were.
  */
  lemma StepOthers(E: Env, u: nat, s: LazyState, g: Config, ch: Choice, t: nat)
    requires u < |E| && Inv(E, u, s) && ConfigOk(E, u, s, g) && ch.thread < |g.threads|
    requires t < |g.threads| && t != ch.thread
    ensures ThreadOk(E, u, s, Step(E, u, s, g, ch), t)
  {
    OthersStay(E, u, s, g, ch);
    MoverOk(E, u, s, g, ch.thread);
    MoverOk(E, u, s, g, t);
    StepLock(E, u, s, g, ch);
    StepShared(E, u, s, g, ch);
    Unparsing(E, u, s, g, ch);
    hide Decode, Default, SameView, EventOk, After, Size, Enc, See, Expected, Inv, Step, InParse, InWalk;
    hide WalkerOk;
    if g.threads[ch.thread].Reading? {
      WalkerOne(E, u, s, g.touches, g.threads[ch.thread].path, g.threads[t]);
      ReadStep(E, u, s, g, ch);
    }
  }

  /** A published state stays published; a message never disappears. */
  lemma Unparsing(E: Env, u: nat, s: LazyState, g: Config, ch: Choice)
    requires u < |E| && ch.thread < |g.threads|
    ensures var g' := Step(E, u, s, g, ch);
            && (g.state != UNPARSED ==> g'.state != UNPARSED)
            && (g.message.Some? ==> g'.message.Some?)
  {
    hide Decode, Default, ParseFrom, EncLazy, LazySize, Abs, Touch, SizeOf, WriteOf, See, Created;
    if InParse(g.threads[ch.thread]) {
      hide WalkStep, FreeStep;
    } else if InWalk(g.threads[ch.thread]) {
      hide ParseStep, FreeStep;
    } else {
      hide ParseStep, WalkStep;
    }
  }

  lemma WalkEvent(E: Env, u: nat, s: LazyState, g: Config, t: nat)
    requires u < |E| && SharedOk(E, u, s, g) && t < |g.threads| && ThreadOk(E, u, s, g, t) && InWalk(g.threads[t])
    ensures var g' := WalkStep(E, u, s, g, t); |g'.log| == |g.log| + 1 ==> EventOk(E, u, s, g.touches, g'.log[|g.log|].event)
  {
    hide EncLazy, LazySize, After, See, Expected, Decode, Default, SizeOf, WriteOf, SizedOk, WroteOk, TakenOk, Framed;
    var pc := g.threads[t];
    if pc.SizeWalking? {
      DoneSizing(E, u, s, g.touches, pc.at, pc.snaps);
    } else if pc.WriteWalking? {
      DoneWriting(E, u, s, g.touches, pc.at, pc.snaps);
    }
  }

  lemma DoneWriting(E: Env, u: nat, s: LazyState, touches: seq<seq<nat>>, at: seq<nat>, snaps: seq<Msg>)
    requires u < |E| && TakenOk(E, u, s, touches, at, snaps)
    ensures var r := WriteOf(E, u, snaps); r.used <= |snaps| ==> WroteOk(E, u, s, touches, r.out, r.right, at)
  {
    hide After, WriteOf;
  }

  lemma FreeEvent(E: Env, u: nat, s: LazyState, g: Config, t: nat, call: Call)
    requires u < |E| && SharedOk(E, u, s, g) && t < |g.threads| && ThreadOk(E, u, s, g, t)
    requires !HoldsLock(g.threads[t]) && !g.threads[t].Reading?
    ensures var g' := FreeStep(E, u, s, g, t, call); |g'.log| == |g.log| + 1 ==> EventOk(E, u, s, g.touches, g'.log[|g.log|].event)
  {
    hide EncLazy, LazySize, After, Size, Enc, See, Expected, Decode, Default, Abs, Touch;
  }

  /** The event a step adds, if any. */
  lemma NewEvent(E: Env, u: nat, s: LazyState, g: Config, ch: Choice)
    requires u < |E| && ConfigOk(E, u, s, g) && ch.thread < |g.threads| && !g.threads[ch.thread].Reading?
    ensures var g' := Step(E, u, s, g, ch); |g'.log| == |g.log| + 1 ==> EventOk(E, u, s, g.touches, g'.log[|g.log|].event)
  {
    MoverOk(E, u, s, g, ch.thread);
    hide ConfigOk, SharedOk, ThreadOk, EventOk, WalkStep, FreeStep, ParseFrom, Default, Created;
    if InParse(g.threads[ch.thread]) {
    } else {
      hide ParseStep;
      if InWalk(g.threads[ch.thread]) {
        WalkEvent(E, u, s, g, ch.thread);
      } else {
        FreeEvent(E, u, s, g, ch.thread, ch.call);
      }
    }
  }

  lemma StepLog(E: Env, u: nat, s: LazyState, g: Config, ch: Choice)
    requires u < |E| && ConfigOk(E, u, s, g) && ch.thread < |g.threads|
    ensures var g' := Step(E, u, s, g, ch); LogOk(E, u, s, g'.touches, g'.log)
  {
    hide Step, EventOk, See, After, SharedOk, ThreadOk;
    var g' := Step(E, u, s, g, ch);
    OthersStay(E, u, s, g, ch);
    if g.threads[ch.thread].Reading? {
      ReadStep(E, u, s, g, ch);
      var path := g.threads[ch.thread].path;
      var m := After(E, u, s, g.touches + [path], |g.touches| + 1);
      SawOk(E, u, s, g'.touches, path, m);
      LogStays(E, u, s, g.touches, path, g.log);
    } else {
      NewEvent(E, u, s, g, ch);
      hide ConfigOk;
      assert g'.log == g.log || g'.log == g.log + [g'.log[|g.log|]];
    }
  }

  lemma LogStays(E: Env, u: nat, s: LazyState, touches: seq<seq<nat>>, path: seq<nat>, log: seq<Entry>)
    requires u < |E| && LogOk(E, u, s, touches, log)
    ensures LogOk(E, u, s, touches + [path], log)
  {
    hide EventOk;
    forall i | 0 <= i < |log|
      ensures EventOk(E, u, s, touches + [path], log[i].event)
    {
      EventStays(E, u, s, touches, path, log[i].event);
    }
  }

  lemma SawOk(E: Env, u: nat, s: LazyState, touches: seq<seq<nat>>, path: seq<nat>, m: Msg)
    requires u < |E| && See(E, u, m, path) == See(E, u, Expected(E, u, s), path)
    ensures EventOk(E, u, s, touches, Saw(path, See(E, u, m, path)))
  {
    hide See, Expected;
  }

  /** Events stay what they were when another read is recorded. */
  lemma EventStays(E: Env, u: nat, s: LazyState, touches: seq<seq<nat>>, path: seq<nat>, e: Event)
    requires u < |E| && EventOk(E, u, s, touches, e)
    ensures EventOk(E, u, s, touches + [path], e)
  {
    AfterOne(E, u, s, touches, path);
    hide After, See, EncLazy, LazySize, Abs, Expected, Touch, SizedOk, WroteOk;
    match e
    case WroteMessage(size, body, right, sizedAt, wroteAt) =>
      SizedOne(E, u, s, touches, path, size, sizedAt);
      WroteOne(E, u, s, touches, path, body, right, wroteAt);
    case SizedMessage(_, size, at) => SizedOne(E, u, s, touches, path, size, at);
    case _ =>
  }

  /** Every atomic step of every thread keeps the invariant. */
  lemma StepOk(E: Env, u: nat, s: LazyState, g: Config, ch: Choice)
    requires u < |E| && Inv(E, u, s) && ConfigOk(E, u, s, g)
    ensures ConfigOk(E, u, s, Step(E, u, s, g, ch))
  {
    hide Step, SharedOk, ThreadOk, EventOk, Inv;
    if ch.thread < |g.threads| {
      StepShared(E, u, s, g, ch);
      StepLock(E, u, s, g, ch);
      StepLog(E, u, s, g, ch);
      forall t | 0 <= t < |g.threads| && t != ch.thread
        ensures ThreadOk(E, u, s, Step(E, u, s, g, ch), t)
      {
        StepOthers(E, u, s, g, ch, t);
      }
    } else {
      NoSuchThread(E, u, s, g, ch);
    }
  }

  lemma NoSuchThread(E: Env, u: nat, s: LazyState, g: Config, ch: Choice)
    requires u < |E| && ch.thread >= |g.threads|
    ensures Step(E, u, s, g, ch) == g
  {
  }

  lemma {:induction false} RunOk(E: Env, u: nat, s: LazyState, g: Config, schedule: seq<Choice>)
    requires u < |E| && Inv(E, u, s) && ConfigOk(E, u, s, g)
    ensures ConfigOk(E, u, s, Run(E, u, s, g, schedule))
    decreases |schedule|
  {
    hide Step, ConfigOk, Inv;
    if schedule != [] {
      StepOk(E, u, s, g, schedule[0]);
      RunOk(E, u, s, Step(E, u, s, g, schedule[0]), schedule[1..]);
    }
  }

  // ---- the theorems ----------------------------------------------------------------------------------------

  /** Once published the field is as one thread alone would leave it that makes the same reads. */
  lemma AsOneThread(E: Env, u: nat, s: LazyState, g: Config)
    requires u < |E| && SharedOk(E, u, s, g)
    ensures if g.state == UNPARSED then g.touches == []
            else g.state == Parsed(E, u, s).state && g.message == Some(TouchAll(E, u, Expected(E, u, s), g.touches))
  {
    hide Decode, Default, TouchAll, Created, Expected;
    assert g.touches[..|g.touches|] == g.touches;
  }

  /**
    Concurrent readers are safe: whatever state the field is in, in every interleaving of any
    number of threads, no getter meets a null message, every `Get` returns the one fully parsed
    message (what a single-threaded `Get` would show), as read through so far; every getter on
    it, at any depth and at any time, returns what that message shows; at most one message is
    created and at most one parse runs. Every `Serialize` and `ByteSizeLong` is that of the
    field before parsing, or else writes or counts each lazy member of that message as it is at
    one moment, the moments in the order of the walk; never one half parsed. State and message
    end up as one thread alone would leave them that reads the same.
  */
  lemma ReadersAreSafe(E: Env, u: nat, s: LazyState, n: nat, schedule: seq<Choice>)
    requires u < |E| && Inv(E, u, s)
    ensures var g := Run(E, u, s, Start(s, n), schedule);
            && LogOk(E, u, s, g.touches, g.log)
            && (forall i :: 0 <= i < |g.log| && g.log[i].event.Got? ==> SameView(E, u, g.log[i].event.m, Get(E, u, Abs(s))))
            && Some(Expected(E, u, s)) == Shown(E, u, s)
            && SameView(E, u, Expected(E, u, s), Get(E, u, Abs(s)))
            && g.created <= 1 && g.parses <= 1
            && (if g.state == UNPARSED then g.touches == []
                else g.state == Parsed(E, u, s).state && g.message == Some(TouchAll(E, u, Expected(E, u, s), g.touches)))
  {
    StartOk(E, u, s, n);
    RunOk(E, u, s, Start(s, n), schedule);
    AsOneThread(E, u, s, Run(E, u, s, Start(s, n), schedule));
    AbsShowsSeen(E, u, s);
    DecodeCases(E, u, s.bytes);
    hide Run, See, WfMsg, Default, ParseFrom, SameView, After, Created, Decode;
    var g := Run(E, u, s, Start(s, n), schedule);
    forall i | 0 <= i < |g.log| && g.log[i].event.Got?
      ensures SameView(E, u, g.log[i].event.m, Get(E, u, Abs(s)))
    {
      assert EventOk(E, u, s, g.touches, g.log[i].event);
      AfterSeen(E, u, s, g.touches, g.log[i].event.at);
      ViewTrans(E, u, g.log[i].event.m, Expected(E, u, s), Get(E, u, Abs(s)));
    }
  }

  /**
    After a non-UNPARSED state is published nothing changes the state any more, no other message
    is created and nothing is parsed; what is read through the message is all that changes it.
  */
  lemma PublishedIsFinal(E: Env, u: nat, s: LazyState, g: Config, schedule: seq<Choice>)
    requires u < |E| && Inv(E, u, s) && ConfigOk(E, u, s, g) && g.state != UNPARSED
    ensures var g' := Run(E, u, s, g, schedule);
            && g'.state == g.state && g'.created == g.created && g'.parses == g.parses
            && g.touches <= g'.touches && g.message.Some?
            && g'.message == Some(TouchAll(E, u, Expected(E, u, s), g'.touches))
            && SameView(E, u, g'.message.value, g.message.value)
  {
    PublishedRun(E, u, s, g, schedule);
    RunOk(E, u, s, g, schedule);
    var g' := Run(E, u, s, g, schedule);
    AfterSeen(E, u, s, g.touches, |g.touches|);
    AfterSeen(E, u, s, g'.touches, |g'.touches|);
    assert g'.touches[..|g'.touches|] == g'.touches;
    hide Inv, Run, See, TouchAll, SameView, Expected, ThreadOk, EventOk;
    var m, m' := After(E, u, s, g.touches, |g.touches|), After(E, u, s, g'.touches, |g'.touches|);
    SameViewRefl(E, u, Expected(E, u, s));
    ViewTrans(E, u, m, Expected(E, u, s), Expected(E, u, s));
    ViewTrans(E, u, m', Expected(E, u, s), m);
  }

  lemma {:induction false} PublishedRun(E: Env, u: nat, s: LazyState, g: Config, schedule: seq<Choice>)
    requires u < |E| && Inv(E, u, s) && ConfigOk(E, u, s, g) && g.state != UNPARSED
    ensures var g' := Run(E, u, s, g, schedule);
            g'.state == g.state && g'.created == g.created && g'.parses == g.parses && g.touches <= g'.touches
    decreases |schedule|
  {
    hide Inv, ConfigOk, Step;
    if schedule != [] {
      StepOk(E, u, s, g, schedule[0]);
      PublishedStep(E, u, s, g, schedule[0]);
      PublishedRun(E, u, s, Step(E, u, s, g, schedule[0]), schedule[1..]);
    }
  }

  lemma PublishedStep(E: Env, u: nat, s: LazyState, g: Config, ch: Choice)
    requires u < |E| && Inv(E, u, s) && ConfigOk(E, u, s, g) && g.state != UNPARSED
    ensures var g' := Step(E, u, s, g, ch);
            g'.state == g.state && g'.created == g.created && g'.parses == g.parses && g.touches <= g'.touches
  {
    if ch.thread < |g.threads| {
      MoverOk(E, u, s, g, ch.thread);
      hide ConfigOk, SharedOk, ThreadOk, Inv, After, See, ParseStep, WalkStep, FreeStep;
      if InParse(g.threads[ch.thread]) {
        PublishedParse(E, u, s, g, ch.thread, ch.junk);
      } else if InWalk(g.threads[ch.thread]) {
        WalkKeeps(E, u, s, g, ch.thread);
      } else if g.threads[ch.thread].Reading? {
        ReadStep(E, u, s, g, ch);
        hide Step;
      } else {
        FreeKeeps(E, u, s, g, ch.thread, ch.call);
      }
    }
  }

  lemma PublishedParse(E: Env, u: nat, s: LazyState, g: Config, t: nat, junk: Msg)
    requires u < |E| && Inv(E, u, s) && SharedOk(E, u, s, g) && t < |g.threads| && ThreadOk(E, u, s, g, t)
    requires InParse(g.threads[t]) && g.state != UNPARSED
    ensures var g' := ParseStep(E, u, s, g, t, junk);
            g'.state == g.state && g'.created == g.created && g'.parses == g.parses && g.touches <= g'.touches
  {
    hide Decode, Default, SameView, WfMsg, ParseFrom, After, Created, Expected;
  }

  /** A thread that cannot move is waiting for the mutex. */
  predicate Blocked(g: Config, t: nat)
    requires t < |g.threads|
  {
    (g.threads[t].AwaitParseLock? || g.threads[t].AwaitReadLock?) && g.lock.Some?
  }

  /** No deadlock: whenever a thread is blocked, the holder of the mutex is another thread that can move. */
  lemma NoDeadlock(E: Env, u: nat, s: LazyState, g: Config, t: nat)
    requires u < |E| && ConfigOk(E, u, s, g) && t < |g.threads| && Blocked(g, t)
    ensures var h := g.lock.value;
            h < |g.threads| && h != t && !Blocked(g, h)
            && forall ch: Choice :: ch.thread == h ==> Step(E, u, s, g, ch).threads[h] != g.threads[h]
  {
    hide Decode, Default, SameView, WfMsg, ParseFrom, EncLazy, LazySize, EventOk, SharedOk;
    assert ThreadOk(E, u, s, g, t);
    assert ThreadOk(E, u, s, g, g.lock.value);
  }

  /** A thread that does not wait for the mutex moves on, wherever it is. */
  lemma NeverStuck(E: Env, u: nat, s: LazyState, g: Config, ch: Choice)
    requires u < |E| && ConfigOk(E, u, s, g) && ch.thread < |g.threads| && !Blocked(g, ch.thread)
    ensures Step(E, u, s, g, ch).threads[ch.thread] != g.threads[ch.thread]
  {
    hide Decode, Default, SameView, WfMsg, ParseFrom, EncLazy, LazySize, EventOk, SharedOk;
    assert ThreadOk(E, u, s, g, ch.thread);
  }
}
