/**
  Who frees the message of a `LazyField`. Messages are addresses; `live` holds the heap
  messages not yet deleted. `CreateMessage` allocates on the field's arena only in builds with
  PROTOOPT_HAS_PROTOBUF_ARENA, which the header itself does not define. The pointers move as
  the state machine of `LazyFields` says.
*/
module LazyOwnership {
  import opened Options
  import opened Schema
  import opened Codec
  import opened Views
  import Laziness
  import LazyFields

  /**
    The pointer members of a field, the heap around it, whether a message that was not live
    has been deleted, and (for the record) the heap messages no field will delete any more.
  */
  datatype Life = Life(
    message: Option<nat>, arena: Option<nat>, live: set<nat>, next: nat, badDelete: bool, strays: set<nat>)

  function DeleteMessage(s: Life, a: nat): Life
  {
    s.(live := s.live - {a}, badDelete := s.badDelete || a !in s.live)
  }

  /** `CreateMessage`, in a build with or without arena support. */
  function Create(s: Life, arenaBuild: bool): Life
  {
    var s := s.(message := Some(s.next), next := s.next + 1);
    if arenaBuild && s.arena.Some? then s
    else s.(live := s.live + {s.next - 1}, strays := if s.arena.Some? then s.strays + {s.next - 1} else s.strays)
  }

  /** What a client gives `SetAllocated`: null, a new message, or the message the field already holds. */
  datatype Given = Nothing | NewMessage | HandedBack

  /** What the operations do to the pointers. `OpAccess` is `Get`, `Mutable` or `IsInitialized` reaching the parse. */
  datatype Op =
    | OpParseFrom(arena: Option<nat>)
    | OpAccess
    | OpClear
    | OpSetAllocated(given: Given, arena: Option<nat>)

  function Step(s: Life, arenaBuild: bool, op: Op): Life
  {
    match op
    case OpParseFrom(arena) =>
      var s := if arena.Some? && s.arena.Some? && s.arena != arena then s.(message := None) else s;
      var s := if s.arena.None? && arena.Some? && s.message.Some? then DeleteMessage(s, s.message.value).(message := None) else s;
      if s.arena.None? && arena.Some? then s.(arena := arena) else s
    case OpAccess => if s.message.None? then Create(s, arenaBuild) else s
    case OpClear => s
    case OpSetAllocated(given, arena) =>
      var s := if s.message.Some? && given != HandedBack && s.arena.None? then DeleteMessage(s, s.message.value) else s;
      match given
      case Nothing => s.(message := None, arena := arena)
      case NewMessage =>
        // allocated on `arena`, on the heap if there is none
        s.(message := Some(s.next), arena := arena, next := s.next + 1,
           live := if arena.None? then s.live + {s.next} else s.live)
      case HandedBack =>
        s.(arena := arena, strays := if s.message.None? || s.message.value !in s.live then s.strays
                                     else if arena.None? then s.strays - {s.message.value}
                                     else s.strays + {s.message.value})
  }

  /** A message can be handed back only if there is one, and as a heap message only if it is one. */
  predicate CallOk(s: Life, op: Op)
  {
    op.OpSetAllocated? && op.given.HandedBack? ==>
      s.message.Some? && (op.arena.None? ==> s.message.value in s.live)
  }

  /** The destructor. */
  function Destroy(s: Life): Life
  {
    if s.arena.None? && s.message.Some? then DeleteMessage(s, s.message.value).(message := None) else s.(message := None)
  }

  function Born(arena: Option<nat>, live: set<nat>, next: nat): Life
  {
    Life(None, arena, live, next, false, {})
  }

  function Run(s: Life, arenaBuild: bool, ops: seq<Op>): Life
    decreases |ops|
  {
    if ops == [] then s else Step(Run(s, arenaBuild, ops[..|ops| - 1]), arenaBuild, ops[|ops| - 1])
  }

  predicate CallsOk(s: Life, arenaBuild: bool, ops: seq<Op>)
  {
    forall i :: 0 <= i < |ops| ==> CallOk(Run(s, arenaBuild, ops[..i]), ops[i])
  }

  lemma CallsOkPrefix(s: Life, arenaBuild: bool, ops: seq<Op>)
    requires ops != [] && CallsOk(s, arenaBuild, ops)
    ensures CallsOk(s, arenaBuild, ops[..|ops| - 1])
    ensures CallOk(Run(s, arenaBuild, ops[..|ops| - 1]), ops[|ops| - 1])
  {
    hide Run, CallOk;
    var before := ops[..|ops| - 1];
    forall i | 0 <= i < |before|
      ensures CallOk(Run(s, arenaBuild, before[..i]), before[i])
    {
      assert before[..i] == ops[..i];
    }
  }

  // ---- the same field -------------------------------------------------------------------------------

  /** Address and arena are those of the state machine's message. */
  predicate Matches(s: LazyFields.LazyState, l: Life)
  {
    (s.message.Some? <==> l.message.Some?) && s.arena == l.arena
  }

  /** The two ops are one call; a message handed back is the one held. */
  predicate SameCall(s: LazyFields.LazyState, op: LazyFields.Op, lop: Op)
  {
    match op
    case OpParseFrom(_, arena) => lop == OpParseFrom(arena)
    case OpRead(_) => lop == OpAccess
    case OpAssign(_, _) => lop == OpAccess
    case OpClear => lop == OpClear
    case OpSetAllocated(m, arena) =>
      lop.OpSetAllocated? && lop.arena == arena && (m.None? <==> lop.given.Nothing?) && (lop.given.HandedBack? ==> m == s.message)
  }

  lemma StepMatches(E: Env, u: nat, s: LazyFields.LazyState, l: Life, op: LazyFields.Op, lop: Op)
    requires u < |E| && LazyFields.Inv(E, u, s) && Matches(s, l) && SameCall(s, op, lop)
    ensures Matches(LazyFields.Step(E, u, s, op), Step(l, s.arenas, lop))
    ensures LazyFields.Step(E, u, s, op).arenas == s.arenas
  {
    hide WfMsg, Default, Fresh, LazyFields.Created, Laziness.Touch, SameView, Decode;
  }

  /** The pointers of this model move exactly as the state machine's, over every life of a field. */
  lemma {:induction false} RunMatches(
    E: Env, u: nat, arena: Option<nat>, arenas: bool, ops: seq<LazyFields.Op>, live: set<nat>, next: nat, lops: seq<Op>)
    requires u < |E| && |ops| == |lops|
    requires forall i :: 0 <= i < |ops| ==> LazyFields.OpOk(E, u, ops[i])
    requires forall i :: 0 <= i < |ops| ==> SameCall(LazyFields.Run(E, u, LazyFields.Empty(arena, arenas), ops[..i]), ops[i], lops[i])
    ensures Matches(LazyFields.Run(E, u, LazyFields.Empty(arena, arenas), ops), Run(Born(arena, live, next), arenas, lops))
    ensures LazyFields.Run(E, u, LazyFields.Empty(arena, arenas), ops).arenas == arenas
    decreases |ops|
  {
    hide LazyFields.Step, LazyFields.OpOk, LazyFields.Inv, Step, SameCall;
    if ops != [] {
      var n := |ops| - 1;
      var before := ops[..n];
      assert forall i :: 0 <= i < n ==> before[..i] == ops[..i];
      RunMatches(E, u, arena, arenas, before, live, next, lops[..n]);
      LazyFields.RunRefines(E, u, arena, arenas, before);
      StepMatches(E, u, LazyFields.Run(E, u, LazyFields.Empty(arena, arenas), before),
                  Run(Born(arena, live, next), arenas, lops[..n]), ops[n], lops[n]);
    }
  }

  // ---- who owns what --------------------------------------------------------------------------------

  /** Heap messages are the older ones, the strays, and the field's own if it has no arena. */
  ghost predicate Owns(s: Life, base: set<nat>, first: nat)
  {
    && !s.badDelete && first <= s.next
    && (forall a :: a in base ==> a < first)
    && (forall a :: a in s.strays ==> first <= a < s.next)
    && (s.message.Some? ==> first <= s.message.value < s.next)
    && (s.message.Some? && s.arena.None? ==> s.message.value !in s.strays)
    && s.live == base + s.strays + (if s.message.Some? && s.arena.None? then {s.message.value} else {})
  }

  lemma StepOwns(s: Life, base: set<nat>, first: nat, arenaBuild: bool, op: Op)
    requires Owns(s, base, first) && CallOk(s, op)
    ensures Owns(Step(s, arenaBuild, op), base, first)
  {
    var s' := Step(s, arenaBuild, op);
    assert s'.live == base + s'.strays + (if s'.message.Some? && s'.arena.None? then {s'.message.value} else {});
  }

  lemma {:induction false} RunOwns(s: Life, base: set<nat>, first: nat, arenaBuild: bool, ops: seq<Op>)
    requires Owns(s, base, first) && CallsOk(s, arenaBuild, ops)
    ensures Owns(Run(s, arenaBuild, ops), base, first)
    decreases |ops|
  {
    hide Step, Owns, CallsOk, CallOk;
    if ops != [] {
      CallsOkPrefix(s, arenaBuild, ops);
      RunOwns(s, base, first, arenaBuild, ops[..|ops| - 1]);
      StepOwns(Run(s, arenaBuild, ops[..|ops| - 1]), base, first, arenaBuild, ops[|ops| - 1]);
    }
  }

  /**
    The call leaves heap message `a` in a field with an arena, which will not delete it: an
    access that creates it there in a build without arena support, or a client handing the
    field's own message back together with an arena.
  */
  predicate Strands(s: Life, arenaBuild: bool, op: Op, a: nat)
  {
    || (op.OpAccess? && s.message.None? && s.arena.Some? && !arenaBuild && a == s.next)
    || (op.OpSetAllocated? && op.given.HandedBack? && op.arena.Some? && s.message == Some(a) && a in s.live)
  }

  /** The client hands `a` back without an arena: the field owns it again. */
  predicate Reclaims(s: Life, op: Op, a: nat)
  {
    op == OpSetAllocated(HandedBack, None) && s.message == Some(a)
  }

  predicate StrandsAt(s: Life, arenaBuild: bool, ops: seq<Op>, i: nat, a: nat)
    requires i < |ops|
  {
    Strands(Run(s, arenaBuild, ops[..i]), arenaBuild, ops[i], a)
  }

  predicate ReclaimsAt(s: Life, arenaBuild: bool, ops: seq<Op>, i: nat, a: nat)
    requires i < |ops|
  {
    Reclaims(Run(s, arenaBuild, ops[..i]), ops[i], a)
  }

  /** Every message stranded is reclaimed by a later call. */
  ghost predicate AllReclaimed(s: Life, arenaBuild: bool, ops: seq<Op>)
  {
    forall i, a :: 0 <= i < |ops| && StrandsAt(s, arenaBuild, ops, i, a) ==>
      exists j :: i < j < |ops| && ReclaimsAt(s, arenaBuild, ops, j, a)
  }

  /** Stranded, and not reclaimed since. */
  ghost predicate Lost(s: Life, arenaBuild: bool, ops: seq<Op>, a: nat)
  {
    exists i :: 0 <= i < |ops| && StrandsAt(s, arenaBuild, ops, i, a)
                && forall j :: i < j < |ops| ==> !ReclaimsAt(s, arenaBuild, ops, j, a)
  }

  lemma StrayStep(s: Life, arenaBuild: bool, op: Op, a: nat)
    requires CallOk(s, op)
    ensures a in Step(s, arenaBuild, op).strays <==> Strands(s, arenaBuild, op, a) || (a in s.strays && !Reclaims(s, op, a))
  {
  }

  lemma {:induction false} StraysAreLost(s: Life, arenaBuild: bool, ops: seq<Op>, a: nat)
    requires s.strays == {} && CallsOk(s, arenaBuild, ops)
    ensures a in Run(s, arenaBuild, ops).strays <==> Lost(s, arenaBuild, ops, a)
    decreases |ops|
  {
    hide Strands, Reclaims, CallsOk, CallOk, Step;
    if ops != [] {
      var n := |ops| - 1;
      var before := ops[..n];
      CallsOkPrefix(s, arenaBuild, ops);
      StraysAreLost(s, arenaBuild, before, a);
      StrayStep(Run(s, arenaBuild, before), arenaBuild, ops[n], a);
      assert forall i :: 0 <= i < n ==> before[..i] == ops[..i] && before[i] == ops[i];
      LostStep(s, arenaBuild, ops, a);
    }
  }

  lemma LostStep(s: Life, arenaBuild: bool, ops: seq<Op>, a: nat)
    requires ops != []
    ensures var n := |ops| - 1;
            Lost(s, arenaBuild, ops, a) <==>
            StrandsAt(s, arenaBuild, ops, n, a) || (Lost(s, arenaBuild, ops[..n], a) && !ReclaimsAt(s, arenaBuild, ops, n, a))
  {
    hide Strands, Reclaims, Run;
    var n := |ops| - 1;
    var before := ops[..n];
    forall i: nat | i < n
      ensures StrandsAt(s, arenaBuild, before, i, a) == StrandsAt(s, arenaBuild, ops, i, a)
      ensures ReclaimsAt(s, arenaBuild, before, i, a) == ReclaimsAt(s, arenaBuild, ops, i, a)
    {
      assert before[..i] == ops[..i];
    }
    hide StrandsAt, ReclaimsAt;
    if Lost(s, arenaBuild, ops, a) {
      var i: nat :| i < |ops| && StrandsAt(s, arenaBuild, ops, i, a) && forall j :: i < j < |ops| ==> !ReclaimsAt(s, arenaBuild, ops, j, a);
      if i < n {
        assert StrandsAt(s, arenaBuild, before, i, a);
      }
    }
    if Lost(s, arenaBuild, before, a) && !ReclaimsAt(s, arenaBuild, ops, n, a) {
      var i: nat :| i < n && StrandsAt(s, arenaBuild, before, i, a) && forall j :: i < j < n ==> !ReclaimsAt(s, arenaBuild, before, j, a);
      assert StrandsAt(s, arenaBuild, ops, i, a);
    }
  }

  /**
    Nothing is ever deleted that is not live, and nothing older is deleted. After the
    destructor every heap message of the field is gone exactly when each message left on the
    heap under an arena was handed back without one; the others leak.
  */
  lemma FreedExactlyWhen(arena: Option<nat>, base: set<nat>, next: nat, arenaBuild: bool, ops: seq<Op>)
    requires (forall a :: a in base ==> a < next) && CallsOk(Born(arena, base, next), arenaBuild, ops)
    ensures var e := Destroy(Run(Born(arena, base, next), arenaBuild, ops));
            && !e.badDelete && base <= e.live
            && (e.live == base <==> AllReclaimed(Born(arena, base, next), arenaBuild, ops))
  {
    hide Run, StrandsAt, ReclaimsAt, CallsOk;
    var s := Born(arena, base, next);
    RunOwns(s, base, next, arenaBuild, ops);
    var r := Run(s, arenaBuild, ops);
    var e := Destroy(r);
    assert e.live == base + r.strays;
    forall a: nat
      ensures a in r.strays <==> Lost(s, arenaBuild, ops, a)
    {
      StraysAreLost(s, arenaBuild, ops, a);
    }
    if r.strays != {} {
      var a :| a in r.strays;
      assert a !in base;
      assert Lost(s, arenaBuild, ops, a);
    } else {
      forall i: nat, a: nat | i < |ops| && StrandsAt(s, arenaBuild, ops, i, a)
        ensures exists j :: i < j < |ops| && ReclaimsAt(s, arenaBuild, ops, j, a)
      {
        assert !Lost(s, arenaBuild, ops, a);
      }
    }
  }

  /** Only builds without arena support leak, unless a client hands a message back together with an arena. */
  lemma ArenaBuildsNeverLeak(arena: Option<nat>, base: set<nat>, next: nat, ops: seq<Op>)
    requires (forall a :: a in base ==> a < next) && CallsOk(Born(arena, base, next), true, ops)
    requires forall i :: 0 <= i < |ops| ==> !(ops[i].OpSetAllocated? && ops[i].given.HandedBack? && ops[i].arena.Some?)
    ensures Destroy(Run(Born(arena, base, next), true, ops)).live == base
  {
    hide Run, CallsOk, ReclaimsAt;
    FreedExactlyWhen(arena, base, next, true, ops);
  }

  /** Without any arena nothing leaks, whatever the build. */
  lemma {:induction false} HeapFieldsNeverLeak(base: set<nat>, next: nat, arenaBuild: bool, ops: seq<Op>)
    requires (forall a :: a in base ==> a < next) && CallsOk(Born(None, base, next), arenaBuild, ops)
    requires forall i :: 0 <= i < |ops| ==> NoArena(ops[i])
    ensures Destroy(Run(Born(None, base, next), arenaBuild, ops)).live == base
  {
    hide Run, CallsOk, ReclaimsAt;
    var s := Born(None, base, next);
    FreedExactlyWhen(None, base, next, arenaBuild, ops);
    forall i: nat, a: nat | i < |ops|
      ensures !StrandsAt(s, arenaBuild, ops, i, a)
    {
      StaysOnHeap(s, arenaBuild, ops[..i]);
      assert NoArena(ops[i]);
    }
  }

  predicate NoArena(op: Op)
  {
    (op.OpParseFrom? || op.OpSetAllocated?) ==> op.arena.None?
  }

  lemma {:induction false} StaysOnHeap(s: Life, arenaBuild: bool, ops: seq<Op>)
    requires s.arena.None? && forall i :: 0 <= i < |ops| ==> NoArena(ops[i])
    ensures Run(s, arenaBuild, ops).arena.None?
    decreases |ops|
  {
    if ops != [] {
      StaysOnHeap(s, arenaBuild, ops[..|ops| - 1]);
      assert NoArena(ops[|ops| - 1]);
    }
  }

  /** A life that leaks: one access on an arena in a build without arena support. */
  lemma AccessOnArenaLeaks(arena: nat)
    ensures Destroy(Run(Born(Some(arena), {}, 0), false, [OpAccess])).live == {0}
  {
    assert Run(Born(Some(arena), {}, 0), false, []) == Born(Some(arena), {}, 0);
    assert [OpAccess][..0] == [];
  }
}
