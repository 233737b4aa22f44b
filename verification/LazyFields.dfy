/**
  `LazyField`: the UNPARSED/PARSED/DIRTY state machine that stores a submessage as bytes until
  it is read. The state transitions are functions on `LazyState`; the class runs them on the
  heap; and every run of them is a run of a plain optional message.
*/
module LazyFields {
  import opened Options
  import opened Varint
  import opened VarintCode
  import opened Wire
  import opened Schema
  import opened Codec
  import opened RoundTrip
  import opened Views
  import Laziness
  import opened GeneratedMessage

  datatype State = UNPARSED | PARSED | DIRTY

  /**
    The members of a `LazyField`; an arena is an identity. `arenas` says whether the program was
    built with PROTOOPT_HAS_PROTOBUF_ARENA.
  */
  datatype LazyState = LazyState(
    state: State, bytes: seq<byte>, message: Option<Msg>, hasValue: bool, arena: Option<nat>, arenas: bool)

  /** The constructors. */
  function Empty(arena: Option<nat>, arenas: bool): LazyState
  {
    LazyState(UNPARSED, [], None, false, arena, arenas)
  }

  // ---- the transitions --------------------------------------------------------------------------------

  /** `ParseFrom` once the payload is read: a message tied to another arena, or about to move to one, is dropped. */
  function Store(s: LazyState, payload: seq<byte>, arena: Option<nat>): LazyState
  {
    var moved := arena.Some? && s.arena != arena;
    s.(state := UNPARSED, bytes := payload, message := if moved then None else s.message, hasValue := true,
       arena := if s.arena.None? then arena else s.arena)
  }

  /** `CreateMessage`: in a build with arenas, a message on an arena has non-default empty strings. */
  function Created(E: Env, u: nat, s: LazyState): Msg
    requires u < |E|
  {
    Fresh(E, u, s.arenas && s.arena.Some?)
  }

  /** `EnsureParsedLocked`. */
  function ParsedLocked(E: Env, u: nat, s: LazyState): LazyState
    requires u < |E|
  {
    var s := if s.message.None? then s.(message := Some(Created(E, u, s))) else s;
    if !s.hasValue then s.(state := PARSED)
    else if s.state != UNPARSED then s
    else s.(message := Some(Decode(E, u, s.bytes)), state := PARSED)
  }

  /** `EnsureParsed`, with its lock-free fast path. */
  function Parsed(E: Env, u: nat, s: LazyState): LazyState
    requires u < |E|
  {
    if s.state != UNPARSED then s else ParsedLocked(E, u, s)
  }

  /** `EnsureParsedNonConst`. */
  function ParsedNonConst(E: Env, u: nat, s: LazyState): LazyState
    requires u < |E|
  {
    if s.state == DIRTY && s.message.Some? then s
    else
      var s := ParsedLocked(E, u, s);
      (if s.state != DIRTY then s.(state := DIRTY, bytes := []) else s).(hasValue := true)
  }

  function Cleared(E: Env, u: nat, s: LazyState): LazyState
    requires u < |E|
  {
    s.(bytes := [], hasValue := false, state := UNPARSED, message := if s.message.None? then None else Some(Default(E, u)))
  }

  function Allocated(s: LazyState, m: Option<Msg>, arena: Option<nat>): LazyState
  {
    s.(state := if m.Some? then DIRTY else UNPARSED, bytes := [], message := m, hasValue := m.Some?, arena := arena)
  }

  /** The member as the codec sees it. */
  function Abs(s: LazyState): LazyVal
  {
    if !s.hasValue then Unset
    else if s.state == UNPARSED then Raw(s.bytes)
    else if s.message.Some? then Live(s.message.value)
    else Unset
  }

  /** What `Get` refers to. */
  function Shown(E: Env, u: nat, s: LazyState): Option<Msg>
    requires u < |E|
  {
    Parsed(E, u, s).message
  }

  // ---- the invariant ------------------------------------------------------------------------------------

  ghost predicate Inv(E: Env, u: nat, s: LazyState)
    requires u < |E|
  {
    && (s.message.Some? ==> WfMsg(E, u, s.message.value))
    && (s.state != UNPARSED ==> s.message.Some?)
    && (s.state == DIRTY ==> s.hasValue && s.bytes == [])
    && (s.state == PARSED && s.hasValue ==> SameView(E, u, s.message.value, Decode(E, u, s.bytes)))
    && (!s.hasValue ==> s.bytes == [] && (s.message.Some? ==> AllDefault(E, u, s.message.value)))
  }

  /** What a client can do; a message obtained by `Get` is read further, one obtained by `Mutable` is assigned to. */
  datatype Op =
    | OpParseFrom(payload: seq<byte>, arena: Option<nat>)
    | OpRead(path: seq<nat>)
    | OpAssign(member: nat, cell: Cell)
    | OpClear
    | OpSetAllocated(message: Option<Msg>, arena: Option<nat>)

  predicate OpOk(E: Env, u: nat, op: Op)
    requires u < |E|
  {
    match op
    case OpAssign(i, c) => i < |E[u]| && WfCell(E, E[u][i].kind, c)
    case OpSetAllocated(m, _) => m.Some? ==> WfMsg(E, u, m.value)
    case _ => true
  }

  function Step(E: Env, u: nat, s: LazyState, op: Op): LazyState
    requires u < |E|
  {
    match op
    case OpParseFrom(payload, arena) => Store(s, payload, arena)
    case OpRead(path) =>
      var s := Parsed(E, u, s);
      if s.message.Some? then s.(message := Some(Laziness.Touch(E, u, s.message.value, path))) else s
    case OpAssign(i, c) =>
      var s := ParsedNonConst(E, u, s);
      if s.message.Some? && i < |s.message.value.cells|
      then s.(message := Some(Msg(s.message.value.cells[i := c]))) else s
    case OpClear => Cleared(E, u, s)
    case OpSetAllocated(m, arena) => Allocated(s, m, arena)
  }

  /** A plain optional message: a value, the default when absent. */
  datatype Plain = Plain(value: Msg, present: bool)

  function PlainStep(E: Env, u: nat, p: Plain, op: Op): Plain
    requires u < |E|
  {
    match op
    case OpParseFrom(payload, _) => Plain(Decode(E, u, payload), true)
    case OpRead(_) => p
    case OpAssign(i, c) => Plain(if i < |p.value.cells| then Msg(p.value.cells[i := c]) else p.value, true)
    case OpClear => Plain(Default(E, u), false)
    case OpSetAllocated(m, _) => if m.Some? then Plain(m.value, true) else Plain(Default(E, u), false)
  }

  /** A whole life of a field. */
  function Run(E: Env, u: nat, s: LazyState, ops: seq<Op>): LazyState
    requires u < |E|
    decreases |ops|
  {
    if ops == [] then s else Step(E, u, Run(E, u, s, ops[..|ops| - 1]), ops[|ops| - 1])
  }

  function PlainRun(E: Env, u: nat, ops: seq<Op>): Plain
    requires u < |E|
  {
    if ops == [] then Plain(Default(E, u), false) else PlainStep(E, u, PlainRun(E, u, ops[..|ops| - 1]), ops[|ops| - 1])
  }

  /** Reading the field now gives a message showing `p.value`, and presence agrees. */
  ghost predicate Refines(E: Env, u: nat, s: LazyState, p: Plain)
    requires u < |E|
  {
    && Inv(E, u, s) && s.hasValue == p.present && |p.value.cells| == |E[u]|
    && Shown(E, u, s).Some? && WfMsg(E, u, Shown(E, u, s).value)
    && SameView(E, u, Shown(E, u, s).value, p.value)
  }

  /** A new message shows only defaults, wherever it is allocated. */
  lemma CreatedIsDefault(E: Env, u: nat, s: LazyState)
    requires u < |E|
    ensures WfMsg(E, u, Created(E, u, s)) && AllDefault(E, u, Created(E, u, s))
  {
    hide See, WfMsg, Fresh, Default;
    var onArena := s.arenas && s.arena.Some?;
    FreshWf(E, u, onArena);
    forall path: seq<nat>
      ensures See(E, u, Fresh(E, u, onArena), path) == See(E, u, Default(E, u), path)
    {
      FreshSeen(E, u, onArena, path);
    }
  }

  lemma TouchView(E: Env, t: nat, m: Msg, path: seq<nat>)
    requires WfMsg(E, t, m)
    ensures SameView(E, t, Laziness.Touch(E, t, m, path), m) && WfMsg(E, t, Laziness.Touch(E, t, m, path))
  {
    hide See, WfMsg;
    Laziness.TouchWf(E, t, m, path);
    forall other: seq<nat>
      ensures See(E, t, Laziness.Touch(E, t, m, path), other) == See(E, t, m, other)
    {
      Laziness.TouchSeen(E, t, m, path, other);
    }
  }

  /** Assigning the same member of two messages that look alike leaves them looking alike. */
  lemma AssignView(E: Env, t: nat, a: Msg, b: Msg, i: nat, c: Cell)
    requires t < |E| && |a.cells| == |b.cells| == |E[t]| && i < |E[t]| && SameView(E, t, a, b)
    ensures SameView(E, t, Msg(a.cells[i := c]), Msg(b.cells[i := c]))
  {
    hide See, SeeCell, SameView;
    ShowsByCells(E, t, a, b);
    ShowsByCells(E, t, Msg(a.cells[i := c]), Msg(b.cells[i := c]));
  }

  lemma AssignWf(E: Env, t: nat, m: Msg, i: nat, c: Cell)
    requires WfMsg(E, t, m) && i < |m.cells| && WfCell(E, E[t][i].kind, c)
    ensures WfMsg(E, t, Msg(m.cells[i := c]))
  {
  }

  /** Parsing on demand keeps the invariant and does not change what is read, now or later. */
  lemma EnsureParsedKeeps(E: Env, u: nat, s: LazyState)
    requires u < |E| && Inv(E, u, s)
    ensures var s' := Parsed(E, u, s);
            && Inv(E, u, s') && s'.state != UNPARSED && s'.hasValue == s.hasValue && s'.bytes == s.bytes
            && WfMsg(E, u, s'.message.value) && Shown(E, u, s') == Shown(E, u, s)
            && (!s.hasValue ==> AllDefault(E, u, s'.message.value))
            && (s.state == UNPARSED && s.hasValue ==> s'.message.value == Decode(E, u, s.bytes))
  {
    hide See, Decode, WfMsg, Default, Created;
    CreatedIsDefault(E, u, s);
    Laziness.DecodeWf(E, u, s.bytes);
    SameViewRefl(E, u, Decode(E, u, s.bytes));
  }

  lemma NonConstKeeps(E: Env, u: nat, s: LazyState)
    requires u < |E| && Inv(E, u, s)
    ensures var s' := ParsedNonConst(E, u, s);
            && Inv(E, u, s') && s'.state == DIRTY && s'.hasValue && Shown(E, u, s') == Shown(E, u, s)
            && WfMsg(E, u, s'.message.value)
  {
    hide See, Decode, WfMsg, Default, Created;
    CreatedIsDefault(E, u, s);
    Laziness.DecodeWf(E, u, s.bytes);
    SameViewRefl(E, u, Decode(E, u, s.bytes));
  }

  lemma StepRefines(E: Env, u: nat, s: LazyState, p: Plain, op: Op)
    requires u < |E| && OpOk(E, u, op) && Refines(E, u, s, p)
    ensures Refines(E, u, Step(E, u, s, op), PlainStep(E, u, p, op))
  {
    hide See, Decode, WfMsg, Default, Laziness.Touch, SameView, WfCell, Created;
    DefaultWf(E, u);
    WfShape(E, u, Default(E, u));
    SameViewRefl(E, u, Default(E, u));
    match op
    case OpParseFrom(payload, arena) =>
      Laziness.DecodeWf(E, u, payload);
      SameViewRefl(E, u, Decode(E, u, payload));
      EnsureParsedKeeps(E, u, Store(s, payload, arena));
    case OpRead(path) =>
      EnsureParsedKeeps(E, u, s);
      var m := Parsed(E, u, s).message.value;
      TouchView(E, u, m, path);
      ViewTrans(E, u, Laziness.Touch(E, u, m, path), m, p.value);
      if !s.hasValue { ViewTrans(E, u, Laziness.Touch(E, u, m, path), m, Default(E, u)); }
      if s.hasValue && Parsed(E, u, s).state == PARSED {
        ViewTrans(E, u, Laziness.Touch(E, u, m, path), m, Decode(E, u, s.bytes));
      }
    case OpAssign(i, c) =>
      NonConstKeeps(E, u, s);
      var m := ParsedNonConst(E, u, s).message.value;
      WfShape(E, u, m);
      AssignWf(E, u, m, i, c);
      AssignView(E, u, m, p.value, i, c);
    case OpClear =>
      EnsureParsedKeeps(E, u, Cleared(E, u, s));
      EmptyDecodes(E, u);
    case OpSetAllocated(m, arena) =>
      if m.Some? {
        SameViewRefl(E, u, m.value);
        WfShape(E, u, m.value);
      } else {
        EnsureParsedKeeps(E, u, Allocated(s, m, arena));
      }
  }

  lemma EmptyDecodes(E: Env, u: nat)
    requires u < |E|
    ensures Decode(E, u, []) == Default(E, u)
  {
  }

  /**
    A LazyField is a plain optional message: after any sequence of operations, reading it
    shows what the plain cell holds, at every getter and every depth, with or without arenas, and
    the invariant holds.
  */
  lemma {:induction false} RunRefines(E: Env, u: nat, arena: Option<nat>, arenas: bool, ops: seq<Op>)
    requires u < |E| && forall i :: 0 <= i < |ops| ==> OpOk(E, u, ops[i])
    ensures Refines(E, u, Run(E, u, Empty(arena, arenas), ops), PlainRun(E, u, ops))
    decreases |ops|
  {
    hide See, Decode, WfMsg, Default, Step, PlainStep, OpOk;
    var s := Empty(arena, arenas);
    if ops == [] {
      EmptyRefines(E, u, s);
    } else {
      var before := ops[..|ops| - 1];
      RunRefines(E, u, arena, arenas, before);
      StepRefines(E, u, Run(E, u, s, before), PlainRun(E, u, before), ops[|ops| - 1]);
    }
  }

  lemma EmptyRefines(E: Env, u: nat, s: LazyState)
    requires u < |E| && s == Empty(s.arena, s.arenas)
    ensures Refines(E, u, s, Plain(Default(E, u), false))
  {
    hide See, WfMsg, Created;
    CreatedIsDefault(E, u, s);
  }

  /** What the codec reads from the abstract member is what the state machine shows. */
  lemma AbsShowsSeen(E: Env, u: nat, s: LazyState)
    requires u < |E| && Inv(E, u, s)
    ensures Shown(E, u, s).Some? && SameView(E, u, Shown(E, u, s).value, Get(E, u, Abs(s)))
  {
    hide See, WfMsg, Decode, Default;
    EnsureParsedKeeps(E, u, s);
    SameViewRefl(E, u, Shown(E, u, s).value);
  }

  // ---- the object --------------------------------------------------------------------------------------------

  class LazyField {
    const env: Env
    const sub: nat
    const arenas: bool
    var state: State
    var unparsedBytes: seq<byte>
    var message: Message?
    var arena: Option<nat>
    var hasValue: bool

    ghost predicate Valid()
      reads this, message
    {
      && sub < |env|
      && (message != null ==> message.env == env && message.typ == sub && message.Valid())
      && Inv(env, sub, Current())
    }

    function Current(): LazyState
      reads this, message
    {
      LazyState(state, unparsedBytes, if message == null then None else Some(message.Value()), hasValue, arena, arenas)
    }

    constructor (E: Env, u: nat, arena: Option<nat>, arenas: bool)
      requires u < |E|
      ensures env == E && sub == u && Valid() && Current() == Empty(arena, arenas)
    {
      env, sub, this.arenas, state, unparsedBytes, message := E, u, arenas, UNPARSED, [], null;
      this.arena, hasValue := arena, false;
    }

    /** `ParseFrom(ptr, ctx, arena)`: read a length, keep that many bytes, parse nothing. */
    method ParseFrom(buf: seq<byte>, ptr: nat, arena: Option<nat>) returns (r: Ptr)
      requires Valid() && ptr <= |buf|
      modifies this
      ensures Valid()
      ensures match ParseField(env, KLazy(sub), Lazy(Unset), buf, ptr) {
                case FieldOk(c, end) => r == At(end) && c.Lazy? && c.val.Raw? && Current() == Store(old(Current()), c.val.bytes, arena)
                                        && Abs(Current()) == c.val
                case FieldFailed(_) => r == Null && Current() == old(Current())
                case FieldOutside => r == Overrun && Current() == old(Current())
              }
    {
      hide Decode, WfMsg, See, Default;
      var size;
      r, size := ReadVarint32(buf, ptr);
      if !r.At? {
        return;
      }
      var payload := r.pos;
      r := Advance(buf, payload, size);
      if !r.At? {
        return;
      }
      if arena.Some? && this.arena.Some? && this.arena != arena && message != null {
        message := null;
      }
      if this.arena.None? && arena.Some? && message != null {
        message := null;
      }
      if this.arena.None? && arena.Some? {
        this.arena := arena;
      }
      unparsedBytes := buf[payload..payload + size];
      state := UNPARSED;
      hasValue := true;
    }

    /** `EnsureParsedLocked`. */
    method EnsureParsedLocked()
      requires Valid()
      modifies this, message
      ensures sub < |env| && message != null && message.env == env && message.typ == sub && message.Valid()
      ensures old(message) != null ==> message == old(message)
      ensures old(message) == null ==> fresh(message)
      ensures Current() == ParsedLocked(env, sub, old(Current()))
    {
      hide See, SameView, WfMsg, GeneratedMessage.Outcome, DefaultCell, FreshCell;
      if message == null {
        message := new Message(env, sub, arenas && arena.Some?);
      }
      if !hasValue {
        state := PARSED;
        return;
      }
      if state != UNPARSED {
        return;
      }
      if unparsedBytes == [] {
        EmptyDecodes(env, sub);
        message.Clear();
        state := PARSED;
        return;
      }
      var r := message.ParseFromArray(unparsedBytes);
      DecodeByOutcome(env, sub, unparsedBytes, r, message.Value());
      if !r.At? {
        message.Clear();
      }
      state := PARSED;
    }

    /** `Get`: never null, and showing what the field holds. */
    method Get() returns (m: Message)
      requires Valid()
      modifies this, message
      ensures Valid() && m == message && Current() == Parsed(env, sub, old(Current()))
      ensures Some(m.Value()) == Shown(env, sub, old(Current()))
      ensures SameView(env, sub, m.Value(), Codec.Get(env, sub, Abs(old(Current()))))
    {
      hide See, SameView, WfMsg, Decode, Default;
      AbsShowsSeen(env, sub, Current());
      EnsureParsedKeeps(env, sub, Current());
      if state == UNPARSED {
        EnsureParsedLocked();
      }
      m := message;
    }

    /** `Mutable`: the same message, now owned by the caller's edits. */
    method Mutable() returns (m: Message)
      requires Valid()
      modifies this, message
      ensures Valid() && m == message && state == DIRTY && hasValue
      ensures Current() == ParsedNonConst(env, sub, old(Current()))
      ensures Some(m.Value()) == Shown(env, sub, old(Current()))
    {
      hide See, SameView, WfMsg, Decode, Default;
      NonConstKeeps(env, sub, Current());
      if state == DIRTY && message != null {
        return message;
      }
      EnsureParsedLocked();
      if state != DIRTY {
        state := DIRTY;
        unparsedBytes := [];
      }
      hasValue := true;
      m := message;
    }

    /** `IsInitialized`: an unset field answers true at once, a set one is parsed first. */
    method IsInitialized() returns (b: bool)
      requires Valid()
      modifies this, message
      ensures Valid() && b
      ensures Current() == if old(hasValue) then Parsed(env, sub, old(Current())) else old(Current())
    {
      hide See, SameView, WfMsg, Decode, Default;
      if !hasValue {
        return true;
      }
      var m := Get();
      b := m.IsInitialized();
    }

    /** `Serialize`. */
    method Serialize(target: array<byte>, at: nat) returns (end: nat)
      requires Valid() && |EncLazy(env, KLazy(sub), Abs(Current()))| < INT_MAX_SPAN
      requires at + |EncLazy(env, KLazy(sub), Abs(Current()))| <= target.Length
      modifies target
      ensures Current() == old(Current())
      ensures end == at + |EncLazy(env, KLazy(sub), Abs(Current()))|
      ensures target[..] == Splice(old(target[..]), at, EncLazy(env, KLazy(sub), Abs(Current())))
    {
      hide See, SameView, WfMsg, Decode, Default, Enc, Encode, Size;
      ghost var before := target[..];
      if !hasValue {
        assert Splice(before, at, []) == before;
        return at;
      }
      if state == UNPARSED {
        end := WriteLengthDelimitedBytes(target, at, unparsedBytes);
        return;
      }
      end := at;
      if message != null {
        end := SerializeLazy(env, sub, Live(message.Value()), target, at);
      }
    }

    /** `ByteSizeLong`: what `Serialize` would write in the same state, prefix included. */
    method ByteSizeLong() returns (n: nat)
      requires Valid() && LazySize(env, KLazy(sub), Abs(Current())) < INT_MAX_SPAN
      ensures n == LazySize(env, KLazy(sub), Abs(Current())) == |EncLazy(env, KLazy(sub), Abs(Current()))|
    {
      hide See, SameView, WfMsg, Decode, Default, Enc, Encode, Size;
      FieldSizeIsLength(env, Field(1, KLazy(sub)), Lazy(Abs(Current())));
      n := 0;
      if !hasValue {
        return;
      }
      if state == UNPARSED {
        var prefix := VarintSize(|unparsedBytes| % TWO32);
        return prefix + |unparsedBytes|;
      }
      if message != null {
        var payload := GeneratedMessage.ByteSizeLong(env, sub, message.Value());
        var prefix := VarintSize(payload % TWO32);
        n := prefix + payload;
      }
    }

    /** `Clear`. */
    method Clear()
      requires Valid()
      modifies this, message
      ensures Valid() && message == old(message) && Current() == Cleared(env, sub, old(Current()))
    {
      hide See, WfMsg, Decode, Default;
      SameViewRefl(env, sub, Default(env, sub));
      unparsedBytes := [];
      hasValue := false;
      state := UNPARSED;
      if message != null {
        message.Clear();
      }
    }

    /** `SetAllocated`. */
    method SetAllocated(m: Message?, arena: Option<nat>)
      requires Valid() && (m != null ==> m.env == env && m.typ == sub && m.Valid())
      modifies this
      ensures Valid() && message == m
      ensures Current() == Allocated(old(Current()), if m == null then None else Some(m.Value()), arena)
    {
      hide See, WfMsg, Decode, Default;
      message := m;
      this.arena := arena;
      hasValue := m != null;
      unparsedBytes := [];
      state := if hasValue then DIRTY else UNPARSED;
    }
  }

  lemma DecodeByOutcome(E: Env, u: nat, bytes: seq<byte>, r: Ptr, m: Msg)
    requires u < |E| && Outcome(E, u, Codec.ParseFrom(E, u, Default(E, u), bytes, 0), r, m)
    ensures Decode(E, u, bytes) == if r.At? then m else Default(E, u)
  {
    hide Codec.ParseFrom, Default;
  }
}
