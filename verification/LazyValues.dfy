/**
  What a `LazyField` holds, exactly: getters cannot tell stored bytes from the message they
  parse to, but `Serialize` can. After every operation the field holds the very payload it was
  given, until a read turns it into the message parsed from it.
*/
module LazyValues {
  import opened Options
  import opened Varint
  import opened Schema
  import opened Codec
  import opened RoundTrip
  import opened Laziness
  import opened LazyFields
  import opened MergedMembers
  import opened WireForm

  /** How an operation changes the member as the codec sees it; a value assigned to when unset starts from a new or cleared message. */
  ghost predicate ValueStep(E: Env, u: nat, val: LazyVal, op: Op, val': LazyVal)
    requires u < |E|
  {
    match op
    case OpParseFrom(payload, _) => val' == Raw(payload)
    case OpRead(path) => Lazy(val') == TouchCell(E, KLazy(u), Lazy(val), [0] + path)
    case OpAssign(i, c) =>
      exists m :: (if val == Unset then Blank(E, u, m) else m == Get(E, u, val)) && Assigned(m, i, c, val')
    case OpClear => val' == Unset
    case OpSetAllocated(m, _) => val' == if m.Some? then Live(m.value) else Unset
  }

  predicate Assigned(m: Msg, i: nat, c: Cell, val: LazyVal)
  {
    i < |m.cells| && val == Live(Msg(m.cells[i := c]))
  }

  /** An unset field has no message, or one that is as new or as cleared. */
  ghost predicate UnsetIsBlank(E: Env, u: nat, s: LazyState)
    requires u < |E|
  {
    !s.hasValue && s.message.Some? ==> Blank(E, u, s.message.value)
  }

  /** Reading through a new or cleared message parses nothing: there is nothing to parse. */
  lemma {:induction false} TouchBlank(E: Env, t: nat, m: Msg, path: seq<nat>)
    requires t < |E| && Blank(E, t, m)
    ensures Touch(E, t, m, path) == m
    decreases |path|
  {
    if path != [] && path[0] < |E[t]| {
      assert WfFields(E[t], t, |E|);
      var k := E[t][path[0]].kind;
      if k.KMessage? {
        TouchBlank(E, k.sub, m.cells[path[0]].msg, path[1..]);
      }
      assert m.cells[path[0] := m.cells[path[0]]] == m.cells;
    }
  }

  lemma TouchStep(E: Env, u: nat, val: LazyVal, path: seq<nat>)
    requires u < |E|
    ensures TouchCell(E, KLazy(u), Lazy(val), [0] + path) ==
            Lazy(if val == Unset then Unset else Live(Touch(E, u, Get(E, u, val), path)))
  {
    assert ([0] + path)[1..] == path;
  }

  lemma ReadExactly(E: Env, u: nat, s: LazyState, path: seq<nat>)
    requires u < |E| && Inv(E, u, s) && UnsetIsBlank(E, u, s)
    ensures ValueStep(E, u, Abs(s), OpRead(path), Abs(Step(E, u, s, OpRead(path))))
    ensures UnsetIsBlank(E, u, Step(E, u, s, OpRead(path)))
  {
    hide Decode, Default, Fresh, Touch, TouchCell, WfMsg;
    TouchStep(E, u, Abs(s), path);
    var m := Parsed(E, u, s).message;
    if !s.hasValue { TouchBlank(E, u, m.value, path); }
  }

  lemma AssignExactly(E: Env, u: nat, s: LazyState, i: nat, c: Cell)
    requires u < |E| && OpOk(E, u, OpAssign(i, c)) && Inv(E, u, s) && UnsetIsBlank(E, u, s)
    ensures ValueStep(E, u, Abs(s), OpAssign(i, c), Abs(Step(E, u, s, OpAssign(i, c))))
    ensures UnsetIsBlank(E, u, Step(E, u, s, OpAssign(i, c)))
  {
    NonConstKeeps(E, u, s);
    var m := ParsedNonConst(E, u, s).message.value;
    WfShape(E, u, m);
    hide Decode, Default, Fresh, WfMsg;
    assert Assigned(m, i, c, Abs(Step(E, u, s, OpAssign(i, c))));
  }

  lemma StepExactly(E: Env, u: nat, s: LazyState, op: Op)
    requires u < |E| && OpOk(E, u, op) && Inv(E, u, s) && UnsetIsBlank(E, u, s)
    ensures ValueStep(E, u, Abs(s), op, Abs(Step(E, u, s, op))) && UnsetIsBlank(E, u, Step(E, u, s, op))
  {
    hide Inv, ValueStep, UnsetIsBlank;
    match op
    case OpRead(path) => ReadExactly(E, u, s, path);
    case OpAssign(i, c) => AssignExactly(E, u, s, i, c);
    case _ => OtherExactly(E, u, s, op);
  }

  lemma OtherExactly(E: Env, u: nat, s: LazyState, op: Op)
    requires u < |E| && !op.OpRead? && !op.OpAssign?
    ensures ValueStep(E, u, Abs(s), op, Abs(Step(E, u, s, op))) && UnsetIsBlank(E, u, Step(E, u, s, op))
  {
    hide Default, Fresh, Decode;
  }

  /** The field after each operation of a life. */
  function At(E: Env, u: nat, arena: Option<nat>, arenas: bool, ops: seq<Op>, k: nat): LazyState
    requires u < |E| && k <= |ops|
  {
    Run(E, u, Empty(arena, arenas), ops[..k])
  }

  lemma {:induction false} RunBlank(E: Env, u: nat, arena: Option<nat>, arenas: bool, ops: seq<Op>, k: nat)
    requires u < |E| && (forall i :: 0 <= i < |ops| ==> OpOk(E, u, ops[i])) && k <= |ops|
    ensures Inv(E, u, At(E, u, arena, arenas, ops, k)) && UnsetIsBlank(E, u, At(E, u, arena, arenas, ops, k))
    decreases k
  {
    hide Inv, Step, OpOk;
    RunRefines(E, u, arena, arenas, ops[..k]);
    if k > 0 {
      RunBlank(E, u, arena, arenas, ops, k - 1);
      StepExactly(E, u, At(E, u, arena, arenas, ops, k - 1), ops[k - 1]);
      assert ops[..k][..k - 1] == ops[..k - 1] && ops[..k][k - 1] == ops[k - 1];
    }
  }

  /**
    Over every life, in either build: each operation takes the value the field held to the one
    it should hold, bytes for bytes, starting from unset; and `Serialize` writes that value.
  */
  lemma LivesExactly(E: Env, u: nat, arena: Option<nat>, arenas: bool, ops: seq<Op>, k: nat)
    requires u < |E| && (forall i :: 0 <= i < |ops| ==> OpOk(E, u, ops[i])) && k < |ops|
    ensures Abs(At(E, u, arena, arenas, ops, 0)) == Unset
    ensures ValueStep(E, u, Abs(At(E, u, arena, arenas, ops, k)), ops[k], Abs(At(E, u, arena, arenas, ops, k + 1)))
  {
    hide Inv, Step, OpOk, ValueStep;
    RunBlank(E, u, arena, arenas, ops, k);
    StepExactly(E, u, At(E, u, arena, arenas, ops, k), ops[k]);
    assert ops[..k + 1][..k] == ops[..k] && ops[..k + 1][k] == ops[k];
  }

  /**
    What a field writes that was given a payload and then only read: the payload as it came if
    nobody read it, else the message parsed from it as the reads have left it.
  */
  lemma {:induction false} WritesPayload(E: Env, u: nat, s: LazyState, payload: seq<byte>, arena: Option<nat>, gets: seq<Op>)
    requires u < |E| && forall i :: 0 <= i < |gets| ==> gets[i].OpRead?
    ensures var s' := Run(E, u, Store(s, payload, arena), gets);
            && s'.hasValue
            && (gets == [] ==> EncLazy(E, KLazy(u), Abs(s')) == Encode(|payload| % TWO32) + payload)
            && (gets != [] ==> Abs(s') == Live(TouchAll(E, u, Decode(E, u, payload), Paths(gets))))
    decreases |gets|
  {
    hide Decode, Default, Fresh, Touch;
    if gets != [] {
      var before := gets[..|gets| - 1];
      WritesPayload(E, u, s, payload, arena, before);
      assert Paths(gets)[..|gets| - 1] == Paths(before);
    }
  }

  function Paths(ops: seq<Op>): (r: seq<seq<nat>>)
    requires forall i :: 0 <= i < |ops| ==> ops[i].OpRead?
    ensures |r| == |ops|
  {
    seq(|ops|, i requires 0 <= i < |ops| => ops[i].path)
  }

  // ---- reads, member by member ----------------------------------------------------------------------------------

  /**
    A chain of getters parses the lazy members it goes through, if they are set, and changes no
    other member; above all it sets none.
  */
  lemma {:induction false} TouchedExactly(E: Env, t: nat, m: Msg, path: seq<nat>, p: seq<nat>)
    requires WfMsg(E, t, m) && IsLeaf(E, t, m, p)
    ensures IsLeaf(E, t, Touch(E, t, m, path), p)
    ensures var b, c := MemberAt(E, t, m, p).value, MemberAt(E, t, Touch(E, t, m, path), p).value;
            && c.field == b.field && (IsSet(c.field, c.cell) <==> IsSet(b.field, b.cell))
            && if p <= path && b.cell.Lazy? && b.cell.val != Unset
               then && b.field.kind.KLazy? && b.field.kind.sub < |E|
                    && c.cell == Lazy(Live(Touch(E, b.field.kind.sub, Get(E, b.field.kind.sub, b.cell.val), path[|p|..])))
               else c.cell == b.cell
    decreases |p|
  {
    hide Decode, Default, Size, IsZero;
    var i := p[0];
    assert WfFields(E[t], t, |E|);
    if path == [] || path[0] != i {
      assert !(p <= path);
      assert Touch(E, t, m, path).cells[i] == m.cells[i];
    } else if |p| > 1 {
      TouchedExactly(E, E[t][i].kind.sub, m.cells[i].msg, path[1..], p[1..]);
      Prefixes(p, path);
    }
  }

  lemma Prefixes(p: seq<nat>, path: seq<nat>)
    requires p != [] && path != [] && p[0] == path[0]
    ensures p <= path <==> p[1..] <= path[1..]
    ensures p <= path ==> path[1..][|p[1..]|..] == path[|p|..]
  {
    assert p == [p[0]] + p[1..] && path == [path[0]] + path[1..];
  }

  // ---- arenas ---------------------------------------------------------------------------------------------------

  /** The first arena a payload comes with. */
  function FirstArena(ops: seq<Op>): Option<nat>
  {
    if ops == [] then None
    else
      var before := FirstArena(ops[..|ops| - 1]);
      var op := ops[|ops| - 1];
      if before.None? && op.OpParseFrom? then op.arena else before
  }

  /** A field without an arena takes the first one a payload comes with, and then keeps it until a message is given to it. */
  lemma {:induction false} KeepsArena(E: Env, u: nat, s: LazyState, ops: seq<Op>)
    requires u < |E| && forall i :: 0 <= i < |ops| ==> !ops[i].OpSetAllocated?
    ensures Run(E, u, s, ops).arena == if s.arena.Some? then s.arena else FirstArena(ops)
    decreases |ops|
  {
    hide Step;
    if ops != [] {
      KeepsArena(E, u, s, ops[..|ops| - 1]);
      ArenaStep(E, u, Run(E, u, s, ops[..|ops| - 1]), ops[|ops| - 1]);
    }
  }

  lemma ArenaStep(E: Env, u: nat, s: LazyState, op: Op)
    requires u < |E|
    ensures Step(E, u, s, op).arena ==
            if op.OpSetAllocated? || (op.OpParseFrom? && s.arena.None?) then op.arena else s.arena
  {
    hide Decode, Default, Fresh, Touch;
  }

  /** A payload that comes with another arena than the message's drops the message; otherwise it is kept for reuse. */
  lemma DropsMessage(E: Env, u: nat, s: LazyState, payload: seq<byte>, arena: Option<nat>)
    requires u < |E|
    ensures Step(E, u, s, OpParseFrom(payload, arena)).message ==
            if s.message.Some? && (arena.None? || arena == s.arena) then s.message else None
  {
  }

  /**
    A message made by `Mutable` on an arena, with a string field and a number: the number is set
    to zero, and the empty string is written. In a build without arenas, or off the arena, the
    same calls write an empty message.
  */
  lemma StringOnArenaIsWritten(arena: Option<nat>, arenas: bool)
    ensures var E: Env := [[Field(1, KString), Field(2, KVarint(Int32))]];
            EncLazy(E, KLazy(0), Abs(Step(E, 0, Empty(arena, arenas), OpAssign(1, Num(0))))) ==
            if arenas && arena.Some? then [2, 0x0a, 0x00] else [0]
  {
    var E: Env := [[Field(1, KString), Field(2, KVarint(Int32))]];
    hide *;
    OnArenaIn(E, Empty(arena, arenas));
  }

  lemma OnArenaIn(E: Env, s: LazyState)
    requires |E| == 1 && E[0] == [Field(1, KString), Field(2, KVarint(Int32))]
    requires s == Empty(s.arena, s.arenas)
    ensures EncLazy(E, KLazy(0), Abs(Step(E, 0, s, OpAssign(1, Num(0))))) ==
            if s.arenas && s.arena.Some? then [2, 0x0a, 0x00] else [0]
  {
    var m := Created(E, 0, s);
    FreshString(E, s.arenas && s.arena.Some?);
    StringWritten(E, Msg(m.cells[1 := Num(0)]));
    AssignNew(E, 0, s, 1, Num(0));
    hide *;
  }

  lemma FreshString(E: Env, onArena: bool)
    requires |E| == 1 && E[0] == [Field(1, KString), Field(2, KVarint(Int32))]
    ensures Fresh(E, 0, onArena).cells[0] == Str(!onArena, []) && |Fresh(E, 0, onArena).cells| == 2
  {
  }

  lemma AssignNew(E: Env, u: nat, s: LazyState, i: nat, c: Cell)
    requires u < |E| && i < |E[u]| && s == Empty(s.arena, s.arenas)
    ensures Abs(Step(E, u, s, OpAssign(i, c))) == Live(Msg(Created(E, u, s).cells[i := c]))
  {
    hide Fresh;
  }

  lemma StringWritten(E: Env, w: Msg)
    requires |E| == 1 && E[0] == [Field(1, KString), Field(2, KVarint(Int32))]
    requires |w.cells| == 2 && w.cells[0].Str? && w.cells[0].text == [] && w.cells[1] == Num(0)
    ensures EncLazy(E, KLazy(0), Live(w)) == if w.cells[0].isDefault then [0] else [2, 0x0a, 0x00]
  {
    hide Tag, TagBytes;
    TagByte(E[0][0]);
    assert EncTo(E, 0, w, 0) == [];
    assert EncTo(E, 0, w, 1) == if w.cells[0].isDefault then [] else [0x0a, 0x00];
    assert EncTo(E, 0, w, 2) == EncTo(E, 0, w, 1);
    SizeIsLength(E, 0, w);
  }
}
