/**
  Members rather than getters: what `MergeFrom` and `CopyFrom` leave in each member of target
  and source, what is written of it, and which messages are written as nothing.
*/
module MergedMembers {
  import opened Options
  import opened Varint
  import opened Schema
  import opened Codec
  import opened RoundTrip
  import opened Views
  import opened Laziness
  import opened WireForm
  import ArenaStrings

  /** The member at the end of a path through eager submessages, and its field. */
  datatype Member = Member(field: Field, cell: Cell)

  function MemberAt(E: Env, t: nat, m: Msg, path: seq<nat>): Option<Member>
    decreases path
  {
    if path == [] || path[0] >= Width(E, t, m) then None
    else if |path| == 1 then Some(Member(E[t][path[0]], m.cells[path[0]]))
    else if m.cells[path[0]].Sub? && E[t][path[0]].kind.KMessage?
    then MemberAt(E, E[t][path[0]].kind.sub, m.cells[path[0]].msg, path[1..])
    else None
  }

  /** A member of its own, not a group of them. */
  predicate IsLeaf(E: Env, t: nat, m: Msg, path: seq<nat>)
  {
    MemberAt(E, t, m, path).Some? && !MemberAt(E, t, m, path).value.field.kind.KMessage?
  }

  /** A merge from `m` gets to the member: every submessage on the way is written as something. */
  predicate MergeGets(E: Env, t: nat, m: Msg, path: seq<nat>)
    decreases path
  {
    |path| <= 1 ||
    (path[0] < Width(E, t, m) && m.cells[path[0]].Sub? && E[t][path[0]].kind.KMessage?
     && Size(E, E[t][path[0]].kind.sub, m.cells[path[0]].msg) > 0
     && MergeGets(E, E[t][path[0]].kind.sub, m.cells[path[0]].msg, path[1..]))
  }

  /** The member holds something else than it was constructed with. */
  predicate IsSet(f: Field, c: Cell)
  {
    match c
    case Num(v) => v != 0
    case Fix(raw) =>
      && (exists j :: 0 <= j < |raw| && raw[j] != 0)
      && (IsFloat(f.kind) ==> raw[|raw| - 1] != 0x80 || exists j :: 0 <= j < |raw| - 1 && raw[j] != 0)
    case Str(isDefault, _) => !isDefault
    case Sub(_) => false
    case Lazy(val) => val != Unset
  }

  /** Members with nothing below them are written exactly when they are set. */
  lemma LeafWritten(E: Env, f: Field, c: Cell)
    requires WfCell(E, f.kind, c) && !f.kind.KMessage?
    ensures FieldSize(E, f, c) > 0 <==> IsSet(f, c)
  {
    hide Encode, Size, Tag, Zeros;
    if c.Fix? { ZeroBytes(c.raw); }
  }

  lemma ZeroBytes(raw: seq<byte>)
    ensures raw == Zeros(|raw|) <==> forall j :: 0 <= j < |raw| ==> raw[j] == 0
    ensures |raw| > 0 ==>
              (NegativeZero(raw) <==> raw[|raw| - 1] == 0x80 && forall j :: 0 <= j < |raw| - 1 ==> raw[j] == 0)
  {
    if |raw| > 0 {
      assert raw == raw[..|raw| - 1] + [raw[|raw| - 1]];
      assert NegativeZero(raw) ==> raw[..|raw| - 1] == Zeros(|raw| - 1);
    }
  }

  // ---- nothing is written exactly when nothing is set -------------------------------------------------------

  lemma {:induction false} SetIsWritten(E: Env, t: nat, m: Msg, path: seq<nat>)
    requires WfMsg(E, t, m) && IsLeaf(E, t, m, path)
    requires IsSet(MemberAt(E, t, m, path).value.field, MemberAt(E, t, m, path).value.cell)
    ensures Size(E, t, m) > 0 && MergeGets(E, t, m, path)
    decreases |path|
  {
    hide Size, FieldSize, IsSet;
    var i := path[0];
    FieldWithin(E, t, m, i, |m.cells|);
    if |path| == 1 {
      LeafWritten(E, E[t][i], m.cells[i]);
    } else {
      SetIsWritten(E, E[t][i].kind.sub, m.cells[i].msg, path[1..]);
      SubSize(E, E[t][i], m.cells[i]);
    }
  }

  lemma {:induction false} WrittenIsSet(E: Env, t: nat, m: Msg, n: nat) returns (path: seq<nat>)
    requires WfMsg(E, t, m) && n <= |m.cells| && SizeTo(E, t, m, n) > 0
    ensures IsLeaf(E, t, m, path) && IsSet(MemberAt(E, t, m, path).value.field, MemberAt(E, t, m, path).value.cell)
    decreases m, n
  {
    hide FieldSize, IsSet;
    var f, c := E[t][n - 1], m.cells[n - 1];
    if FieldSize(E, f, c) == 0 {
      path := WrittenIsSet(E, t, m, n - 1);
    } else if f.kind.KMessage? {
      SubSize(E, f, c);
      var below := WrittenIsSet(E, f.kind.sub, c.msg, |c.msg.cells|);
      path := [n - 1] + below;
      assert path[1..] == below;
    } else {
      LeafWritten(E, f, c);
      path := [n - 1];
    }
  }

  /** A message is written as no bytes exactly when no member is set, in it or in a submessage at any depth. */
  lemma EmptyExactly(E: Env, t: nat, m: Msg)
    requires WfMsg(E, t, m)
    ensures Size(E, t, m) > 0 <==>
            exists path :: IsLeaf(E, t, m, path) && IsSet(MemberAt(E, t, m, path).value.field, MemberAt(E, t, m, path).value.cell)
  {
    hide IsSet, MemberAt, SizeTo;
    if Size(E, t, m) > 0 {
      var path := WrittenIsSet(E, t, m, |m.cells|);
    }
    forall path | IsLeaf(E, t, m, path) && IsSet(MemberAt(E, t, m, path).value.field, MemberAt(E, t, m, path).value.cell)
      ensures Size(E, t, m) > 0
    {
      SetIsWritten(E, t, m, path);
    }
  }

  // ---- the target -------------------------------------------------------------------------------------------

  /** What merging `from` into `to` must leave in a member the merge gets to. */
  predicate MergedCell(E: Env, f: Field, to: Cell, from: Cell, after: Cell)
  {
    match f.kind
    case KString =>
      if IsSet(f, from) then from.Str? && after.Str? && after.text == from.text && (after.isDefault <==> from.text == [] && !IsSet(f, to))
      else after == to
    case KLazy(u) => from.Lazy? && u < |E| && after == Lazy(Live(Get(E, u, from.val)))
    case _ => after == if IsSet(f, from) then from else to
  }

  lemma MergesCell(E: Env, f: Field, to: Cell, from: Cell)
    requires WfCell(E, f.kind, to) && WfCell(E, f.kind, from)
    requires !f.kind.KMessage? && (f.kind.KLazy? ==> f.kind.sub < |E|)
    ensures MergedCell(E, f, to, from, MergeCell(E, f.kind, to, from))
  {
    hide Decode, Default, Zeros, WfMsg;
    if from.Fix? { ZeroBytes(from.raw); }
  }

  /**
    `MergeFrom`, member by member: where the merge gets, scalars and strings the source has set
    replace the target's, and every lazy member of the target is set and holds exactly the
    message the source's `Get` returns, an unset one included. Elsewhere the target keeps what
    it had.
  */
  lemma {:induction false} MergedExactly(E: Env, t: nat, to: Msg, from: Msg, path: seq<nat>)
    requires WfMsg(E, t, to) && WfMsg(E, t, from) && IsLeaf(E, t, to, path)
    ensures IsLeaf(E, t, from, path) && IsLeaf(E, t, Merge(E, t, to, from), path)
    ensures var a, b, c := MemberAt(E, t, to, path).value, MemberAt(E, t, from, path).value, MemberAt(E, t, Merge(E, t, to, from), path).value;
            && a.field == b.field == c.field
            && if MergeGets(E, t, from, path) then MergedCell(E, a.field, a.cell, b.cell, c.cell) else c.cell == a.cell
    decreases |path|
  {
    hide Size, Decode, MergedCell, IsSet;
    var i := path[0];
    assert WfFields(E[t], t, |E|);
    var k := E[t][i].kind;
    if |path| == 1 {
      MergesCell(E, E[t][i], to.cells[i], from.cells[i]);
    } else {
      var u, a, b := k.sub, to.cells[i].msg, from.cells[i].msg;
      MergedExactly(E, u, a, b, path[1..]);
    }
  }

  /** A set lazy member is always written: tag, length, and the message it holds. */
  lemma LiveWritten(E: Env, f: Field, m: Msg)
    requires f.kind.KLazy? && Size(E, f.kind.sub, m) < TWO32
    ensures EncField(E, f, Lazy(Live(m))) == TagBytes(f) + (Encode(|Enc(E, f.kind.sub, m)|) + Enc(E, f.kind.sub, m))
    ensures FieldSize(E, f, Lazy(Live(m))) == |EncField(E, f, Lazy(Live(m)))| >= 2
  {
    hide Encode, Tag, Size, Enc;
    SizeIsLength(E, f.kind.sub, m);
    FieldSizeIsLength(E, f, Lazy(Live(m)));
  }

  /**
    `CopyFrom`: the same with a cleared target. In particular every lazy member of the message
    itself is set in the copy, so a copy of a message that has one is never written as nothing.
  */
  lemma CopiedExactly(E: Env, t: nat, from: Msg, path: seq<nat>)
    requires WfMsg(E, t, from) && IsLeaf(E, t, Default(E, t), path)
    ensures IsLeaf(E, t, from, path) && IsLeaf(E, t, Copy(E, t, from), path)
    ensures var d, b, c := MemberAt(E, t, Default(E, t), path).value, MemberAt(E, t, from, path).value, MemberAt(E, t, Copy(E, t, from), path).value;
            && c.field == b.field
            && (if MergeGets(E, t, from, path) then MergedCell(E, b.field, d.cell, b.cell, c.cell) else c.cell == d.cell)
            && (b.field.kind.KLazy? && MergeGets(E, t, from, path) ==>
                  && c.cell == Lazy(Live(Get(E, b.field.kind.sub, b.cell.val)))
                  && Size(E, t, Copy(E, t, from)) > 0)
  {
    hide Size, Decode, IsSet, Merge, MemberAt, MergeGets;
    DefaultWf(E, t);
    MergedExactly(E, t, Default(E, t), from, path);
    MergeWf(E, t, Default(E, t), from);
    var c := MemberAt(E, t, Copy(E, t, from), path).value;
    if c.field.kind.KLazy? && MergeGets(E, t, from, path) {
      assert IsSet(c.field, c.cell) by { LiveIsSet(c.field, c.cell.val.msg); }
      SetIsWritten(E, t, Copy(E, t, from), path);
    }
  }

  lemma LiveIsSet(f: Field, m: Msg)
    ensures IsSet(f, Lazy(Live(m)))
  {
  }

  // ---- the source -------------------------------------------------------------------------------------------

  /** The source after a merge: each payload the merge got to is parsed, nothing else has changed. */
  lemma {:induction false} SourceExactly(E: Env, t: nat, from: Msg, path: seq<nat>)
    requires WfMsg(E, t, from) && IsLeaf(E, t, from, path)
    ensures IsLeaf(E, t, MergeSource(E, t, from), path)
    ensures var b, c := MemberAt(E, t, from, path).value, MemberAt(E, t, MergeSource(E, t, from), path).value;
            && c.field == b.field
            && if b.cell.Lazy? && b.cell.val.Raw? && MergeGets(E, t, from, path)
               then && b.field.kind.KLazy? && b.field.kind.sub < |E|
                    && c.cell == Lazy(Live(Decode(E, b.field.kind.sub, b.cell.val.bytes)))
               else c.cell == b.cell
    decreases |path|
  {
    hide Size, Decode;
    var i := path[0];
    assert WfFields(E[t], t, |E|);
    if |path| > 1 {
      SourceExactly(E, E[t][i].kind.sub, from.cells[i].msg, path[1..]);
    }
  }

  // ---- a new message ----------------------------------------------------------------------------------------

  /** Every string of a new message, submessages included, is as the string's constructor leaves it. */
  lemma {:induction false} FreshStrings(E: Env, t: nat, path: seq<nat>, memory: ArenaStrings.Memory, withArena: bool, arenas: bool)
    requires t < |E| && ArenaStrings.MemoryOk(memory) && IsLeaf(E, t, Fresh(E, t, withArena), path)
    ensures var a := MemberAt(E, t, Fresh(E, t, withArena), path).value;
            if a.field.kind.KString? then a.cell == ArenaStrings.AsCell(ArenaStrings.Construct(memory, withArena, arenas))
            else !IsSet(a.field, a.cell)
    decreases |path|
  {
    hide ArenaStrings.MemoryOk, ArenaStrings.Construct;
    var i := path[0];
    assert WfFields(E[t], t, |E|);
    if |path| > 1 {
      FreshStrings(E, E[t][i].kind.sub, path[1..], memory, withArena, arenas);
    } else if E[t][i].kind.KString? {
      ArenaStrings.ConstructOk(memory, withArena, arenas);
    }
  }

  /** `Clear` leaves every string as `ArenaString::Clear` does, whatever it was, and no member set. */
  lemma {:induction false} ClearedStrings(E: Env, t: nat, path: seq<nat>, s: ArenaStrings.Place)
    requires t < |E| && ArenaStrings.PlaceOk(s) && IsLeaf(E, t, Default(E, t), path)
    ensures var a := MemberAt(E, t, Default(E, t), path).value;
            && !IsSet(a.field, a.cell)
            && (a.field.kind.KString? ==> a.cell == ArenaStrings.AsCell(ArenaStrings.Clear(s)))
    decreases |path|
  {
    hide ArenaStrings.PlaceOk, ArenaStrings.Clear;
    var i := path[0];
    assert WfFields(E[t], t, |E|);
    ArenaStrings.ClearOk(s);
    if |path| > 1 {
      ClearedStrings(E, E[t][i].kind.sub, path[1..], s);
    }
  }

  /** So a message new on an arena is written as something if it has a string, though every getter shows a default. */
  lemma FreshWritten(E: Env, t: nat, path: seq<nat>, memory: ArenaStrings.Memory)
    requires t < |E| && ArenaStrings.MemoryOk(memory) && IsLeaf(E, t, Fresh(E, t, true), path)
    requires MemberAt(E, t, Fresh(E, t, true), path).value.field.kind.KString?
    ensures Size(E, t, Fresh(E, t, true)) > 0 && AllDefault(E, t, Fresh(E, t, true))
  {
    hide Size, See, ArenaStrings.MemoryOk;
    FreshStrings(E, t, path, memory, true, true);
    ArenaStrings.ConstructOk(memory, true, true);
    FreshWf(E, t, true);
    SetIsWritten(E, t, Fresh(E, t, true), path);
    forall p: seq<nat>
      ensures See(E, t, Fresh(E, t, true), p) == See(E, t, Default(E, t), p)
    {
      FreshSeen(E, t, true, p);
    }
  }

  // ---- a copy that is longer than its original ---------------------------------------------------------------

  /** A message whose one lazy member is unset is written as nothing; its copy as an empty submessage. */
  lemma CopySetsLazy()
    ensures var E: Env := [[Field(1, KVarint(Int32))], [Field(1, KLazy(0))]];
            var m := Msg([Lazy(Unset)]);
            && WfMsg(E, 1, m) && Enc(E, 1, m) == []
            && Size(E, 1, Copy(E, 1, m)) == 2 && Enc(E, 1, Copy(E, 1, m)) == [0x0a, 0x00]
  {
    var E: Env := [[Field(1, KVarint(Int32))], [Field(1, KLazy(0))]];
    hide *;
    CopySetsIn(E, Msg([Lazy(Unset)]), Default(E, 0));
  }

  lemma CopySetsIn(E: Env, m: Msg, d: Msg)
    requires |E| == 2 && E[0] == [Field(1, KVarint(Int32))] && E[1] == [Field(1, KLazy(0))]
    requires m == Msg([Lazy(Unset)]) && d == Default(E, 0)
    ensures WfMsg(E, 1, m) && Enc(E, 1, m) == []
    ensures Size(E, 1, Copy(E, 1, m)) == 2 && Enc(E, 1, Copy(E, 1, m)) == [0x0a, 0x00]
  {
    hide Tag, TagBytes;
    assert Copy(E, 1, m).cells == [Lazy(Live(d))];
    TagByte(E[1][0]);
    assert EncTo(E, 0, d, 0) == [];
    assert d.cells == [Num(0)];
    assert EncTo(E, 0, d, 1) == [];
    SizeIsLength(E, 0, d);
    assert EncTo(E, 1, m, 0) == [] == EncTo(E, 1, Copy(E, 1, m), 0);
    assert EncField(E, E[1][0], Lazy(Live(d))) == [0x0a, 0x00];
    SizeIsLength(E, 1, Copy(E, 1, m));
  }

  /** A message new on an arena whose one field is a string: two bytes, an empty string; without an arena none. */
  lemma FreshStringBytes()
    ensures var E: Env := [[Field(1, KString)]];
            && Enc(E, 0, Fresh(E, 0, true)) == [0x0a, 0x00] && Size(E, 0, Fresh(E, 0, true)) == 2
            && Enc(E, 0, Fresh(E, 0, false)) == []
  {
    var E: Env := [[Field(1, KString)]];
    hide *;
    FreshBytesIn(E);
  }

  lemma FreshBytesIn(E: Env)
    requires |E| == 1 && E[0] == [Field(1, KString)]
    ensures Enc(E, 0, Fresh(E, 0, true)) == [0x0a, 0x00] && Size(E, 0, Fresh(E, 0, true)) == 2
    ensures Enc(E, 0, Fresh(E, 0, false)) == []
  {
    hide Tag, TagBytes;
    TagByte(E[0][0]);
    var m, d := Fresh(E, 0, true), Fresh(E, 0, false);
    assert EncTo(E, 0, m, 0) == [] == EncTo(E, 0, d, 0);
    assert EncTo(E, 0, m, 1) == EncField(E, E[0][0], m.cells[0]);
    assert EncTo(E, 0, d, 1) == EncField(E, E[0][0], d.cells[0]);
    SizeIsLength(E, 0, m);
  }
}
