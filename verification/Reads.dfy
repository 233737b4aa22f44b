/** What a message can become when it is read through: `ReadOn`, and that chains of getters do exactly this. */
module Reads {
  import opened Schema
  import opened Codec
  import opened Laziness
  import opened Framing

  // ---- a message after some reads ---------------------------------------------------------------------

  /** `m'` is `m` with some of its unparsed payloads, at any depth, parsed. */
  predicate ReadOn(E: Env, t: nat, m: Msg, m': Msg)
    decreases m', 1
  {
    && |m.cells| == |m'.cells|
    && forall i :: 0 <= i < |m'.cells| ==>
         if i < Width(E, t, m) then ReadCell(E, E[t][i].kind, m.cells[i], m'.cells[i]) else m.cells[i] == m'.cells[i]
  }

  predicate ReadCell(E: Env, k: Kind, c: Cell, c': Cell)
    decreases c', 0
  {
    match c'
    case Sub(x) => c.Sub? && (if k.KMessage? then ReadOn(E, k.sub, c.msg, x) else c == c')
    case Lazy(Live(x)) =>
      || c == c'
      || (c.Lazy? && k.KLazy? && k.sub < |E| && c.val != Unset && ReadOn(E, k.sub, Get(E, k.sub, c.val), x))
    case _ => c == c'
  }

  lemma {:induction false} ReadOnRefl(E: Env, t: nat, m: Msg)
    ensures ReadOn(E, t, m, m)
    decreases m
  {
    forall i | 0 <= i < Width(E, t, m)
      ensures ReadCell(E, E[t][i].kind, m.cells[i], m.cells[i])
    {
      if m.cells[i].Sub? && E[t][i].kind.KMessage? { ReadOnRefl(E, E[t][i].kind.sub, m.cells[i].msg); }
    }
  }

  lemma {:induction false} ReadOnTrans(E: Env, t: nat, a: Msg, b: Msg, c: Msg)
    requires ReadOn(E, t, a, b) && ReadOn(E, t, b, c)
    ensures ReadOn(E, t, a, c)
    decreases c, 1
  {
    hide ReadCell;
    forall i | 0 <= i < Width(E, t, a)
      ensures ReadCell(E, E[t][i].kind, a.cells[i], c.cells[i])
    {
      ReadCellTrans(E, E[t][i].kind, a.cells[i], b.cells[i], c.cells[i]);
    }
  }

  lemma {:induction false} ReadCellTrans(E: Env, k: Kind, a: Cell, b: Cell, c: Cell)
    requires ReadCell(E, k, a, b) && ReadCell(E, k, b, c)
    ensures ReadCell(E, k, a, c)
    decreases c, 0
  {
    hide Decode, Default, ReadOn;
    if c.Sub? && k.KMessage? {
      ReadOnTrans(E, k.sub, a.msg, b.msg, c.msg);
    } else if c.Lazy? && c.val.Live? && a != b && b != c {
      ReadOnTrans(E, k.sub, Get(E, k.sub, a.val), Get(E, k.sub, b.val), c.val.msg);
    }
  }

  /** A chain of getters only parses. */
  lemma {:induction false} TouchReadsOn(E: Env, t: nat, m: Msg, path: seq<nat>)
    ensures ReadOn(E, t, m, Touch(E, t, m, path))
    decreases |path|
  {
    hide Decode, Default;
    ReadOnRefl(E, t, m);
    if path != [] && path[0] < Width(E, t, m) {
      var k, c := E[t][path[0]].kind, m.cells[path[0]];
      if c.Sub? && k.KMessage? {
        TouchReadsOn(E, k.sub, c.msg, path[1..]);
      } else if c.Lazy? && k.KLazy? && k.sub < |E| && c.val != Unset {
        TouchReadsOn(E, k.sub, Get(E, k.sub, c.val), path[1..]);
      }
      hide ReadOn;
      assert ReadCell(E, k, c, TouchCell(E, k, c, path));
    }
  }

  lemma {:induction false} ReadOnWf(E: Env, t: nat, m: Msg, m': Msg)
    requires WfMsg(E, t, m) && ReadOn(E, t, m, m')
    ensures WfMsg(E, t, m')
    decreases m'
  {
    hide Decode, Default;
    assert WfFields(E[t], t, |E|);
    forall i | 0 <= i < |m'.cells|
      ensures WfCell(E, E[t][i].kind, m'.cells[i])
    {
      var k, c, c' := E[t][i].kind, m.cells[i], m'.cells[i];
      assert ReadCell(E, k, c, c');
      if k.KMessage? {
        ReadOnWf(E, k.sub, c.msg, c'.msg);
      } else if k.KLazy? && c != c' {
        if c.val.Raw? { DecodeWf(E, k.sub, c.val.bytes); }
        ReadOnWf(E, k.sub, Get(E, k.sub, c.val), c'.val.msg);
      }
    }
  }

  /** Reading changes no getter, whatever was read. */
  lemma {:induction false} ReadOnSeen(E: Env, t: nat, m: Msg, m': Msg, path: seq<nat>)
    requires ReadOn(E, t, m, m')
    ensures See(E, t, m', path) == See(E, t, m, path)
    decreases |path|
  {
    hide Decode, Default;
    if path != [] && path[0] < Width(E, t, m) {
      var k, c, c' := E[t][path[0]].kind, m.cells[path[0]], m'.cells[path[0]];
      assert ReadCell(E, k, c, c');
      if c'.Sub? && k.KMessage? {
        ReadOnSeen(E, k.sub, c.msg, c'.msg, path[1..]);
      } else if c'.Lazy? && c'.val.Live? && c != c' {
        ReadOnSeen(E, k.sub, Get(E, k.sub, c.val), c'.val.msg, path[1..]);
      }
    }
  }

  /** Nor the size, when every payload re-encodes to as many bytes as it has. */
  lemma {:induction false} ReadOnSize(E: Env, t: nat, m: Msg, m': Msg)
    requires SameSizes(E, t, m) && ReadOn(E, t, m, m')
    ensures Size(E, t, m') == Size(E, t, m)
    decreases m', 1
  {
    hide FieldSize, SameSizes, ReadCell;
    forall i | 0 <= i < Width(E, t, m)
      ensures FieldSize(E, E[t][i], m'.cells[i]) == FieldSize(E, E[t][i], m.cells[i])
    {
      ReadCellSize(E, t, m, m', i);
    }
    SameFieldSizes(E, t, m, m', Width(E, t, m));
  }

  lemma {:induction false} ReadCellSize(E: Env, t: nat, m: Msg, m': Msg, i: nat)
    requires SameSizes(E, t, m) && ReadOn(E, t, m, m') && i < Width(E, t, m)
    ensures FieldSize(E, E[t][i], m'.cells[i]) == FieldSize(E, E[t][i], m.cells[i])
    decreases m', 0
  {
    hide FieldSize, SameSizes, Size, Decode, Default;
    SameSizesInside(E, t, m, i);
    var k, c, c' := E[t][i].kind, m.cells[i], m'.cells[i];
    assert ReadCell(E, k, c, c');
    if c'.Sub? && k.KMessage? {
      ReadOnSize(E, k.sub, c.msg, c'.msg);
      SubOnce(E, E[t][i], c.msg, c'.msg);
    } else if c'.Lazy? && c'.val.Live? && c != c' {
      ReadOnSize(E, k.sub, Get(E, k.sub, c.val), c'.val.msg);
      LazyOnce(E, E[t][i], c.val, c'.val);
    }
  }

  lemma {:induction false} SameFieldSizes(E: Env, t: nat, m: Msg, m': Msg, n: nat)
    requires |m.cells| == |m'.cells| && n <= Width(E, t, m)
    requires forall i :: 0 <= i < n ==> FieldSize(E, E[t][i], m'.cells[i]) == FieldSize(E, E[t][i], m.cells[i])
    ensures SizeTo(E, t, m', n) == SizeTo(E, t, m, n)
    decreases n
  {
    hide FieldSize;
    if n > 0 { SameFieldSizes(E, t, m, m', n - 1); }
  }

  lemma {:induction false} ReadOnPending(E: Env, t: nat, m: Msg, m': Msg, path: seq<nat>)
    requires ReadOn(E, t, m, m')
    ensures PendingAt(E, t, m', path).None? || PendingAt(E, t, m', path) == PendingAt(E, t, m, path)
    decreases |path|
  {
    hide Decode, Default;
    if path != [] && path[0] < Width(E, t, m) {
      var k, c, c' := E[t][path[0]].kind, m.cells[path[0]], m'.cells[path[0]];
      assert ReadCell(E, k, c, c');
      if c'.Sub? && k.KMessage? {
        ReadOnPending(E, k.sub, c.msg, c'.msg, path[1..]);
      } else if c'.Lazy? && c'.val.Live? && c != c' {
        ReadOnPending(E, k.sub, Get(E, k.sub, c.val), c'.val.msg, path[1..]);
      }
    }
  }

  lemma ReadOnSameSizes(E: Env, t: nat, m: Msg, m': Msg)
    requires SameSizes(E, t, m) && ReadOn(E, t, m, m')
    ensures SameSizes(E, t, m')
  {
    hide PendingAt, ReadOn, KeepsLength;
    forall path: seq<nat>
      ensures var p := PendingAt(E, t, m', path); p.Some? ==> KeepsLength(E, p.value)
    {
      ReadOnPending(E, t, m, m', path);
    }
  }

  // ---- reads, one by one ---------------------------------------------------------------------------------

  /** The same chains of getters, from one member further out. */
  function Lift(i: nat, paths: seq<seq<nat>>): (r: seq<seq<nat>>)
    ensures |r| == |paths|
  {
    seq(|paths|, k requires 0 <= k < |paths| => [i] + paths[k])
  }

  lemma {:induction false} LiftSub(E: Env, t: nat, m: Msg, i: nat, paths: seq<seq<nat>>)
    requires i < Width(E, t, m) && m.cells[i].Sub? && E[t][i].kind.KMessage?
    ensures TouchAll(E, t, m, Lift(i, paths)) == Msg(m.cells[i := Sub(TouchAll(E, E[t][i].kind.sub, m.cells[i].msg, paths))])
    decreases |paths|
  {
    if paths == [] {
      assert m.cells[i := m.cells[i]] == m.cells;
    } else {
      var before, last := paths[..|paths| - 1], paths[|paths| - 1];
      LiftSub(E, t, m, i, before);
      assert Lift(i, paths)[..|paths| - 1] == Lift(i, before);
      assert ([i] + last)[1..] == last;
      var m' := TouchAll(E, t, m, Lift(i, before));
      assert Touch(E, t, m', [i] + last).cells == m.cells[i := TouchCell(E, E[t][i].kind, m'.cells[i], [i] + last)];
    }
  }

  lemma {:induction false} LiftLive(E: Env, t: nat, m: Msg, i: nat, paths: seq<seq<nat>>)
    requires i < Width(E, t, m) && m.cells[i].Lazy? && m.cells[i].val.Live? && E[t][i].kind.KLazy? && E[t][i].kind.sub < |E|
    ensures TouchAll(E, t, m, Lift(i, paths)) == Msg(m.cells[i := Lazy(Live(TouchAll(E, E[t][i].kind.sub, m.cells[i].val.msg, paths)))])
    decreases |paths|
  {
    if paths == [] {
      assert m.cells[i := m.cells[i]] == m.cells;
    } else {
      var before, last := paths[..|paths| - 1], paths[|paths| - 1];
      LiftLive(E, t, m, i, before);
      assert Lift(i, paths)[..|paths| - 1] == Lift(i, before);
      assert ([i] + last)[1..] == last;
      var m' := TouchAll(E, t, m, Lift(i, before));
      assert Touch(E, t, m', [i] + last).cells == m.cells[i := TouchCell(E, E[t][i].kind, m'.cells[i], [i] + last)];
    }
  }

  lemma {:induction false} TouchAllAppend(E: Env, t: nat, m: Msg, a: seq<seq<nat>>, b: seq<seq<nat>>)
    ensures TouchAll(E, t, m, a + b) == TouchAll(E, t, TouchAll(E, t, m, a), b)
    decreases |b|
  {
    hide Touch;
    if b == [] {
      assert a + b == a;
    } else {
      assert (a + b)[..|a + b| - 1] == a + b[..|b| - 1];
      TouchAllAppend(E, t, m, a, b[..|b| - 1]);
    }
  }

  lemma {:induction false} TouchAllReadsOn(E: Env, t: nat, m: Msg, paths: seq<seq<nat>>)
    ensures ReadOn(E, t, m, TouchAll(E, t, m, paths))
    decreases |paths|
  {
    hide Touch, ReadOn;
    if paths == [] {
      ReadOnRefl(E, t, m);
    } else {
      var before := TouchAll(E, t, m, paths[..|paths| - 1]);
      TouchAllReadsOn(E, t, m, paths[..|paths| - 1]);
      TouchReadsOn(E, t, before, paths[|paths| - 1]);
      ReadOnTrans(E, t, m, before, TouchAll(E, t, m, paths));
    }
  }

  /** `ReadOn` is what chains of getters do: some of them lead from the one message to the other. */
  lemma {:induction false} ReadByTouches(E: Env, t: nat, m: Msg, m': Msg) returns (paths: seq<seq<nat>>)
    requires ReadOn(E, t, m, m')
    ensures TouchAll(E, t, m, paths) == m'
    decreases m', 2
  {
    hide ReadCell, TouchAll;
    paths := ReadByTouchesTo(E, t, m, m', Width(E, t, m));
    assert m'.cells[..Width(E, t, m)] + m.cells[Width(E, t, m)..] == m'.cells;
  }

  lemma {:induction false} ReadByTouchesTo(E: Env, t: nat, m: Msg, m': Msg, n: nat) returns (paths: seq<seq<nat>>)
    requires ReadOn(E, t, m, m') && n <= Width(E, t, m)
    ensures TouchAll(E, t, m, paths) == Msg(m'.cells[..n] + m.cells[n..])
    decreases m', 1, n
  {
    hide ReadCell, Touch, TouchAll;
    if n == 0 {
      paths := [];
      NoTouches(E, t, m);
      assert m'.cells[..0] + m.cells[0..] == m.cells;
    } else {
      var i := n - 1;
      var first := ReadByTouchesTo(E, t, m, m', i);
      var mid := Msg(m'.cells[..i] + m.cells[i..]);
      var more := ReadMemberByTouches(E, t, mid, i, m'.cells[i]);
      paths := first + more;
      TouchAllAppend(E, t, m, first, more);
      assert mid.cells[i := m'.cells[i]] == m'.cells[..n] + m.cells[n..];
    }
  }

  lemma NoTouches(E: Env, t: nat, m: Msg)
    ensures TouchAll(E, t, m, []) == m
  {
  }

  lemma {:induction false} ReadMemberByTouches(E: Env, t: nat, m: Msg, i: nat, c': Cell) returns (paths: seq<seq<nat>>)
    requires i < Width(E, t, m) && ReadCell(E, E[t][i].kind, m.cells[i], c')
    ensures TouchAll(E, t, m, paths) == Msg(m.cells[i := c'])
    decreases c', 0
  {
    hide ReadOn, Touch, TouchAll, Decode, Default;
    var k, c := E[t][i].kind, m.cells[i];
    if c == c' {
      paths := [];
      NoTouches(E, t, m);
      assert m.cells[i := c'] == m.cells;
    } else if c'.Sub? {
      var inner := ReadByTouches(E, k.sub, c.msg, c'.msg);
      paths := Lift(i, inner);
      LiftSub(E, t, m, i, inner);
    } else {
      var x := Get(E, k.sub, c.val);
      var inner := ReadByTouches(E, k.sub, x, c'.val.msg);
      var parsed := Msg(m.cells[i := Lazy(Live(x))]);
      ParseFirst(E, t, m, i);
      LiftLive(E, t, parsed, i, inner);
      paths := [[i]] + Lift(i, inner);
      TouchAllAppend(E, t, m, [[i]], Lift(i, inner));
      assert parsed.cells[i := c'] == m.cells[i := c'];
    }
  }

  lemma ParseFirst(E: Env, t: nat, m: Msg, i: nat)
    requires i < Width(E, t, m) && m.cells[i].Lazy? && m.cells[i].val != Unset && E[t][i].kind.KLazy? && E[t][i].kind.sub < |E|
    ensures TouchAll(E, t, m, [[i]]) == Msg(m.cells[i := Lazy(Live(Get(E, E[t][i].kind.sub, m.cells[i].val)))])
  {
    hide Decode, Default;
    var u, x := E[t][i].kind.sub, Get(E, E[t][i].kind.sub, m.cells[i].val);
    var p: seq<nat> := [i];
    var one := [p];
    assert one[..0] == [] && p[1..] == [];
    assert TouchAll(E, t, m, one) == Touch(E, t, TouchAll(E, t, m, []), p) == Touch(E, t, m, p);
    assert Touch(E, u, x, []) == x;
    assert TouchCell(E, E[t][i].kind, m.cells[i], p) == Lazy(Live(x));
  }
}
