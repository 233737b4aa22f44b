/** When two messages, possibly under two schemas, agree on every getter at every depth. */
module Views {
  import opened Schema
  import opened Codec
  import opened RoundTrip

  /** `m` under `E` and `m'` under `L` show the same along every path. */
  ghost predicate CrossView(E: Env, L: Env, t: nat, m: Msg, m': Msg)
  {
    forall path :: See(E, t, m, path) == See(L, t, m', path)
  }

  /** The two messages agree on every getter at every depth. */
  ghost predicate SameView(E: Env, t: nat, m: Msg, m': Msg)
  {
    CrossView(E, E, t, m, m')
  }

  /** Every getter of `m` shows a default. */
  ghost predicate AllDefault(E: Env, t: nat, m: Msg)
    requires t < |E|
  {
    SameView(E, t, m, Default(E, t))
  }

  lemma SameViewRefl(E: Env, t: nat, m: Msg)
    ensures SameView(E, t, m, m)
  {
  }

  lemma CrossTrans(E: Env, F: Env, G: Env, t: nat, a: Msg, b: Msg, c: Msg)
    requires CrossView(E, F, t, a, b)
    ensures CrossView(E, G, t, a, c) <==> CrossView(F, G, t, b, c)
    ensures CrossView(F, E, t, b, a)
  {
    hide See;
    forall path: seq<nat>
      ensures See(E, t, a, path) == See(F, t, b, path)
    {
    }
  }

  lemma ViewTrans(E: Env, t: nat, a: Msg, b: Msg, c: Msg)
    requires SameView(E, t, a, b) && SameView(E, t, b, c)
    ensures SameView(E, t, a, c) && SameView(E, t, b, a)
  {
    hide See, CrossView;
    CrossTrans(E, E, E, t, a, b, c);
  }

  // ---- member by member -----------------------------------------------------------------------------------

  /** Two members in the same place show the same along every path through them. */
  ghost predicate CrossCell(E: Env, L: Env, t: nat, i: nat, c: Cell, d: Cell)
    requires t < |E| && t < |L| && i < |E[t]| && i < |L[t]|
  {
    forall path :: path != [] && path[0] == i ==> SeeCell(E, E[t][i].kind, c, path) == SeeCell(L, L[t][i].kind, d, path)
  }

  ghost predicate CellShows(E: Env, t: nat, i: nat, c: Cell, d: Cell)
    requires t < |E| && i < |E[t]|
  {
    CrossCell(E, E, t, i, c, d)
  }

  lemma SeeStep(E: Env, t: nat, m: Msg, path: seq<nat>)
    requires t < |E| && |m.cells| == |E[t]|
    ensures See(E, t, m, path) ==
            if path == [] || path[0] >= |E[t]| then Nothing else SeeCell(E, E[t][path[0]].kind, m.cells[path[0]], path)
  {
  }

  /** Messages agree exactly when their members do. */
  lemma CrossByCells(E: Env, L: Env, t: nat, m: Msg, m': Msg)
    requires t < |E| && t < |L| && |m.cells| == |m'.cells| == |E[t]| == |L[t]|
    ensures CrossView(E, L, t, m, m') <==>
            forall i :: 0 <= i < |E[t]| ==> CrossCell(E, L, t, i, m.cells[i], m'.cells[i])
  {
    hide SeeCell, See;
    forall path: seq<nat>
      ensures See(E, t, m, path) == See(L, t, m', path) <==>
              (path != [] && path[0] < |E[t]| ==>
                 SeeCell(E, E[t][path[0]].kind, m.cells[path[0]], path) == SeeCell(L, L[t][path[0]].kind, m'.cells[path[0]], path))
    {
      SeeStep(E, t, m, path);
      SeeStep(L, t, m', path);
    }
    if CrossView(E, L, t, m, m') {
      forall i, path: seq<nat> | 0 <= i < |E[t]| && path != [] && path[0] == i
        ensures SeeCell(E, E[t][i].kind, m.cells[i], path) == SeeCell(L, L[t][i].kind, m'.cells[i], path)
      {
        assert See(E, t, m, path) == See(L, t, m', path);
      }
    }
    if forall i :: 0 <= i < |E[t]| ==> CrossCell(E, L, t, i, m.cells[i], m'.cells[i]) {
      forall path: seq<nat>
        ensures See(E, t, m, path) == See(L, t, m', path)
      {
        if path != [] && path[0] < |E[t]| {
          assert CrossCell(E, L, t, path[0], m.cells[path[0]], m'.cells[path[0]]);
        }
      }
    }
  }

  lemma ShowsByCells(E: Env, t: nat, m: Msg, m': Msg)
    requires t < |E| && |m.cells| == |m'.cells| == |E[t]|
    ensures SameView(E, t, m, m') <==>
            forall i :: 0 <= i < |E[t]| ==> CellShows(E, t, i, m.cells[i], m'.cells[i])
  {
    hide CrossView, CrossCell;
    CrossByCells(E, E, t, m, m');
    assert forall i :: 0 <= i < |E[t]| ==>
      (CellShows(E, t, i, m.cells[i], m'.cells[i]) <==> CrossCell(E, E, t, i, m.cells[i], m'.cells[i]));
  }

  /** A member that holds a message, and the message its getter returns. */
  predicate HoldsMessage(E: Env, k: Kind, c: Cell)
  {
    (k.KMessage? && c.Sub?) || (k.KLazy? && k.sub < |E| && c.Lazy?)
  }

  function Inner(E: Env, k: Kind, c: Cell): Msg
    requires HoldsMessage(E, k, c)
  {
    match c
    case Sub(m) => m
    case Lazy(val) => Get(E, k.sub, val)
  }

  lemma SeeInner(E: Env, k: Kind, c: Cell, path: seq<nat>)
    requires HoldsMessage(E, k, c) && path != []
    ensures SeeCell(E, k, c, path) == See(E, k.sub, Inner(E, k, c), path[1..])
  {
    hide See, Get;
  }

  /** Members that hold messages show the same exactly when the messages do, eager or lazy. */
  lemma InnerShows(E: Env, L: Env, t: nat, i: nat, c: Cell, d: Cell)
    requires t < |E| && t < |L| && i < |E[t]| && i < |L[t]|
    requires HoldsMessage(E, E[t][i].kind, c) && HoldsMessage(L, L[t][i].kind, d) && E[t][i].kind.sub == L[t][i].kind.sub
    ensures CrossCell(E, L, t, i, c, d) <==>
            CrossView(E, L, E[t][i].kind.sub, Inner(E, E[t][i].kind, c), Inner(L, L[t][i].kind, d))
  {
    hide See, SeeCell, Inner;
    var k, k' := E[t][i].kind, L[t][i].kind;
    var u := k.sub;
    var x, y := Inner(E, k, c), Inner(L, k', d);
    forall path: seq<nat> | path != []
      ensures SeeCell(E, k, c, path) == See(E, u, x, path[1..])
      ensures SeeCell(L, k', d, path) == See(L, u, y, path[1..])
    {
      SeeInner(E, k, c, path);
      SeeInner(L, k', d, path);
    }
    if CrossCell(E, L, t, i, c, d) {
      forall path: seq<nat>
        ensures See(E, u, x, path) == See(L, u, y, path)
      {
        var p := [i] + path;
        assert p[1..] == path;
        assert SeeCell(E, k, c, p) == SeeCell(L, k', d, p);
      }
    }
  }

  lemma SubShows(E: Env, t: nat, i: nat, x: Msg, y: Msg)
    requires t < |E| && i < |E[t]| && E[t][i].kind.KMessage?
    ensures CellShows(E, t, i, Sub(x), Sub(y)) <==> SameView(E, E[t][i].kind.sub, x, y)
  {
    hide CrossCell, CrossView;
    InnerShows(E, E, t, i, Sub(x), Sub(y));
  }

  lemma LazyShows(E: Env, t: nat, i: nat, x: LazyVal, y: LazyVal)
    requires t < |E| && i < |E[t]| && E[t][i].kind.KLazy? && E[t][i].kind.sub < |E|
    ensures CellShows(E, t, i, Lazy(x), Lazy(y)) <==>
            SameView(E, E[t][i].kind.sub, Get(E, E[t][i].kind.sub, x), Get(E, E[t][i].kind.sub, y))
  {
    hide CrossCell, CrossView, Get;
    InnerShows(E, E, t, i, Lazy(x), Lazy(y));
  }

  /** Against a message of size zero, to show the same is to show only defaults. */
  lemma ZeroSizeView(E: Env, t: nat, z: Msg, m: Msg)
    requires WfMsg(E, t, z) && Size(E, t, z) == 0
    ensures SameView(E, t, m, z) <==> AllDefault(E, t, m)
    ensures AllDefault(E, t, z)
  {
    hide See, Size, Default, WfMsg;
    WfShape(E, t, z);
    forall path: seq<nat>
      ensures See(E, t, z, path) == See(E, t, Default(E, t), path)
    {
      ZeroSizeSeen(E, t, z, path);
    }
  }
}
