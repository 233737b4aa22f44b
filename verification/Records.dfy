/**
  Laws of parsing stated over whole byte strings ("Last One Wins" of the Protocol Buffers
  "Encoding" guide, unknown fields, record order).
*/
module Records {
  import opened Varint
  import opened Wire
  import opened Schema
  import opened Codec
  import opened Meaning

  /**
    The emitted parser accepts a byte string if and only if it is a sequence of well-formed
    records up to a point where the loop stops, and then the message is their meaning.
  */
  lemma ParserRecognises(E: Env, t: nat, m: Msg, buf: seq<byte>)
    requires t < |E| && |m.cells| == |E[t]| && |buf| < INT_MAX_SPAN
    ensures ParseFrom(E, t, m, buf, 0).Ok? <==>
            exists rs, tail :: RecsOk(E, t, rs) && Stops(tail) && EncRecs(rs) + tail == buf
    ensures forall rs, tail :: RecsOk(E, t, rs) && Stops(tail) && EncRecs(rs) + tail == buf ==>
              ParseFrom(E, t, m, buf, 0) == Ok(ApplyAll(E, t, m, rs), |EncRecs(rs)| + StopAt(tail))
  {
    hide ParseFrom, ApplyAll, RecsOk, Stops, StopAt, EncRecs;
    assert buf[0..] == buf;
    if ParseFrom(E, t, m, buf, 0).Ok? {
      var rs, tail := ParseSound(E, t, m, buf, 0);
    }
    forall rs, tail | RecsOk(E, t, rs) && Stops(tail) && EncRecs(rs) + tail == buf
      ensures ParseFrom(E, t, m, buf, 0) == Ok(ApplyAll(E, t, m, rs), |EncRecs(rs)| + StopAt(tail))
    {
      ParseAccepts(E, t, m, rs, tail, buf, 0);
    }
  }

  /** The records dispatched to member `i`, in order. */
  function ForField(E: Env, t: nat, rs: seq<Rec>, i: nat): seq<Rec>
    requires t < |E|
  {
    if rs == [] then []
    else IfFor(E, t, rs[0], i) + ForField(E, t, rs[1..], i)
  }

  /** Applying records to one member only. */
  function FoldCell(E: Env, k: Kind, c: Cell, rs: seq<Rec>): Cell
    decreases |rs|
  {
    if rs == [] then c else FoldCell(E, k, CellOf(E, k, c, rs[0].payload), rs[1..])
  }

  /** Each member depends on the records of its own number and wire type, and on nothing else. */
  lemma {:induction false} MemberFold(E: Env, t: nat, m: Msg, rs: seq<Rec>, i: nat)
    requires t < |E| && |m.cells| == |E[t]| && i < |E[t]|
    ensures ApplyAll(E, t, m, rs).cells[i] == FoldCell(E, E[t][i].kind, m.cells[i], ForField(E, t, rs, i))
    decreases |rs|
  {
    hide CellOf, Target;
    if rs != [] {
      var own := ForField(E, t, rs, i);
      MemberFold(E, t, Apply(E, t, m, rs[0]), rs[1..], i);
      if Target(E[t], Low32(rs[0].tag)) == i {
        assert own[1..] == ForField(E, t, rs[1..], i);
      } else {
        assert own == ForField(E, t, rs[1..], i);
      }
    }
  }

  /** The record itself if it is for member `i`. */
  function IfFor(E: Env, t: nat, r: Rec, i: nat): seq<Rec>
    requires t < |E|
  {
    if Target(E[t], Low32(r.tag)) == i then [r] else []
  }

  lemma ForFieldCons(E: Env, t: nat, r: Rec, rest: seq<Rec>, i: nat)
    requires t < |E|
    ensures ForField(E, t, [r] + rest, i) == IfFor(E, t, r, i) + ForField(E, t, rest, i)
  {
    assert ([r] + rest)[1..] == rest;
  }

  lemma SplitFirst(a: seq<Rec>, b: seq<Rec>)
    requires a != []
    ensures a == [a[0]] + a[1..] && a + b == [a[0]] + (a[1..] + b)
  {
  }

  lemma Regroup(a: seq<Rec>, b: seq<Rec>, c: seq<Rec>)
    ensures (a + b) + c == a + (b + c)
  {
  }

  lemma {:induction false} ForFieldAppend(E: Env, t: nat, a: seq<Rec>, b: seq<Rec>, i: nat)
    requires t < |E|
    ensures ForField(E, t, a + b, i) == ForField(E, t, a, i) + ForField(E, t, b, i)
  {
    if a == [] {
      assert a + b == b;
    } else {
      hide *;
      SplitFirst(a, b);
      ForFieldCons(E, t, a[0], a[1..] + b, i);
      ForFieldCons(E, t, a[0], a[1..], i);
      ForFieldAppend(E, t, a[1..], b, i);
      Regroup(IfFor(E, t, a[0], i), ForField(E, t, a[1..], i), ForField(E, t, b, i));
    }
  }

  /**
    Two sequences of records that agree field by field are the same message: records that are
    unknown or have the wrong wire type do not count, nor does the order of different fields.
  */
  lemma SameFieldsSameMessage(E: Env, t: nat, m: Msg, rs: seq<Rec>, rs': seq<Rec>)
    requires t < |E| && |m.cells| == |E[t]|
    requires forall i :: 0 <= i < |E[t]| ==> ForField(E, t, rs, i) == ForField(E, t, rs', i)
    ensures ApplyAll(E, t, m, rs) == ApplyAll(E, t, m, rs')
  {
    var a, b := ApplyAll(E, t, m, rs), ApplyAll(E, t, m, rs');
    forall i | 0 <= i < |E[t]|
      ensures a.cells[i] == b.cells[i]
    {
      MemberFold(E, t, m, rs, i);
      MemberFold(E, t, m, rs', i);
    }
    assert a.cells == b.cells;
  }

  /** The same for the bytes a parser is given: equal messages, whatever stands between the records that count. */
  lemma SameFieldsParseAlike(E: Env, t: nat, m: Msg, rs: seq<Rec>, rs': seq<Rec>)
    requires t < |E| && |m.cells| == |E[t]| && RecsOk(E, t, rs) && RecsOk(E, t, rs')
    requires forall i :: 0 <= i < |E[t]| ==> ForField(E, t, rs, i) == ForField(E, t, rs', i)
    ensures var p, p' := ParseFrom(E, t, m, EncRecs(rs), 0), ParseFrom(E, t, m, EncRecs(rs'), 0);
            && p.Ok? && p'.Ok? && p.msg == p'.msg
            && p.pos == |EncRecs(rs)| && p'.pos == |EncRecs(rs')|
  {
    hide RecsOk, ParseFrom, ApplyAll, ForField;
    assert EncRecs(rs)[0..] == EncRecs(rs) + [] && EncRecs(rs')[0..] == EncRecs(rs') + [];
    ParseAccepts(E, t, m, rs, [], EncRecs(rs), 0);
    ParseAccepts(E, t, m, rs', [], EncRecs(rs'), 0);
    SameFieldsSameMessage(E, t, m, rs, rs');
  }

  lemma {:induction false} RecsOkAppend(E: Env, t: nat, a: seq<Rec>, b: seq<Rec>)
    requires t < |E|
    ensures RecsOk(E, t, a + b) <==> RecsOk(E, t, a) && RecsOk(E, t, b)
  {
    hide RecOk;
    if a == [] {
      assert a + b == b;
    } else {
      assert (a + b)[1..] == a[1..] + b;
      RecsOkAppend(E, t, a[1..], b);
    }
  }

  /** Any run of unknown or wrong-wire-type records can be inserted at any record boundary. */
  lemma InsertUnknown(E: Env, t: nat, m: Msg, a: seq<Rec>, x: seq<Rec>, b: seq<Rec>)
    requires t < |E| && |m.cells| == |E[t]|
    requires RecsOk(E, t, a) && RecsOk(E, t, x) && RecsOk(E, t, b)
    requires forall j :: 0 <= j < |x| ==> Target(E[t], Low32(x[j].tag)) < 0
    ensures var p, p' := ParseFrom(E, t, m, EncRecs(a + b), 0), ParseFrom(E, t, m, EncRecs(a + x + b), 0);
            p.Ok? && p'.Ok? && p.msg == p'.msg && p'.pos == |EncRecs(a + x + b)|
  {
    hide ParseFrom, ApplyAll, Target, RecsOk, EncRecs;
    forall i | 0 <= i < |E[t]|
      ensures ForField(E, t, a + b, i) == ForField(E, t, a + x + b, i)
    {
      InsertForField(E, t, a, x, b, i);
    }
    RecsOkAppend(E, t, a, b);
    RecsOkAppend(E, t, a + x, b);
    RecsOkAppend(E, t, a, x);
    SameFieldsParseAlike(E, t, m, a + b, a + x + b);
  }

  lemma InsertForField(E: Env, t: nat, a: seq<Rec>, x: seq<Rec>, b: seq<Rec>, i: nat)
    requires t < |E| && forall j :: 0 <= j < |x| ==> Target(E[t], Low32(x[j].tag)) < 0
    ensures ForField(E, t, a + b, i) == ForField(E, t, a + x + b, i)
  {
    ForFieldAppend(E, t, a, b, i);
    ForFieldAppend(E, t, a + x, b, i);
    ForFieldAppend(E, t, a, x, i);
    NoneForField(E, t, x, i);
  }

  lemma {:induction false} NoneForField(E: Env, t: nat, x: seq<Rec>, i: nat)
    requires t < |E| && forall j :: 0 <= j < |x| ==> Target(E[t], Low32(x[j].tag)) != i
    ensures ForField(E, t, x, i) == []
  {
    if x != [] { NoneForField(E, t, x[1..], i); }
  }

  /** Adjacent records of different members can be swapped. */
  lemma SwapRecords(E: Env, t: nat, m: Msg, a: seq<Rec>, x: Rec, y: Rec, b: seq<Rec>)
    requires t < |E| && |m.cells| == |E[t]|
    requires RecsOk(E, t, a + [x, y] + b)
    requires Target(E[t], Low32(x.tag)) != Target(E[t], Low32(y.tag))
    ensures var p, p' := ParseFrom(E, t, m, EncRecs(a + [x, y] + b), 0), ParseFrom(E, t, m, EncRecs(a + [y, x] + b), 0);
            p.Ok? && p'.Ok? && p.msg == p'.msg
  {
    PairOk(E, t, x, y);
    RecsOkAppend(E, t, a + [x, y], b);
    RecsOkAppend(E, t, a, [x, y]);
    RecsOkAppend(E, t, a + [y, x], b);
    RecsOkAppend(E, t, a, [y, x]);
    forall i | 0 <= i < |E[t]|
      ensures ForField(E, t, a + [x, y] + b, i) == ForField(E, t, a + [y, x] + b, i)
    {
      ForFieldAppend(E, t, a + [x, y], b, i);
      ForFieldAppend(E, t, a, [x, y], i);
      ForFieldAppend(E, t, a + [y, x], b, i);
      ForFieldAppend(E, t, a, [y, x], i);
      PairForField(E, t, x, y, i);
    }
    SameFieldsParseAlike(E, t, m, a + [x, y] + b, a + [y, x] + b);
  }

  lemma PairOk(E: Env, t: nat, x: Rec, y: Rec)
    requires t < |E|
    ensures RecsOk(E, t, [x, y]) <==> RecsOk(E, t, [y, x])
  {
    assert [x, y][1..] == [y] && [y, x][1..] == [x] && [x][1..] == [] && [y][1..] == [];
  }

  lemma PairForField(E: Env, t: nat, x: Rec, y: Rec, i: nat)
    requires t < |E| && Target(E[t], Low32(x.tag)) != Target(E[t], Low32(y.tag))
    ensures ForField(E, t, [x, y], i) == ForField(E, t, [y, x], i)
  {
    assert [x, y][1..] == [y] && [y, x][1..] == [x] && [x][1..] == [] && [y][1..] == [];
  }

  /** Equal but for the default flag of a string, which no getter shows. */
  predicate SameContent(a: Cell, b: Cell)
  {
    a == b || (a.Str? && b.Str? && a.text == b.text)
  }

  /**
    Last one wins: a member holds what its last record with that number and wire type says,
    and its previous content if there is none. Eager submessages are replaced, not merged.
  */
  lemma {:induction false} LastWins(E: Env, t: nat, m: Msg, rs: seq<Rec>, i: nat)
    requires t < |E| && |m.cells| == |E[t]| && i < |E[t]| && RecsOk(E, t, rs)
    ensures var own := ForField(E, t, rs, i);
            if own == [] then ApplyAll(E, t, m, rs).cells[i] == m.cells[i]
            else SameContent(ApplyAll(E, t, m, rs).cells[i],
                             CellOf(E, E[t][i].kind, DefaultCell(E, t, i), own[|own| - 1].payload))
  {
    MemberFold(E, t, m, rs, i);
    var own := ForField(E, t, rs, i);
    ForFieldOk(E, t, rs, i);
    if own != [] {
      LastOfFold(E, E[t][i].kind, m.cells[i], DefaultCell(E, t, i), own);
    }
  }

  /**
    The same in terms of what the record carries: of the type's values, an integer member ends
    up at the one congruent to the varint of its last record; a bool at whether it is not zero;
    a fixed-size member at the bytes, a string at the body, a lazy member at the body unparsed,
    a submessage at what parsing the body into a cleared message gives.
  */
  lemma {:induction false} LastRecordRead(E: Env, t: nat, m: Msg, rs: seq<Rec>, i: nat)
    requires t < |E| && |m.cells| == |E[t]| && i < |E[t]| && RecsOk(E, t, rs)
    requires ForField(E, t, rs, i) != []
    ensures var own := ForField(E, t, rs, i);
            CellReads(E, E[t][i].kind, ApplyAll(E, t, m, rs).cells[i], own[|own| - 1].payload)
  {
    hide ApplyAll, CellReads, CellOf, PayloadOk, ForField;
    var own := ForField(E, t, rs, i);
    LastWins(E, t, m, rs, i);
    ForFieldOk(E, t, rs, i);
    CellOfReads(E, E[t][i].kind, DefaultCell(E, t, i), own[|own| - 1].payload);
    SameReads(E, E[t][i].kind, ApplyAll(E, t, m, rs).cells[i],
              CellOf(E, E[t][i].kind, DefaultCell(E, t, i), own[|own| - 1].payload), own[|own| - 1].payload);
  }

  ghost predicate CellReads(E: Env, k: Kind, c: Cell, p: Payload)
  {
    match k
    case KVarint(vt) =>
      && c.Num? && p.PVarint? && InRange(vt, c.v)
      && (if vt == Bool then c.v != 0 <==> RawValue(p.raw) % TWO64 != 0
          else forall v :: InRange(vt, v) ==> ((v - RawValue(p.raw) % TWO64) % Modulus(vt) == 0 <==> v == c.v))
    case KFixed64(_) => c == Fix(EncPayload(p)) && |c.raw| == 8
    case KFixed32(_) => c == Fix(EncPayload(p)) && |c.raw| == 4
    case KString => c.Str? && EncPayload(p) == Prefix(p) + c.text
    case KLazy(_) => c.Lazy? && c.val.Raw? && EncPayload(p) == Prefix(p) + c.val.bytes
    case KMessage(u) =>
      && c.Sub? && u < |E| && EncPayload(p) == Prefix(p) + Body(p)
      && exists pos :: ParseFrom(E, u, Default(E, u), Body(p), 0) == Ok(c.msg, pos)
  }

  lemma SameReads(E: Env, k: Kind, c: Cell, d: Cell, p: Payload)
    requires SameContent(c, d) && CellReads(E, k, d, p)
    ensures CellReads(E, k, c, p)
  {
    hide ParseFrom, RawValue, EncPayload, InRange;
  }

  lemma CellOfReads(E: Env, k: Kind, prev: Cell, p: Payload)
    requires PayloadOk(E, k, p)
    ensures CellReads(E, k, CellOf(E, k, prev, p), p)
  {
    hide ParseFrom, RawValue, InRange, FromU64, IsVarint, ApplyAll, RecsOk, Stops, EncRecs, Modulus;
    match k
    case KVarint(vt) =>
      var u := RawValue(p.raw) % TWO64;
      VarintReads(vt, u);
    case KMessage(u) =>
      assert Body(p)[0..] == EncRecs(p.inner) + p.tail;
      ParseAccepts(E, u, Default(E, u), p.inner, p.tail, Body(p), 0);
    case _ =>
  }

  lemma VarintReads(vt: VarType, u: nat)
    requires u < TWO64
    ensures InRange(vt, FromU64(vt, u))
    ensures if vt == Bool then FromU64(vt, u) != 0 <==> u != 0
            else forall v :: InRange(vt, v) ==> ((v - u) % Modulus(vt) == 0 <==> v == FromU64(vt, u))
  {
    hide FromU64, InRange, Modulus;
    NarrowExactly(vt, u, FromU64(vt, u));
    forall v | InRange(vt, v) && vt != Bool
      ensures (v - u) % Modulus(vt) == 0 <==> v == FromU64(vt, u)
    {
      NarrowExactly(vt, u, v);
    }
  }

  lemma {:induction false} ForFieldOk(E: Env, t: nat, rs: seq<Rec>, i: nat)
    requires t < |E| && i < |E[t]| && RecsOk(E, t, rs)
    ensures forall j :: 0 <= j < |ForField(E, t, rs, i)| ==> PayloadOk(E, E[t][i].kind, ForField(E, t, rs, i)[j].payload)
  {
    if rs != [] {
      ForFieldOk(E, t, rs[1..], i);
    }
  }

  lemma {:induction false} LastOfFold(E: Env, k: Kind, c: Cell, d: Cell, rs: seq<Rec>)
    requires rs != [] && forall j :: 0 <= j < |rs| ==> PayloadOk(E, k, rs[j].payload)
    ensures SameContent(FoldCell(E, k, c, rs), CellOf(E, k, d, rs[|rs| - 1].payload))
    decreases |rs|
  {
    var c' := CellOf(E, k, c, rs[0].payload);
    if |rs| == 1 {
      PrevIgnored(E, k, c, d, rs[0].payload);
      assert FoldCell(E, k, c', rs[1..]) == c';
    } else {
      assert rs[1..][|rs[1..]| - 1] == rs[|rs| - 1];
      LastOfFold(E, k, c', d, rs[1..]);
    }
  }

  lemma PrevIgnored(E: Env, k: Kind, c: Cell, d: Cell, p: Payload)
    requires PayloadOk(E, k, p)
    ensures SameContent(CellOf(E, k, c, p), CellOf(E, k, d, p))
  {
  }
}
