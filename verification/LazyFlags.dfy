/**
  Marking fields `[lazy = true]`: two schemas that differ only in lazy flags, the same input,
  and exactly when parsing succeeds under both and when all getters agree.
*/
module LazyFlags {
  import opened Varint
  import opened Wire
  import opened Schema
  import opened Codec
  import opened Meaning
  import opened Records
  import opened RoundTrip
  import opened Views
  import opened Laziness

  // ---- lazy flags ------------------------------------------------------------------------------------------------

  /** `L` is `E` with some more submessage fields marked lazy. */
  predicate Lazier(E: Env, L: Env)
  {
    |E| == |L| && forall t :: 0 <= t < |E| ==> LazierType(E[t], L[t])
  }

  predicate LazierType(fs: seq<Field>, gs: seq<Field>)
  {
    |fs| == |gs| && forall i :: 0 <= i < |fs| ==> LazierField(fs[i], gs[i])
  }

  predicate LazierField(f: Field, g: Field)
  {
    g == f || (f.kind.KMessage? && g == Field(f.number, KLazy(f.kind.sub)))
  }

  lemma {:induction false} SameFind(fs: seq<Field>, gs: seq<Field>, number: nat)
    requires LazierType(fs, gs)
    ensures Find(fs, number) == Find(gs, number)
    decreases |fs|
  {
    if fs != [] {
      assert LazierField(fs[|fs| - 1], gs[|gs| - 1]);
      SameFind(fs[..|fs| - 1], gs[..|gs| - 1], number);
    }
  }

  /** Both schemas dispatch every record to the same member. */
  lemma SameTarget(E: Env, L: Env, t: nat, tag: nat)
    requires Lazier(E, L) && t < |E|
    ensures |E[t]| == |L[t]| && Target(E[t], tag) == Target(L[t], tag)
    ensures forall i :: 0 <= i < |E[t]| ==> LazierField(E[t][i], L[t][i])
  {
    assert LazierType(E[t], L[t]);
    SameFind(E[t], L[t], tag / 8);
    var i := Find(E[t], tag / 8);
    if i >= 0 { assert LazierField(E[t][i], L[t][i]); }
  }

  /** Length prefixes that a lazy field reads are at most five bytes long, as far as eager parsing goes. */
  predicate ShortFields(L: Env, t: nat, rs: seq<Rec>)
    requires t < |L|
    decreases rs, 0
  {
    rs == [] || (ShortField(L, t, rs[0]) && ShortFields(L, t, rs[1..]))
  }

  predicate ShortField(L: Env, t: nat, r: Rec)
    requires t < |L|
    decreases r, 1
  {
    var i := Target(L[t], Low32(r.tag));
    i >= 0 ==>
      match L[t][i].kind
      case KLazy(_) => |Prefix(r.payload)| <= 5
      case KMessage(u) => r.payload.PRecords? ==> u < |L| && ShortFields(L, u, r.payload.inner)
      case _ => true
  }

  /** The same inside the payloads that lazy fields store, all of which decode. */
  predicate ShortDeep(L: Env, t: nat, rs: seq<Rec>)
    requires t < |L|
    decreases rs, 0
  {
    rs == [] || (ShortDeepRec(L, t, rs[0]) && ShortDeep(L, t, rs[1..]))
  }

  predicate ShortDeepRec(L: Env, t: nat, r: Rec)
    requires t < |L|
    decreases r, 1
  {
    var i := Target(L[t], Low32(r.tag));
    i >= 0 ==>
      match L[t][i].kind
      case KLazy(u) => |Prefix(r.payload)| <= 5 && r.payload.PRecords? && u < |L| && ShortDeep(L, u, r.payload.inner)
      case KMessage(u) => r.payload.PRecords? ==> u < |L| && ShortDeep(L, u, r.payload.inner)
      case _ => true
  }

  lemma {:induction false} DeepIsShort(L: Env, t: nat, rs: seq<Rec>)
    requires t < |L| && ShortDeep(L, t, rs)
    ensures ShortFields(L, t, rs)
    decreases rs
  {
    if rs != [] {
      DeepIsShortRec(L, t, rs[0]);
      DeepIsShort(L, t, rs[1..]);
    }
  }

  lemma {:induction false} DeepIsShortRec(L: Env, t: nat, r: Rec)
    requires t < |L| && ShortDeepRec(L, t, r)
    ensures ShortField(L, t, r)
    decreases r
  {
    var i := Target(L[t], Low32(r.tag));
    if i >= 0 && L[t][i].kind.KMessage? && r.payload.PRecords? {
      DeepIsShort(L, L[t][i].kind.sub, r.payload.inner);
    }
  }

  /** Records an eager parser accepts are accepted under `L` when their lazy prefixes are short. */
  lemma {:induction false} RecsStayOk(E: Env, L: Env, t: nat, rs: seq<Rec>)
    requires Lazier(E, L) && t < |E| && RecsOk(E, t, rs) && ShortFields(L, t, rs)
    ensures RecsOk(L, t, rs)
    decreases rs
  {
    hide RecOk, ShortField;
    if rs != [] {
      RecStaysOk(E, L, t, rs[0]);
      RecsStayOk(E, L, t, rs[1..]);
    }
  }

  lemma {:induction false} RecStaysOk(E: Env, L: Env, t: nat, r: Rec)
    requires Lazier(E, L) && t < |E| && RecOk(E, t, r) && ShortField(L, t, r)
    ensures RecOk(L, t, r)
    decreases r
  {
    hide Target, WfPayload, RawValue, RecsOk, ShortFields, EncRecs, Stops;
    SameTarget(E, L, t, Low32(r.tag));
    var i := Target(E[t], Low32(r.tag));
    if i >= 0 {
      assert LazierField(E[t][i], L[t][i]);
      assert WfFields(E[t], t, |E|);
      if E[t][i].kind.KMessage? {
        if L[t][i].kind.KMessage? {
          RecsStayOk(E, L, E[t][i].kind.sub, r.payload.inner);
        } else {
          TruncateTwice(RawValue(r.payload.prefix));
        }
      }
    }
  }

  // ---- ... and rejected otherwise -------------------------------------------------------------------------------------

  /** The five-byte reader gives up on a longer prefix. */
  lemma LongPrefix(buf: seq<byte>, q: nat, prefix: seq<byte>, body: seq<byte>)
    requires IsVarint(prefix, 10) && |prefix| > 5 && HasAt(buf, q, prefix + body)
    ensures ScanEnd(buf, q, 5) == Null
  {
    HasAtSplit(buf, q, prefix, body);
    assert forall j :: 0 <= j < 5 ==> buf[q + j] == prefix[j] >= 128;
    assert ScanEnd(buf, q + 5, 0) == Null;
    assert ScanEnd(buf, q + 4, 1) == Null;
    assert ScanEnd(buf, q + 3, 2) == Null;
    assert ScanEnd(buf, q + 2, 3) == Null;
  }

  /** Only a member that the first schema reads eagerly can be rejected under the second. */
  lemma RejectedIsEager(E: Env, L: Env, t: nat, r: Rec)
    requires Lazier(E, L) && t < |E| && RecOk(E, t, r) && !ShortField(L, t, r)
    ensures var i := Target(L[t], Low32(r.tag));
            && i >= 0 && i < |E[t]| && E[t][i].kind.KMessage? && PayloadOk(E, E[t][i].kind, r.payload)
            && (L[t][i].kind.KMessage? || |Prefix(r.payload)| > 5)
  {
    hide Target, WfPayload, RawValue, RecsOk, ShortFields, EncRecs, Stops;
    SameTarget(E, L, t, Low32(r.tag));
    var i := Target(L[t], Low32(r.tag));
    assert LazierField(E[t][i], L[t][i]);
  }

  lemma {:induction false} RecordRejected(E: Env, L: Env, t: nat, m: Msg, r: Rec, buf: seq<byte>, q: nat)
    requires Lazier(E, L) && t < |E| && RecOk(E, t, r) && !ShortField(L, t, r)
    requires |m.cells| == |L[t]| && HasAt(buf, q, EncPayload(r.payload))
    ensures ParseRecord(L, t, m, buf, q, Low32(r.tag)).Failed?
    decreases r, 1
  {
    hide Target, WfPayload, RawValue, RecsOk, ShortFields, EncRecs, Stops, ScanEnd, IsVarint, ParseFrom, Default, ParseSub;
    SameTarget(E, L, t, Low32(r.tag));
    var i := Target(L[t], Low32(r.tag));
    RejectedIsEager(E, L, t, r);
    assert LazierField(E[t][i], L[t][i]);
    assert WfFields(L[t], t, |L|);
    TargetIsFind(L[t], Low32(r.tag));
    var p, k := r.payload, L[t][i].kind;
    var body := EncRecs(p.inner) + p.tail;
    if k.KLazy? {
      LongPrefix(buf, q, p.prefix, body);
    } else {
      PrefixFound(buf, q, p.prefix, body, 10);
      DefaultShape(L, k.sub);
      assert body[0..] == body;
      ParseRejects(E, L, k.sub, Default(L, k.sub), p.inner, p.tail, body, 0);
      SubRejected(L, k.sub, buf, q, q + |p.prefix|, body);
    }
    assert ParseField(L, k, m.cells[i], buf, q).FieldFailed?;
  }

  lemma SubRejected(L: Env, u: nat, buf: seq<byte>, q: nat, s: nat, body: seq<byte>)
    requires u < |L| && q < s && HasAt(buf, s, body) && |body| < INT_MAX_SPAN
    requires ParseFrom(L, u, Default(L, u), body, 0).Failed?
    ensures ParseSub(L, u, buf, q, s, |body|).FieldFailed?
  {
    assert |body| % TWO32 == |body|;
  }

  lemma DefaultShape(L: Env, u: nat)
    requires u < |L|
    ensures |Default(L, u).cells| == |L[u]|
  {
  }

  lemma TargetIsFind(fs: seq<Field>, tag: nat)
    requires Target(fs, tag) >= 0
    ensures Find(fs, tag / 8) == Target(fs, tag) && tag % 8 == WireType(fs[Target(fs, tag)].kind)
  {
  }

  lemma {:induction false} ParseRejects(E: Env, L: Env, t: nat, m: Msg, rs: seq<Rec>, tail: seq<byte>, buf: seq<byte>, pos: nat)
    requires Lazier(E, L) && t < |E| && RecsOk(E, t, rs) && !ShortFields(L, t, rs)
    requires |m.cells| == |L[t]| && pos <= |buf| && buf[pos..] == EncRecs(rs) + tail
    ensures ParseFrom(L, t, m, buf, pos).Failed?
    decreases rs, 2
  {
    hide ParseFrom, RecOk, Apply, EncRec, ScanEnd, ParseRecord, ShortField, RawValue, Stops;
    var r, rest := rs[0], EncRecs(rs[1..]) + tail;
    assert EncRecs(rs) + tail == EncRec(r) + rest;
    if ShortField(L, t, r) {
      RecStaysOk(E, L, t, r);
      ParseOne(L, t, m, r, rest, buf, pos);
      ParseRejects(E, L, t, Apply(L, t, m, r), rs[1..], tail, buf, pos + |EncRec(r)|);
    } else {
      TagOfRec(E, t, r);
      var q := RecordFound(r, rest, buf, pos);
      RecordRejected(E, L, t, m, r, buf, q);
      ParseStep(L, t, m, buf, pos, q, ParseRecord(L, t, m, buf, q, Low32(r.tag)));
    }
  }

  lemma TagOfRec(E: Env, t: nat, r: Rec)
    requires t < |E| && RecOk(E, t, r)
    ensures IsVarint(r.tag, 10) && Low32(r.tag) != 0
  {
  }

  // ---- the getters agree ---------------------------------------------------------------------------------------------

  /** Every stored payload that parses is opened: given as the records it parses to, at every depth. */
  predicate Opened(E: Env, t: nat, rs: seq<Rec>)
    requires t < |E|
    decreases rs, 0
  {
    rs == [] || (OpenedRec(E, t, rs[0]) && Opened(E, t, rs[1..]))
  }

  predicate OpenedRec(E: Env, t: nat, r: Rec)
    requires t < |E|
    decreases r, 1
  {
    var i := Target(E[t], Low32(r.tag));
    i >= 0 ==>
      match E[t][i].kind
      case KLazy(u) =>
        u < |E| &&
        if r.payload.PRecords? then RecsOk(E, u, r.payload.inner) && Stops(r.payload.tail) && Opened(E, u, r.payload.inner)
        else |Body(r.payload)| < INT_MAX_SPAN && !ParseFrom(E, u, Default(E, u), Body(r.payload), 0).Ok?
      case KMessage(u) => r.payload.PRecords? ==> u < |E| && Opened(E, u, r.payload.inner)
      case _ => true
  }

  /** The record that decides its member. */
  predicate IsLast(fs: seq<Field>, rs: seq<Rec>, j: nat)
    requires j < |rs|
  {
    && Target(fs, Low32(rs[j].tag)) >= 0
    && forall k :: j < k < |rs| ==> Target(fs, Low32(rs[k].tag)) != Target(fs, Low32(rs[j].tag))
  }

  /** The last record of each member carries zero, an empty string, or a blank submessage. */
  ghost predicate BlankRecs(E: Env, t: nat, rs: seq<Rec>)
    requires t < |E|
    decreases rs, 0
  {
    forall j :: 0 <= j < |rs| && IsLast(E[t], rs, j) ==> BlankRec(E, t, rs[j])
  }

  ghost predicate BlankRec(E: Env, t: nat, r: Rec)
    requires t < |E|
    decreases r, 1
  {
    var i := Target(E[t], Low32(r.tag));
    i >= 0 ==>
      match E[t][i].kind
      case KVarint(vt) => r.payload.PVarint? ==> FromU64(vt, RawValue(r.payload.raw) % TWO64) == 0
      case KFixed64(f) => r.payload.PFixed64? ==> IsZero(r.payload.eight, f)
      case KFixed32(f) => r.payload.PFixed32? ==> IsZero(r.payload.four, f)
      case KString => Body(r.payload) == []
      case KMessage(u) => r.payload.PRecords? ==> u < |E| && BlankRecs(E, u, r.payload.inner)
      case KLazy(u) => r.payload.PRecords? ==> u < |E| && BlankRecs(E, u, r.payload.inner)
  }

  /** As far as the bytes can be read as records, these are blank. */
  ghost predicate BlankBytes(E: Env, t: nat, bytes: seq<byte>)
    requires t < |E|
  {
    forall rs, tail :: RecsOk(E, t, rs) && Opened(E, t, rs) && Stops(tail) && EncRecs(rs) + tail == bytes ==> BlankRecs(E, t, rs)
  }

  /**
    When every getter agrees. A submessage that both schemas read agrees inside. A payload the
    lazier schema cannot parse, because a prefix inside it is too long, was blank anyway. And so
    is, as the lazier schema reads it, a payload the first one cannot parse.
  */
  ghost predicate Agreeing(E: Env, L: Env, t: nat, rs: seq<Rec>)
    requires t < |E| == |L|
    decreases rs, 0
  {
    forall j :: 0 <= j < |rs| && IsLast(L[t], rs, j) ==> AgreeingRec(E, L, t, rs[j])
  }

  ghost predicate AgreeingRec(E: Env, L: Env, t: nat, r: Rec)
    requires t < |E| == |L|
    decreases r, 1
  {
    var i := Target(L[t], Low32(r.tag));
    i >= 0 ==>
      match L[t][i].kind
      case KMessage(u) => r.payload.PRecords? ==> u < |L| && Agreeing(E, L, u, r.payload.inner)
      case KLazy(u) =>
        u < |L| &&
        if !r.payload.PRecords? then BlankBytes(L, u, Body(r.payload))
        else if ShortFields(L, u, r.payload.inner) then Agreeing(E, L, u, r.payload.inner)
        else BlankRecs(E, u, r.payload.inner)
      case _ => true
  }

  lemma {:induction false} DefaultsAgree(E: Env, L: Env, t: nat, path: seq<nat>)
    requires Lazier(E, L) && t < |E|
    ensures See(L, t, Default(L, t), path) == See(E, t, Default(E, t), path)
    decreases |path|
  {
    SameTarget(E, L, t, 0);
    if path != [] && path[0] < |E[t]| {
      var i := path[0];
      assert LazierField(E[t][i], L[t][i]);
      assert WfFields(E[t], t, |E|) && WfFields(L[t], t, |L|);
      if E[t][i].kind.KMessage? || E[t][i].kind.KLazy? {
        DefaultsAgree(E, L, E[t][i].kind.sub, path[1..]);
      }
    }
  }

  lemma DefaultsCross(E: Env, L: Env, t: nat)
    requires Lazier(E, L) && t < |E|
    ensures CrossView(E, L, t, Default(E, t), Default(L, t))
  {
    hide See, Default;
    forall path: seq<nat>
      ensures See(E, t, Default(E, t), path) == See(L, t, Default(L, t), path)
    {
      DefaultsAgree(E, L, t, path);
    }
  }

  lemma {:induction false} SameForField(E: Env, L: Env, t: nat, rs: seq<Rec>, i: nat)
    requires Lazier(E, L) && t < |E|
    ensures ForField(E, t, rs, i) == ForField(L, t, rs, i)
  {
    hide Target;
    if rs != [] {
      SameTarget(E, L, t, Low32(rs[0].tag));
      SameForField(E, L, t, rs[1..], i);
    }
  }

  /** The last record of a member, where it stands. */
  lemma {:induction false} LastOf(E: Env, t: nat, rs: seq<Rec>, i: nat) returns (j: int)
    requires t < |E| && i < |E[t]|
    ensures ForField(E, t, rs, i) == [] <==> j < 0
    ensures j < 0 ==> forall k :: 0 <= k < |rs| ==> Target(E[t], Low32(rs[k].tag)) != i
    ensures j >= 0 ==>
              && j < |rs| && IsLast(E[t], rs, j) && Target(E[t], Low32(rs[j].tag)) == i
              && rs[j] == ForField(E, t, rs, i)[|ForField(E, t, rs, i)| - 1]
  {
    hide Target;
    if rs == [] {
      j := -1;
    } else {
      var rest := rs[1..];
      var k := LastOf(E, t, rest, i);
      assert forall n :: 0 < n < |rs| ==> rs[n] == rest[n - 1];
      if k >= 0 {
        j := k + 1;
      } else {
        j := if Target(E[t], Low32(rs[0].tag)) == i then 0 else -1;
      }
    }
  }

  lemma {:induction false} RecAt(E: Env, L: Env, t: nat, rs: seq<Rec>, j: nat)
    requires t < |E| && t < |L| && j < |rs| && RecsOk(E, t, rs) && Opened(E, t, rs) && ShortFields(L, t, rs)
    ensures RecOk(E, t, rs[j]) && OpenedRec(E, t, rs[j]) && ShortField(L, t, rs[j])
  {
    hide RecOk, OpenedRec, ShortField;
    if j > 0 {
      assert rs[1..][j - 1] == rs[j];
      RecAt(E, L, t, rs[1..], j - 1);
    }
  }

  /** Every accepted byte string can be given that way. */
  lemma EveryInputOpened(E: Env, t: nat, buf: seq<byte>) returns (rs: seq<Rec>, tail: seq<byte>)
    requires t < |E| && |buf| < INT_MAX_SPAN && ParseFrom(E, t, Default(E, t), buf, 0).Ok?
    ensures RecsOk(E, t, rs) && Opened(E, t, rs) && Stops(tail) && EncRecs(rs) + tail == buf
  {
    hide ParseFrom, RecsOk, Opened, Stops, EncRecs, Default;
    DefaultShape(E, t);
    var found;
    found, tail := ParseSound(E, t, Default(E, t), buf, 0);
    assert buf[0..] == buf;
    rs := Reopen(E, t, found);
  }

  lemma {:induction false} Reopen(E: Env, t: nat, rs: seq<Rec>) returns (rs': seq<Rec>)
    requires t < |E| && RecsOk(E, t, rs) && |EncRecs(rs)| < INT_MAX_SPAN
    ensures RecsOk(E, t, rs') && Opened(E, t, rs') && EncRecs(rs') == EncRecs(rs)
    decreases |EncRecs(rs)|, 1
  {
    hide RecOk, OpenedRec, EncRec;
    if rs == [] {
      rs' := [];
    } else {
      TagOfRec(E, t, rs[0]);
      LongerThanBody(rs[0]);
      var r := ReopenRec(E, t, rs[0]);
      var rest := Reopen(E, t, rs[1..]);
      rs' := [r] + rest;
      assert rs'[1..] == rest;
    }
  }

  lemma LongerThanBody(r: Rec)
    requires IsVarint(r.tag, 10)
    ensures |Body(r.payload)| < |EncRec(r)|
  {
    hide EncRecs;
  }

  lemma {:induction false} ReopenRec(E: Env, t: nat, r: Rec) returns (r': Rec)
    requires t < |E| && RecOk(E, t, r) && |EncRec(r)| < INT_MAX_SPAN
    ensures RecOk(E, t, r') && OpenedRec(E, t, r') && EncRec(r') == EncRec(r)
    decreases |EncRec(r)|, 0
  {
    hide ParseFrom, RecsOk, Opened, Stops, EncRecs, Default, Target, RawValue, WfPayload;
    LongerThanBody(r);
    r' := r;
    var i := Target(E[t], Low32(r.tag));
    if i >= 0 && E[t][i].kind.KMessage? {
      var inner := Reopen(E, E[t][i].kind.sub, r.payload.inner);
      r' := Rec(r.tag, PRecords(r.payload.prefix, inner, r.payload.tail));
    } else if i >= 0 && E[t][i].kind.KLazy? {
      assert WfFields(E[t], t, |E|);
      var u, body := E[t][i].kind.sub, Body(r.payload);
      if ParseFrom(E, u, Default(E, u), body, 0).Ok? {
        DefaultShape(E, u);
        var inner, tail := ParseSound(E, u, Default(E, u), body, 0);
        assert body[0..] == body;
        inner := Reopen(E, u, inner);
        r' := Rec(r.tag, PRecords(Prefix(r.payload), inner, tail));
      } else {
        r' := Rec(r.tag, PBytes(Prefix(r.payload), body));
      }
    }
  }

  // ---- blank payloads -----------------------------------------------------------------------------------------------

  /** What the getter of a submessage member returns after its last record, under either flag. */
  lemma InnerOfRecord(E: Env, t: nat, i: nat, r: Rec)
    requires t < |E| && i < |E[t]| && Target(E[t], Low32(r.tag)) == i
    requires E[t][i].kind.KMessage? || E[t][i].kind.KLazy?
    requires r.payload.PRecords? && E[t][i].kind.sub < |E|
    ensures var k, c := E[t][i].kind, CellOf(E, E[t][i].kind, DefaultCell(E, t, i), r.payload);
            && HoldsMessage(E, k, c)
            && Inner(E, k, c) == if k.KMessage? then ApplyAll(E, k.sub, Default(E, k.sub), r.payload.inner)
                                 else Decode(E, k.sub, EncRecs(r.payload.inner) + r.payload.tail)
  {
    hide ApplyAll, Decode, Default, EncRecs, Target;
  }

  lemma UnparsedDefault(E: Env, u: nat, body: seq<byte>)
    requires u < |E| && !ParseFrom(E, u, Default(E, u), body, 0).Ok?
    ensures Decode(E, u, body) == Default(E, u)
  {
  }

  lemma ScalarBlank(E: Env, t: nat, i: nat, c: Cell)
    requires t < |E| && i < |E[t]| && !E[t][i].kind.KMessage? && !E[t][i].kind.KLazy? && WfCell(E, E[t][i].kind, c)
    ensures CellShows(E, t, i, c, DefaultCell(E, t, i)) <==>
            match c
            case Num(v) => v == 0
            case Fix(raw) => IsZero(raw, IsFloat(E[t][i].kind))
            case Str(_, text) => text == []
            case _ => true
  {
    hide See;
    var k, d := E[t][i].kind, DefaultCell(E, t, i);
    var p: seq<nat> := [i];
    assert CellShows(E, t, i, c, d) <==> SeeCell(E, k, c, p) == SeeCell(E, k, d, p);
  }

  /** A member whose last record is `r` shows a default exactly when the record is blank. */
  lemma {:induction false} BlankRecShows(E: Env, t: nat, i: nat, r: Rec)
    requires t < |E| && i < |E[t]| && Target(E[t], Low32(r.tag)) == i && RecOk(E, t, r) && OpenedRec(E, t, r)
    ensures CellShows(E, t, i, CellOf(E, E[t][i].kind, DefaultCell(E, t, i), r.payload), DefaultCell(E, t, i)) <==> BlankRec(E, t, r)
    decreases r, 1
  {
    hide ApplyAll, RecsOk, See, Target, RawValue, EncRecs, Stops, ParseFrom, Decode, IsZero, CellShows, Opened, BlankRecs, Default,
      WfPayload, IsVarint, AllDefault;
    assert WfFields(E[t], t, |E|);
    var k := E[t][i].kind;
    var c := CellOf(E, k, DefaultCell(E, t, i), r.payload);
    if k.KMessage? || k.KLazy? {
      var d := DefaultCell(E, t, i);
      var u := k.sub;
      DefaultInner(E, t, i);
      if r.payload.PRecords? {
        InnerOfRecord(E, t, i, r);
        InnerIsDefault(E, t, i, c, d);
        if k.KLazy? { DecodeRecords(E, u, r.payload.inner, r.payload.tail); }
        BlankExactly(E, u, r.payload.inner);
      } else {
        UnparsedDefault(E, u, Body(r.payload));
        InnerIsDefault(E, t, i, c, d);
        SameViewRefl(E, u, Default(E, u));
        AllDefaultMeans(E, u, Default(E, u));
      }
    } else {
      ScalarOf(E, k, DefaultCell(E, t, i), r.payload);
      ScalarBlank(E, t, i, c);
    }
  }

  lemma ScalarOf(E: Env, k: Kind, prev: Cell, p: Payload)
    requires PayloadOk(E, k, p) && !k.KMessage? && !k.KLazy? && (k.KString? ==> prev == Str(true, []))
    ensures WfCell(E, k, CellOf(E, k, prev, p))
    ensures match k
            case KVarint(vt) => CellOf(E, k, prev, p) == Num(FromU64(vt, RawValue(p.raw) % TWO64))
            case KFixed64(_) => CellOf(E, k, prev, p) == Fix(p.eight)
            case KFixed32(_) => CellOf(E, k, prev, p) == Fix(p.four)
            case _ => CellOf(E, k, prev, p).Str? && CellOf(E, k, prev, p).text == Body(p)
  {
    hide RawValue, IsVarint;
  }

  lemma AllDefaultMeans(E: Env, u: nat, m: Msg)
    requires u < |E|
    ensures AllDefault(E, u, m) <==> SameView(E, u, m, Default(E, u))
  {
    hide SameView, Default;
  }

  lemma DefaultInner(E: Env, t: nat, i: nat)
    requires t < |E| && i < |E[t]| && (E[t][i].kind.KMessage? || E[t][i].kind.KLazy?)
    ensures E[t][i].kind.sub < |E| && HoldsMessage(E, E[t][i].kind, DefaultCell(E, t, i))
    ensures Inner(E, E[t][i].kind, DefaultCell(E, t, i)) == Default(E, E[t][i].kind.sub)
  {
    assert WfFields(E[t], t, |E|);
  }

  lemma InnerIsDefault(E: Env, t: nat, i: nat, c: Cell, d: Cell)
    requires t < |E| && i < |E[t]| && HoldsMessage(E, E[t][i].kind, c) && HoldsMessage(E, E[t][i].kind, d)
    requires E[t][i].kind.sub < |E| && Inner(E, E[t][i].kind, d) == Default(E, E[t][i].kind.sub)
    ensures CellShows(E, t, i, c, d) <==> AllDefault(E, E[t][i].kind.sub, Inner(E, E[t][i].kind, c))
  {
    hide CrossCell, CrossView, Inner, Default;
    InnerShows(E, E, t, i, c, d);
  }

  /** Blank records are those that leave every getter at its default. */
  lemma {:induction false} BlankExactly(E: Env, t: nat, rs: seq<Rec>)
    requires t < |E| && RecsOk(E, t, rs) && Opened(E, t, rs)
    ensures BlankRecs(E, t, rs) <==> AllDefault(E, t, ApplyAll(E, t, Default(E, t), rs))
    decreases rs, 3
  {
    hide ApplyAll, RecsOk, Opened, Target, BlankRec, CellShows, SameView, Default;
    DefaultShape(E, t);
    var a := ApplyAll(E, t, Default(E, t), rs);
    ShowsByCells(E, t, a, Default(E, t));
    forall i | 0 <= i < |E[t]|
      ensures CellShows(E, t, i, a.cells[i], Default(E, t).cells[i]) <==>
              forall j :: 0 <= j < |rs| && IsLast(E[t], rs, j) && Target(E[t], Low32(rs[j].tag)) == i ==> BlankRec(E, t, rs[j])
    {
      var j := BlankMember(E, t, rs, i);
      if j >= 0 {
        forall k | 0 <= k < |rs| && IsLast(E[t], rs, k) && Target(E[t], Low32(rs[k].tag)) == i
          ensures k == j
        {
        }
      }
    }
    if forall i :: 0 <= i < |E[t]| ==> CellShows(E, t, i, a.cells[i], Default(E, t).cells[i]) {
      forall j | 0 <= j < |rs| && IsLast(E[t], rs, j)
        ensures BlankRec(E, t, rs[j])
      {
        var i := Target(E[t], Low32(rs[j].tag));
        assert CellShows(E, t, i, a.cells[i], Default(E, t).cells[i]);
      }
    }
  }

  lemma {:induction false} BlankMember(E: Env, t: nat, rs: seq<Rec>, i: nat) returns (j: int)
    requires t < |E| && i < |E[t]| && RecsOk(E, t, rs) && Opened(E, t, rs)
    ensures |Default(E, t).cells| == |E[t]|
    ensures j < |rs| && (j < 0 ==> forall k :: 0 <= k < |rs| ==> Target(E[t], Low32(rs[k].tag)) != i)
    ensures j >= 0 ==> IsLast(E[t], rs, j) && Target(E[t], Low32(rs[j].tag)) == i
    ensures CellShows(E, t, i, ApplyAll(E, t, Default(E, t), rs).cells[i], Default(E, t).cells[i]) <==>
            (j >= 0 ==> BlankRec(E, t, rs[j]))
    decreases rs, 2
  {
    assert |Default(E, t).cells| == |E[t]| && Default(E, t).cells[i] == DefaultCell(E, t, i);
    LastWins(E, t, Default(E, t), rs, i);
    j := LastOf(E, t, rs, i);
    hide ApplyAll, CellOf, ForField, RecsOk, Opened, Target, BlankRec, CrossCell, SameContent, DefaultCell, Default;
    var a, d := ApplyAll(E, t, Default(E, t), rs).cells[i], DefaultCell(E, t, i);
    if j < 0 {
      CellShowsRefl(E, t, i, d);
    } else {
      OpenedAt(E, t, rs, j);
      BlankRecShows(E, t, i, rs[j]);
      SameContentRefl(d);
      ContentCross(E, E, t, i, a, CellOf(E, E[t][i].kind, d, rs[j].payload), d, d);
    }
  }

  lemma CellShowsRefl(E: Env, t: nat, i: nat, c: Cell)
    requires t < |E| && i < |E[t]|
    ensures CellShows(E, t, i, c, c)
  {
  }

  lemma SameContentRefl(c: Cell)
    ensures SameContent(c, c)
  {
  }

  lemma {:induction false} OpenedAt(E: Env, t: nat, rs: seq<Rec>, j: nat)
    requires t < |E| && j < |rs| && RecsOk(E, t, rs) && Opened(E, t, rs)
    ensures RecOk(E, t, rs[j]) && OpenedRec(E, t, rs[j])
  {
    hide RecOk, OpenedRec;
    if j > 0 {
      assert rs[1..][j - 1] == rs[j];
      OpenedAt(E, t, rs[1..], j - 1);
    }
  }

  /** Blank bytes are those that decode to defaults only. */
  lemma BlankBytesExactly(E: Env, t: nat, bytes: seq<byte>)
    requires t < |E| && |bytes| < INT_MAX_SPAN
    ensures BlankBytes(E, t, bytes) <==> AllDefault(E, t, Decode(E, t, bytes))
  {
    hide ParseFrom, ApplyAll, RecsOk, Opened, Stops, EncRecs, BlankRecs, Default, Decode, SameView;
    forall rs, tail | RecsOk(E, t, rs) && Opened(E, t, rs) && Stops(tail) && EncRecs(rs) + tail == bytes
      ensures BlankRecs(E, t, rs) <==> AllDefault(E, t, Decode(E, t, bytes))
    {
      DecodeRecords(E, t, rs, tail);
      BlankExactly(E, t, rs);
    }
    if ParseFrom(E, t, Default(E, t), bytes, 0).Ok? {
      var rs, tail := EveryInputOpened(E, t, bytes);
    } else {
      UnparsedDefault(E, t, bytes);
      SameViewRefl(E, t, Default(E, t));
      DefaultShape(E, t);
      ParserRecognises(E, t, Default(E, t), bytes);
    }
  }

  // ---- the same getters ----------------------------------------------------------------------------------------------

  /** A stored payload that the lazier schema rejects reads as the default. */
  lemma RejectedReadsDefault(E: Env, L: Env, u: nat, inner: seq<Rec>, tail: seq<byte>)
    requires Lazier(E, L) && u < |E| && RecsOk(E, u, inner) && !ShortFields(L, u, inner)
    ensures Decode(L, u, EncRecs(inner) + tail) == Default(L, u)
  {
    hide ParseFrom, Default, RecsOk, ShortFields, EncRecs;
    var body := EncRecs(inner) + tail;
    assert body[0..] == body;
    DefaultShape(L, u);
    ParseRejects(E, L, u, Default(L, u), inner, tail, body, 0);
  }

  lemma {:induction false} RecAgrees(E: Env, L: Env, t: nat, i: nat, r: Rec)
    requires Lazier(E, L) && t < |E| && i < |L[t]| == |E[t]| && Target(L[t], Low32(r.tag)) == i
    requires RecOk(E, t, r) && OpenedRec(E, t, r) && ShortField(L, t, r)
    ensures CrossCell(E, L, t, i, CellOf(E, E[t][i].kind, DefaultCell(E, t, i), r.payload),
                      CellOf(L, L[t][i].kind, DefaultCell(L, t, i), r.payload)) <==>
            AgreeingRec(E, L, t, r)
    decreases r, 1
  {
    hide ApplyAll, RecsOk, See, Target, RawValue, FromU64, EncRecs, Stops, ParseFrom, Decode, IsZero, CrossView,
      ShortFields, Opened, Agreeing, Default, WfPayload, IsVarint;
    SameTarget(E, L, t, Low32(r.tag));
    assert LazierField(E[t][i], L[t][i]);
    assert WfFields(E[t], t, |E|) && WfFields(L[t], t, |L|);
    if r.payload.PRecords? && (E[t][i].kind.KMessage? || E[t][i].kind.KLazy?) {
      MessageRecAgrees(E, L, t, i, r);
    } else if E[t][i].kind.KLazy? {
      UnparsedAgrees(E, L, t, i, r);
    } else {
      hide SeeCell;
      ScalarCross(E, L, t, i, CellOf(E, E[t][i].kind, DefaultCell(E, t, i), r.payload),
                  CellOf(L, L[t][i].kind, DefaultCell(L, t, i), r.payload));
    }
  }

  lemma ScalarCross(E: Env, L: Env, t: nat, i: nat, c: Cell, d: Cell)
    requires t < |E| && t < |L| && i < |E[t]| && i < |L[t]| && E[t][i].kind == L[t][i].kind && c == d
    requires c.Num? || c.Fix? || c.Str?
    ensures CrossCell(E, L, t, i, c, d)
  {
  }

  lemma {:induction false} MessageRecAgrees(E: Env, L: Env, t: nat, i: nat, r: Rec)
    requires Lazier(E, L) && t < |E| && i < |L[t]| == |E[t]| && Target(L[t], Low32(r.tag)) == i
    requires r.payload.PRecords? && (E[t][i].kind.KMessage? || E[t][i].kind.KLazy?)
    requires RecOk(E, t, r) && OpenedRec(E, t, r) && ShortField(L, t, r)
    ensures CrossCell(E, L, t, i, CellOf(E, E[t][i].kind, DefaultCell(E, t, i), r.payload),
                      CellOf(L, L[t][i].kind, DefaultCell(L, t, i), r.payload)) <==>
            AgreeingRec(E, L, t, r)
    decreases r, 0
  {
    var u, inner, tail := MessageRecFacts(E, L, t, i, r);
    hide *;
    var x := ApplyAll(E, u, Default(E, u), inner);
    var ce := CellOf(E, E[t][i].kind, DefaultCell(E, t, i), r.payload);
    var cl := CellOf(L, L[t][i].kind, DefaultCell(L, t, i), r.payload);
    InnerOfRecord(E, t, i, r);
    InnerOfRecord(L, t, i, r);
    InnerShows(E, L, t, i, ce, cl);
    DecodeRecords(E, u, inner, tail);
    if ShortFields(L, u, inner) {
      RecsStayOk(E, L, u, inner);
      DecodeRecords(L, u, inner, tail);
      GettersAgreeExactly(E, L, u, inner);
    } else {
      RejectedReadsDefault(E, L, u, inner, tail);
      DefaultAcross(E, L, u, x);
      BlankExactly(E, u, inner);
    }
  }

  /** What the preconditions say about a submessage record. */
  lemma MessageRecFacts(E: Env, L: Env, t: nat, i: nat, r: Rec) returns (u: nat, inner: seq<Rec>, tail: seq<byte>)
    requires Lazier(E, L) && t < |E| && i < |L[t]| == |E[t]| && Target(L[t], Low32(r.tag)) == i
    requires r.payload.PRecords? && (E[t][i].kind.KMessage? || E[t][i].kind.KLazy?)
    requires RecOk(E, t, r) && OpenedRec(E, t, r) && ShortField(L, t, r)
    ensures inner == r.payload.inner && tail == r.payload.tail
    ensures u == E[t][i].kind.sub == L[t][i].kind.sub && u < |E| == |L|
    ensures Target(E[t], Low32(r.tag)) == i && (L[t][i].kind.KMessage? || L[t][i].kind.KLazy?)
    ensures L[t][i].kind.KMessage? ==> E[t][i].kind.KMessage? && ShortFields(L, u, inner)
    ensures RecsOk(E, u, inner) && Stops(tail) && Opened(E, u, inner)
    ensures AgreeingRec(E, L, t, r) <==>
            if ShortFields(L, u, inner) then Agreeing(E, L, u, inner)
            else BlankRecs(E, u, inner)
  {
    hide Target, RawValue, EncRecs, Stops, RecsOk, ShortFields, Opened, Agreeing, ApplyAll, Default, IsVarint, AllDefault;
    SameTarget(E, L, t, Low32(r.tag));
    assert LazierField(E[t][i], L[t][i]);
    assert WfFields(E[t], t, |E|) && WfFields(L[t], t, |L|);
    u, inner, tail := E[t][i].kind.sub, r.payload.inner, r.payload.tail;
  }

  /** A payload the first schema cannot parse. */
  lemma UnparsedAgrees(E: Env, L: Env, t: nat, i: nat, r: Rec)
    requires Lazier(E, L) && t < |E| && i < |L[t]| == |E[t]| && Target(L[t], Low32(r.tag)) == i && E[t][i].kind.KLazy?
    requires RecOk(E, t, r) && OpenedRec(E, t, r) && !r.payload.PRecords?
    ensures CrossCell(E, L, t, i, CellOf(E, E[t][i].kind, DefaultCell(E, t, i), r.payload),
                      CellOf(L, L[t][i].kind, DefaultCell(L, t, i), r.payload)) <==>
            AgreeingRec(E, L, t, r)
  {
    hide Target, RawValue, Default, IsVarint, CrossCell, AllDefault, CrossView, ParseFrom, Decode, Body;
    SameTarget(E, L, t, Low32(r.tag));
    assert LazierField(E[t][i], L[t][i]);
    assert WfFields(E[t], t, |E|) && WfFields(L[t], t, |L|);
    var u, body := E[t][i].kind.sub, Body(r.payload);
    InnerShows(E, L, t, i, Lazy(Raw(body)), Lazy(Raw(body)));
    UnparsedDefault(E, u, body);
    DefaultBefore(E, L, u, Decode(L, u, body));
    BlankBytesExactly(L, u, body);
  }

  lemma DefaultAcross(E: Env, L: Env, u: nat, x: Msg)
    requires Lazier(E, L) && u < |E|
    ensures CrossView(E, L, u, x, Default(L, u)) <==> AllDefault(E, u, x)
  {
    hide CrossView, Default;
    DefaultsCross(E, L, u);
    CrossTrans(E, L, E, u, Default(E, u), Default(L, u), x);
    if CrossView(E, L, u, x, Default(L, u)) {
      CrossTrans(E, L, E, u, x, Default(L, u), Default(E, u));
    }
    if CrossView(E, E, u, x, Default(E, u)) {
      CrossTrans(E, E, L, u, x, Default(E, u), Default(L, u));
    }
  }

  lemma DefaultBefore(E: Env, L: Env, u: nat, y: Msg)
    requires Lazier(E, L) && u < |E|
    ensures CrossView(E, L, u, Default(E, u), y) <==> AllDefault(L, u, y)
  {
    hide CrossView, Default;
    DefaultsCross(E, L, u);
    CrossTrans(E, L, L, u, Default(E, u), Default(L, u), y);
    if CrossView(L, L, u, Default(L, u), y) { CrossTrans(L, L, L, u, Default(L, u), y, y); }
    if CrossView(L, L, u, y, Default(L, u)) { CrossTrans(L, L, L, u, y, Default(L, u), y); }
  }

  lemma ContentCross(E: Env, L: Env, t: nat, i: nat, a: Cell, a': Cell, b: Cell, b': Cell)
    requires t < |E| && t < |L| && i < |E[t]| && i < |L[t]| && SameContent(a, a') && SameContent(b, b')
    ensures CrossCell(E, L, t, i, a, b) <==> CrossCell(E, L, t, i, a', b')
  {
    forall path: seq<nat> | path != []
      ensures SeeCell(E, E[t][i].kind, a, path) == SeeCell(E, E[t][i].kind, a', path)
      ensures SeeCell(L, L[t][i].kind, b, path) == SeeCell(L, L[t][i].kind, b', path)
    {
    }
  }

  /** The members after both parses: untouched ones agree, the others as their last records do. */
  lemma {:induction false} MemberAgrees(E: Env, L: Env, t: nat, rs: seq<Rec>, i: nat) returns (j: int)
    requires Lazier(E, L) && t < |E| && i < |E[t]| == |L[t]|
    requires RecsOk(E, t, rs) && Opened(E, t, rs) && ShortFields(L, t, rs)
    ensures j < |rs| && (j < 0 ==> forall k :: 0 <= k < |rs| ==> Target(L[t], Low32(rs[k].tag)) != i)
    ensures j >= 0 ==> IsLast(L[t], rs, j) && Target(L[t], Low32(rs[j].tag)) == i
    ensures CrossCell(E, L, t, i, ApplyAll(E, t, Default(E, t), rs).cells[i], ApplyAll(L, t, Default(L, t), rs).cells[i]) <==>
            (j >= 0 ==> AgreeingRec(E, L, t, rs[j]))
    decreases rs, 2
  {
    var own := ForField(E, t, rs, i);
    assert |Default(E, t).cells| == |Default(L, t).cells| == |E[t]|;
    RecsStayOk(E, L, t, rs);
    LastWins(E, t, Default(E, t), rs, i);
    LastWins(L, t, Default(L, t), rs, i);
    SameForField(E, L, t, rs, i);
    j := LastOf(L, t, rs, i);
    assert Default(E, t).cells[i] == DefaultCell(E, t, i) && Default(L, t).cells[i] == DefaultCell(L, t, i);
    hide ApplyAll, CellOf, ForField, RecsOk, Opened, ShortFields, Target, AgreeingRec, CrossCell, SameContent, DefaultCell, Default;
    var a, b := ApplyAll(E, t, Default(E, t), rs).cells[i], ApplyAll(L, t, Default(L, t), rs).cells[i];
    if j < 0 {
      DefaultsCross(E, L, t);
      CrossByCells(E, L, t, Default(E, t), Default(L, t));
    } else {
      RecAt(E, L, t, rs, j);
      RecAgrees(E, L, t, i, rs[j]);
      ContentCross(E, L, t, i, a, CellOf(E, E[t][i].kind, DefaultCell(E, t, i), rs[j].payload),
                   b, CellOf(L, L[t][i].kind, DefaultCell(L, t, i), rs[j].payload));
    }
  }

  /**
    Under two schemas that differ in lazy flags, all getters of the parsed message agree at
    every depth exactly when `Agreeing` holds of the input.
  */
  lemma {:induction false} GettersAgreeExactly(E: Env, L: Env, t: nat, rs: seq<Rec>)
    requires Lazier(E, L) && t < |E|
    requires RecsOk(E, t, rs) && Opened(E, t, rs) && ShortFields(L, t, rs)
    ensures Agreeing(E, L, t, rs) <==>
            CrossView(E, L, t, ApplyAll(E, t, Default(E, t), rs), ApplyAll(L, t, Default(L, t), rs))
    decreases rs, 3
  {
    hide ApplyAll, RecsOk, Opened, ShortFields, Target, AgreeingRec, CrossCell, CrossView, Default;
    SameTarget(E, L, t, 0);
    DefaultShape(E, t);
    DefaultShape(L, t);
    var a, b := ApplyAll(E, t, Default(E, t), rs), ApplyAll(L, t, Default(L, t), rs);
    CrossByCells(E, L, t, a, b);
    forall i | 0 <= i < |E[t]|
      ensures CrossCell(E, L, t, i, a.cells[i], b.cells[i]) <==>
              forall j :: 0 <= j < |rs| && IsLast(L[t], rs, j) && Target(L[t], Low32(rs[j].tag)) == i ==> AgreeingRec(E, L, t, rs[j])
    {
      var j := MemberAgrees(E, L, t, rs, i);
      if j >= 0 {
        forall k | 0 <= k < |rs| && IsLast(L[t], rs, k) && Target(L[t], Low32(rs[k].tag)) == i
          ensures k == j
        {
        }
      }
    }
    if forall i :: 0 <= i < |E[t]| ==> CrossCell(E, L, t, i, a.cells[i], b.cells[i]) {
      forall j | 0 <= j < |rs| && IsLast(L[t], rs, j)
        ensures AgreeingRec(E, L, t, rs[j])
      {
        assert CrossCell(E, L, t, Target(L[t], Low32(rs[j].tag)), a.cells[Target(L[t], Low32(rs[j].tag))], b.cells[Target(L[t], Low32(rs[j].tag))]);
      }
    }
  }

  /** In particular they agree when no prefix a lazy field reads, at any depth, is longer than five bytes. */
  lemma {:induction false} ShortPrefixesAgree(E: Env, L: Env, t: nat, rs: seq<Rec>)
    requires Lazier(E, L) && t < |E| && ShortDeep(L, t, rs)
    ensures ShortFields(L, t, rs) && Agreeing(E, L, t, rs)
    decreases rs, 1
  {
    DeepIsShort(L, t, rs);
    forall j | 0 <= j < |rs| && IsLast(L[t], rs, j)
      ensures AgreeingRec(E, L, t, rs[j])
    {
      ShortDeepAt(L, t, rs, j);
      ShortRecAgrees(E, L, t, rs[j]);
    }
  }

  lemma {:induction false} ShortRecAgrees(E: Env, L: Env, t: nat, r: Rec)
    requires Lazier(E, L) && t < |E| && ShortDeepRec(L, t, r)
    ensures AgreeingRec(E, L, t, r)
    decreases r, 0
  {
    hide Target, Agreeing, ShortFields, ShortDeep;
    var i := Target(L[t], Low32(r.tag));
    if i >= 0 && r.payload.PRecords? && (L[t][i].kind.KMessage? || L[t][i].kind.KLazy?) {
      ShortPrefixesAgree(E, L, L[t][i].kind.sub, r.payload.inner);
    }
  }

  lemma {:induction false} ShortDeepAt(L: Env, t: nat, rs: seq<Rec>, j: nat)
    requires t < |L| && j < |rs| && ShortDeep(L, t, rs)
    ensures ShortDeepRec(L, t, rs[j])
  {
    hide ShortDeepRec;
    if j > 0 {
      assert rs[1..][j - 1] == rs[j];
      ShortDeepAt(L, t, rs[1..], j - 1);
    }
  }

  /**
    Lazy refines eager. On any byte string a schema parses, one that marks more of its fields
    lazy succeeds exactly when the prefixes its lazy fields read are at most five bytes, and
    then at the same end. All getters then agree, at every depth, exactly when `Agreeing` holds.
  */
  lemma LazyRefinesEager(E: Env, L: Env, t: nat, rs: seq<Rec>, tail: seq<byte>)
    requires Lazier(E, L) && t < |E| && RecsOk(E, t, rs) && Stops(tail)
    ensures var buf := EncRecs(rs) + tail;
            && |E[t]| == |L[t]|
            && var e, l := ParseFrom(E, t, Default(E, t), buf, 0), ParseFrom(L, t, Default(L, t), buf, 0);
            && e.Ok?
            && (l.Ok? <==> ShortFields(L, t, rs))
            && (l.Ok? ==> l.pos == e.pos)
            && (l.Ok? && Opened(E, t, rs) ==> (Agreeing(E, L, t, rs) <==> CrossView(E, L, t, e.msg, l.msg)))
  {
    hide ParseFrom, ApplyAll, RecsOk, Stops, StopAt, EncRecs, ShortFields, Opened, Agreeing, CrossView, Default;
    var buf := EncRecs(rs) + tail;
    assert buf[0..] == buf;
    SameTarget(E, L, t, 0);
    DefaultShape(E, t);
    DefaultShape(L, t);
    ParseAccepts(E, t, Default(E, t), rs, tail, buf, 0);
    if ShortFields(L, t, rs) {
      RecsStayOk(E, L, t, rs);
      ParseAccepts(L, t, Default(L, t), rs, tail, buf, 0);
      if Opened(E, t, rs) { GettersAgreeExactly(E, L, t, rs); }
    } else {
      ParseRejects(E, L, t, Default(L, t), rs, tail, buf, 0);
    }
  }

  // ---- inputs on which they differ ---------------------------------------------------------------------------------

  /** A length padded to six bytes. */
  function PaddedLength(n: nat): (s: seq<byte>)
    requires n < 128
    ensures |s| == 6
  {
    [n + 128] + Zeroes(4)
  }

  function Zeroes(n: nat): (s: seq<byte>)
    ensures |s| == n + 1
  {
    if n == 0 then [0] else [0x80] + Zeroes(n - 1)
  }

  lemma {:induction false} ZeroesValue(n: nat)
    ensures RawValue(Zeroes(n)) == 0 && IsVarint(Zeroes(n), n + 1)
  {
    hide RawValue, IsVarint;
    if n == 0 {
      OneByte(0);
    } else {
      ZeroesValue(n - 1);
      ConsVarint(0x80, Zeroes(n - 1), n);
    }
  }

  lemma PaddedLengthValue(n: nat)
    requires n < 128
    ensures RawValue(PaddedLength(n)) == n && IsVarint(PaddedLength(n), 10)
  {
    hide RawValue;
    ZeroesValue(4);
    ConsVarint(n + 128, Zeroes(4), 5);
  }

  lemma SmallTag(fs: seq<Field>, b: byte)
    requires |fs| == 1 && fs[0].number == 1 && b == 8 + WireType(fs[0].kind)
    ensures RawValue([b]) == b && IsVarint([b], 10) && Low32([b]) == b
    ensures Target(fs, Low32([b])) == 0
  {
    OneByte(b);
    assert Find(fs, 1) == 0;
  }

  /** A submessage member with an empty payload behind a padded length: parsed eagerly, refused lazily. */
  lemma PaddedPrefixRefused()
    ensures var E: Env := [[], [Field(1, KMessage(0))]];
            var L: Env := [[], [Field(1, KLazy(0))]];
            var bytes := [0x0a] + PaddedLength(0);
            && Lazier(E, L)
            && ParseFrom(E, 1, Default(E, 1), bytes, 0).Ok? && !ParseFrom(L, 1, Default(L, 1), bytes, 0).Ok?
  {
    var E: Env := [[], [Field(1, KMessage(0))]];
    var L: Env := [[], [Field(1, KLazy(0))]];
    hide *;
    RefusedIn(E, L, [0x0a] + PaddedLength(0));
  }

  lemma RefusedIn(E: Env, L: Env, bytes: seq<byte>)
    requires |E| == |L| == 2 && E[0] == [] && L[0] == []
    requires E[1] == [Field(1, KMessage(0))] && L[1] == [Field(1, KLazy(0))] && bytes == [0x0a] + PaddedLength(0)
    ensures Lazier(E, L)
    ensures ParseFrom(E, 1, Default(E, 1), bytes, 0).Ok? && !ParseFrom(L, 1, Default(L, 1), bytes, 0).Ok?
  {
    hide ParseFrom, PaddedLength, Default, Agreeing, Opened, ShortFields, RecsOk, ApplyAll, Stops, EncRecs;
    assert LazierType(E[0], L[0]) && LazierType(E[1], L[1]);
    var r := Rec([0x0a], PRecords(PaddedLength(0), [], []));
    RefusedRecord(E, L, 1, r);
    assert EncRecs([r]) + [] == bytes by { OneRec(r); NoRecs(); }
    EmptyTailStops();
    LazyRefinesEager(E, L, 1, [r], []);
  }

  lemma NoRecs()
    ensures EncRecs([]) == []
  {
  }

  lemma OneRec(r: Rec)
    ensures EncRecs([r]) == r.tag + EncPayload(r.payload)
  {
    assert [r][1..] == [];
    assert EncRec(r) + EncRecs([]) == EncRec(r);
  }

  lemma RefusedRecord(E: Env, L: Env, t: nat, r: Rec)
    requires Lazier(E, L) && 0 < t < |E| && E[t] == [Field(1, KMessage(0))] && L[t] == [Field(1, KLazy(0))]
    requires r == Rec([0x0a], PRecords(PaddedLength(0), [], []))
    ensures RecsOk(E, t, [r]) && !ShortFields(L, t, [r])
  {
    hide RawValue, Default, PaddedLength, RecsOk, ApplyAll, ShortFields, Target, Stops, IsVarint;
    Single(E, t, r);
    Single(L, t, r);
    PaddedLengthValue(0);
    NoRecsOk(E, 0);
    EmptyTailStops();
    assert EncRecs([]) + [] == [];
  }

  /**
    Two levels of lazy members with the padded length inside: the outer parse succeeds at the
    same end, but reading the outer member gives a default where the eager schema shows 1.
  */
  lemma NestedPaddedPrefixReadsDefault()
    ensures var E: Env := [[Field(1, KVarint(Int32))], [Field(1, KMessage(0))], [Field(1, KMessage(1))]];
            var L: Env := [[Field(1, KVarint(Int32))], [Field(1, KLazy(0))], [Field(1, KLazy(1))]];
            var bytes := [0x0a, 9] + ([0x0a] + (PaddedLength(2) + [0x08, 0x01]));
            var e, l := ParseFrom(E, 2, Default(E, 2), bytes, 0), ParseFrom(L, 2, Default(L, 2), bytes, 0);
            && Lazier(E, L) && e.Ok? && l.Ok? && e.pos == l.pos
            && See(E, 2, e.msg, [0, 0, 0]) == SeenNum(1) && See(L, 2, l.msg, [0, 0, 0]) == SeenNum(0)
  {
    var E: Env := [[Field(1, KVarint(Int32))], [Field(1, KMessage(0))], [Field(1, KMessage(1))]];
    var L: Env := [[Field(1, KVarint(Int32))], [Field(1, KLazy(0))], [Field(1, KLazy(1))]];
    hide *;
    NestedIn(E, L, [0x0a, 9] + ([0x0a] + (PaddedLength(2) + [0x08, 0x01])));
  }

  lemma NestedIn(E: Env, L: Env, bytes: seq<byte>)
    requires |E| == |L| == 3 && E[0] == [Field(1, KVarint(Int32))] == L[0]
    requires E[1] == [Field(1, KMessage(0))] && L[1] == [Field(1, KLazy(0))]
    requires E[2] == [Field(1, KMessage(1))] && L[2] == [Field(1, KLazy(1))]
    requires bytes == [0x0a, 9] + ([0x0a] + (PaddedLength(2) + [0x08, 0x01]))
    ensures var e, l := ParseFrom(E, 2, Default(E, 2), bytes, 0), ParseFrom(L, 2, Default(L, 2), bytes, 0);
            && Lazier(E, L) && e.Ok? && l.Ok? && e.pos == l.pos
            && See(E, 2, e.msg, [0, 0, 0]) == SeenNum(1) && See(L, 2, l.msg, [0, 0, 0]) == SeenNum(0)
  {
    hide ParseFrom, ApplyAll, RecsOk, EncRecs, ShortFields, See, Default, Stops, StopAt, PaddedLength, Decode;
    assert LazierType(E[0], L[0]) && LazierType(E[1], L[1]) && LazierType(E[2], L[2]);
    var x := Rec([0x08], PVarint([0x01]));
    var y := Rec([0x0a], PRecords(PaddedLength(2), [x], []));
    var z := Rec([0x0a], PRecords([9], [y], []));
    EmptyTailStops();
    Leaf(E, x);
    Middle(E, L, x, y);
    Outer(E, L, y, z);
    OneRec(x);
    OneRec(y);
    OneRec(z);
    assert bytes == EncRecs([z]) + [];
    assert bytes[0..] == bytes;
    DefaultShape(E, 2);
    DefaultShape(L, 2);
    ParseAccepts(E, 2, Default(E, 2), [z], [], bytes, 0);
    RecsStayOk(E, L, 2, [z]);
    ParseAccepts(L, 2, Default(L, 2), [z], [], bytes, 0);
  }

  /** A type with one member, and one record for it. */
  lemma Single(E: Env, t: nat, r: Rec)
    requires t < |E| && |E[t]| == 1 && E[t][0].number == 1 && r.tag == [8 + WireType(E[t][0].kind)]
    ensures Low32(r.tag) == 8 + WireType(E[t][0].kind) && Target(E[t], Low32(r.tag)) == 0
    ensures RecsOk(E, t, [r]) <==> PayloadOk(E, E[t][0].kind, r.payload)
    ensures ApplyAll(E, t, Default(E, t), [r]) == Msg([CellOf(E, E[t][0].kind, DefaultCell(E, t, 0), r.payload)])
    ensures ShortFields(E, t, [r]) <==> ShortField(E, t, r)
  {
    hide RawValue, PayloadOk, CellOf, Target, DefaultCell, ShortField, IsVarint, WfPayload;
    SmallTag(E[t], 8 + WireType(E[t][0].kind));
    assert [r][1..] == [];
    var d := Default(E, t);
    assert d.cells == [DefaultCell(E, t, 0)];
    assert Apply(E, t, d, r).cells == [CellOf(E, E[t][0].kind, DefaultCell(E, t, 0), r.payload)];
    assert ApplyAll(E, t, d, [r]) == ApplyAll(E, t, Apply(E, t, d, r), []) == Apply(E, t, d, r);
    assert RecsOk(E, t, [r]) <==> RecOk(E, t, r) && RecsOk(E, t, []);
  }

  lemma Leaf(E: Env, x: Rec)
    requires |E| > 0 && E[0] == [Field(1, KVarint(Int32))] && x == Rec([0x08], PVarint([0x01]))
    ensures RecsOk(E, 0, [x]) && EncRecs([x]) == [0x08, 0x01]
    ensures ApplyAll(E, 0, Default(E, 0), [x]) == Msg([Num(1)])
  {
    hide *;
    LeafPayload(E, DefaultCell(E, 0, 0));
    Single(E, 0, x);
    OneRec(x);
    VarintPayload([0x01]);
  }

  lemma VarintPayload(raw: seq<byte>)
    ensures EncPayload(PVarint(raw)) == raw
  {
  }

  lemma LeafPayload(E: Env, prev: Cell)
    ensures WireType(KVarint(Int32)) == 0 && PayloadOk(E, KVarint(Int32), PVarint([0x01]))
    ensures CellOf(E, KVarint(Int32), prev, PVarint([0x01])) == Num(1)
  {
    hide RawValue, IsVarint;
    OneByte(1);
    assert 1 % TWO64 == 1 && FromU64(Int32, 1) == 1;
  }

  lemma Middle(E: Env, L: Env, x: Rec, y: Rec)
    requires Lazier(E, L) && |E| > 1 && E[0] == [Field(1, KVarint(Int32))] && x == Rec([0x08], PVarint([0x01]))
    requires E[1] == [Field(1, KMessage(0))] && L[1] == [Field(1, KLazy(0))]
    requires y == Rec([0x0a], PRecords(PaddedLength(2), [x], []))
    ensures RecsOk(E, 1, [y]) && !ShortFields(L, 1, [y]) && |EncRecs([y])| == 9
    ensures ApplyAll(E, 1, Default(E, 1), [y]) == Msg([Sub(Msg([Num(1)]))])
  {
    hide RawValue, PaddedLength, RecsOk, ApplyAll, Default, ShortFields, Target, Stops, IsVarint, EncRecs;
    Leaf(E, x);
    Single(E, 1, y);
    Single(L, 1, y);
    PaddedLengthValue(2);
    OneRec(y);
    EmptyTailStops();
    assert EncRecs([x]) + [] == [0x08, 0x01];
  }

  lemma Outer(E: Env, L: Env, y: Rec, z: Rec)
    requires Lazier(E, L) && |E| > 2 && E[0] == [Field(1, KVarint(Int32))] == L[0]
    requires E[1] == [Field(1, KMessage(0))] && L[1] == [Field(1, KLazy(0))]
    requires E[2] == [Field(1, KMessage(1))] && L[2] == [Field(1, KLazy(1))]
    requires RecsOk(E, 1, [y]) && !ShortFields(L, 1, [y]) && |EncRecs([y])| == 9
    requires ApplyAll(E, 1, Default(E, 1), [y]) == Msg([Sub(Msg([Num(1)]))])
    requires z == Rec([0x0a], PRecords([9], [y], []))
    ensures RecsOk(E, 2, [z]) && ShortFields(L, 2, [z])
    ensures See(E, 2, ApplyAll(E, 2, Default(E, 2), [z]), [0, 0, 0]) == SeenNum(1)
    ensures See(L, 2, ApplyAll(L, 2, Default(L, 2), [z]), [0, 0, 0]) == SeenNum(0)
  {
    hide RawValue, RecsOk, ApplyAll, Default, ShortFields, Target, Stops, IsVarint, EncRecs, Decode, See;
    Single(E, 2, z);
    Single(L, 2, z);
    OneByte(9);
    EmptyTailStops();
    assert EncRecs([y]) + [] == EncRecs([y]);
    RejectedReadsDefault(E, L, 1, [y], []);
    SeenThrough(E, ApplyAll(E, 2, Default(E, 2), [z]));
    SeenDefault(L, ApplyAll(L, 2, Default(L, 2), [z]), EncRecs([y]) + []);
  }

  lemma SeenThrough(E: Env, a: Msg)
    requires |E| > 2 && a == Msg([Sub(Msg([Sub(Msg([Num(1)]))]))])
    requires E[0] == [Field(1, KVarint(Int32))] && E[1] == [Field(1, KMessage(0))] && E[2] == [Field(1, KMessage(1))]
    ensures See(E, 2, a, [0, 0, 0]) == SeenNum(1)
  {
    var p: seq<nat> := [0, 0, 0];
    assert p[1..] == [0, 0] && p[1..][1..] == [0];
    assert See(E, 0, Msg([Num(1)]), [0]) == SeenNum(1);
    assert See(E, 1, Msg([Sub(Msg([Num(1)]))]), [0, 0]) == SeenNum(1);
  }

  lemma SeenDefault(L: Env, b: Msg, bytes: seq<byte>)
    requires |L| > 2 && b == Msg([Lazy(Raw(bytes))]) && Decode(L, 1, bytes) == Default(L, 1)
    requires L[0] == [Field(1, KVarint(Int32))] && L[1] == [Field(1, KLazy(0))] && L[2] == [Field(1, KLazy(1))]
    ensures See(L, 2, b, [0, 0, 0]) == SeenNum(0)
  {
    hide Decode;
    var p: seq<nat> := [0, 0, 0];
    assert p[1..] == [0, 0] && p[1..][1..] == [0];
    assert Default(L, 1).cells == [Lazy(Unset)];
    assert Default(L, 0).cells == [Num(0)];
    assert See(L, 0, Default(L, 0), [0]) == SeenNum(0);
    assert See(L, 1, Default(L, 1), [0, 0]) == SeenNum(0);
  }

  /**
    A stored payload whose first member, a submessage, is malformed: parsed eagerly it spoils the
    whole payload, parsed lazily it does not, and the second member shows 1 instead of 0.
  */
  lemma MalformedSubmessageHidden()
    ensures var E: Env := [[], [Field(1, KMessage(0)), Field(2, KVarint(Int32))], [Field(1, KLazy(1))]];
            var L: Env := [[], [Field(1, KLazy(0)), Field(2, KVarint(Int32))], [Field(1, KLazy(1))]];
            var bytes := [0x0a, 5] + [0x0a, 1, 0x0f, 0x10, 1];
            var e, l := ParseFrom(E, 2, Default(E, 2), bytes, 0), ParseFrom(L, 2, Default(L, 2), bytes, 0);
            && Lazier(E, L) && e.Ok? && l.Ok? && e.pos == l.pos
            && See(E, 2, e.msg, [0, 1]) == SeenNum(0) && See(L, 2, l.msg, [0, 1]) == SeenNum(1)
  {
    var E: Env := [[], [Field(1, KMessage(0)), Field(2, KVarint(Int32))], [Field(1, KLazy(1))]];
    var L: Env := [[], [Field(1, KLazy(0)), Field(2, KVarint(Int32))], [Field(1, KLazy(1))]];
    hide *;
    HiddenIn(E, L, [0x0a, 1, 0x0f, 0x10, 1]);
  }

  lemma HiddenIn(E: Env, L: Env, body: seq<byte>)
    requires |E| == |L| == 3 && E[0] == [] == L[0] && E[2] == [Field(1, KLazy(1))] == L[2]
    requires E[1] == [Field(1, KMessage(0)), Field(2, KVarint(Int32))] && L[1] == [Field(1, KLazy(0)), Field(2, KVarint(Int32))]
    requires body == [0x0a, 1, 0x0f, 0x10, 1]
    ensures var bytes := [0x0a, 5] + body;
            var e, l := ParseFrom(E, 2, Default(E, 2), bytes, 0), ParseFrom(L, 2, Default(L, 2), bytes, 0);
            && Lazier(E, L) && e.Ok? && l.Ok? && e.pos == l.pos
            && See(E, 2, e.msg, [0, 1]) == SeenNum(0) && See(L, 2, l.msg, [0, 1]) == SeenNum(1)
  {
    hide *;
    HiddenLazier(E, L);
    Storing(E, body);
    Storing(L, body);
    MalformedFails(E, body);
    SiblingParses(L, body);
    UnparsedDefault(E, 1, body);
    SecondSeen(E, body, 0);
    SecondSeen(L, body, 1);
  }

  lemma HiddenLazier(E: Env, L: Env)
    requires |E| == |L| == 3 && E[0] == [] == L[0] && E[2] == [Field(1, KLazy(1))] == L[2]
    requires E[1] == [Field(1, KMessage(0)), Field(2, KVarint(Int32))] && L[1] == [Field(1, KLazy(0)), Field(2, KVarint(Int32))]
    ensures Lazier(E, L) && Default(E, 1).cells == [Sub(Default(E, 0)), Num(0)]
  {
    assert LazierType(E[0], L[0]) && LazierType(E[1], L[1]) && LazierType(E[2], L[2]);
  }

  /** The outer member keeps the payload. */
  lemma Storing(E: Env, body: seq<byte>)
    requires |E| == 3 && E[2] == [Field(1, KLazy(1))] && |body| == 5
    ensures ParseFrom(E, 2, Default(E, 2), [0x0a, 5] + body, 0) == Ok(Msg([Lazy(Raw(body))]), 7)
  {
    hide ParseFrom, ApplyAll, RecsOk, EncRecs, Stops, StopAt, Default, RawValue, Target;
    var z := Rec([0x0a], PBytes([5], body));
    Single(E, 2, z);
    OneByte(5);
    OneRec(z);
    EmptyTailStops();
    var bytes := [0x0a, 5] + body;
    assert EncRecs([z]) + [] == bytes == bytes[0..];
    DefaultShape(E, 2);
    ParseAccepts(E, 2, Default(E, 2), [z], [], bytes, 0);
    assert StopAt([]) == 0 by { NothingToStopAt(); }
  }

  lemma NothingToStopAt()
    ensures StopAt([]) == 0
  {
  }

  lemma MalformedFails(E: Env, body: seq<byte>)
    requires |E| == 3 && E[0] == [] && E[1] == [Field(1, KMessage(0)), Field(2, KVarint(Int32))]
    requires body == [0x0a, 1, 0x0f, 0x10, 1]
    ensures !ParseFrom(E, 1, Default(E, 1), body, 0).Ok?
  {
    hide ParseFrom, Default, RawValue, FromU64;
    DefaultShape(E, 1);
    DefaultShape(E, 0);
    OneByte(0x0a);
    OneByte(1);
    assert body[0..1] == [0x0a] && body[1..2] == [1] && body[2..2 + 1] == [0x0f];
    assert ScanEnd(body, 0, 10) == At(1) && ScanEnd(body, 1, 10) == At(2);
    assert Find(E[1], 1) == 0;
    WireTypeSeven(E, Default(E, 0), [0x0f]);
    assert ParseField(E, KMessage(0), Default(E, 1).cells[0], body, 1).FieldFailed?;
    ParseStep(E, 1, Default(E, 1), body, 0, 1, ParseRecord(E, 1, Default(E, 1), body, 1, 10));
  }

  /** No wire type 7: neither a field nor something to skip. */
  lemma WireTypeSeven(E: Env, m: Msg, body: seq<byte>)
    requires |E| > 0 && E[0] == [] && m.cells == [] && body == [0x0f]
    ensures ParseFrom(E, 0, m, body, 0).Failed?
  {
    hide ParseFrom, RawValue;
    OneByte(0x0f);
    assert body[0..1] == [0x0f];
    assert ScanEnd(body, 0, 10) == At(1);
    ParseStep(E, 0, m, body, 0, 1, ParseRecord(E, 0, m, body, 1, 15));
  }

  lemma SiblingParses(L: Env, body: seq<byte>)
    requires |L| == 3 && L[1] == [Field(1, KLazy(0)), Field(2, KVarint(Int32))] && body == [0x0a, 1, 0x0f, 0x10, 1]
    ensures Decode(L, 1, body).cells == [Lazy(Raw([0x0f])), Num(1)]
  {
    hide ParseFrom, ApplyAll, RecsOk, EncRecs, Stops, Default, RawValue, Target, IsVarint, FromU64, Decode, Low32, RecOk, Apply;
    var x, y := Rec([0x0a], PBytes([1], [0x0f])), Rec([0x10], PVarint([1]));
    TwoRecords(L, x, y);
    OneRec(x);
    OneRec(y);
    EncRecsAppend([x], [y]);
    assert [x] + [y] == [x, y];
    EmptyTailStops();
    assert EncRecs([x, y]) + [] == body;
    DecodeRecords(L, 1, [x, y], []);
  }

  lemma TwoRecords(L: Env, x: Rec, y: Rec)
    requires |L| == 3 && L[1] == [Field(1, KLazy(0)), Field(2, KVarint(Int32))]
    requires x == Rec([0x0a], PBytes([1], [0x0f])) && y == Rec([0x10], PVarint([1]))
    ensures RecsOk(L, 1, [x, y])
    ensures ApplyAll(L, 1, Default(L, 1), [x, y]).cells == [Lazy(Raw([0x0f])), Num(1)]
  {
    hide RecOk, Apply, DefaultCell;
    var both := [x, y];
    assert both[1..] == [y] && [y][1..] == [];
    var d := Default(L, 1);
    assert |d.cells| == 2;
    FirstRecord(L, d, x);
    var one := Apply(L, 1, d, x);
    SecondRecord(L, one, y);
    assert RecsOk(L, 1, []) && RecsOk(L, 1, [y]) && RecsOk(L, 1, both);
    assert ApplyAll(L, 1, one, [y]) == ApplyAll(L, 1, Apply(L, 1, one, y), []) == Apply(L, 1, one, y);
    assert ApplyAll(L, 1, d, both) == ApplyAll(L, 1, one, [y]);
  }

  lemma FirstRecord(L: Env, d: Msg, x: Rec)
    requires |L| == 3 && L[1] == [Field(1, KLazy(0)), Field(2, KVarint(Int32))] && |d.cells| == 2
    requires x == Rec([0x0a], PBytes([1], [0x0f]))
    ensures RecOk(L, 1, x) && Apply(L, 1, d, x).cells == [Lazy(Raw([0x0f])), d.cells[1]]
  {
    hide RawValue;
    OneByte(0x0a);
    OneByte(1);
    assert Find(L[1][..1], 1) == 0 && Find(L[1], 1) == 0;
    assert Target(L[1], Low32(x.tag)) == 0;
  }

  lemma SecondRecord(L: Env, d: Msg, y: Rec)
    requires |L| == 3 && L[1] == [Field(1, KLazy(0)), Field(2, KVarint(Int32))] && |d.cells| == 2
    requires y == Rec([0x10], PVarint([1]))
    ensures RecOk(L, 1, y) && Apply(L, 1, d, y).cells == [d.cells[0], Num(1)]
  {
    hide RawValue, PayloadOk, CellOf;
    OneByte(0x10);
    assert Find(L[1], 2) == 1;
    assert Target(L[1], Low32(y.tag)) == 1;
    LeafPayload(L, d.cells[1]);
  }

  lemma SecondSeen(E: Env, body: seq<byte>, v: int)
    requires |E| == 3 && E[2] == [Field(1, KLazy(1))] && |E[1]| == 2 && |Decode(E, 1, body).cells| == 2
    requires Decode(E, 1, body).cells[1] == Num(v)
    ensures See(E, 2, Msg([Lazy(Raw(body))]), [0, 1]) == SeenNum(v)
  {
    hide Decode;
    var p: seq<nat> := [0, 1];
    assert p[1..] == [1];
    assert See(E, 1, Decode(E, 1, body), [1]) == SeenNum(v);
  }
}
