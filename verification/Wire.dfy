/**
  The wire grammar ("Message Structure", "Length-Delimited Records" and "Groups" of the
  Protocol Buffers "Encoding" guide) and the skippers of unknown fields as recognisers of it.
*/
module Wire {
  import opened Varint

  const VARINT := 0
  const FIXED64 := 1
  const LENGTH_DELIMITED := 2
  const START_GROUP := 3
  const END_GROUP := 4
  const FIXED32 := 5

  const INT_MAX_SPAN: nat := 0x8000_0000

  /**
    What follows a tag. A length-delimited body is either opaque or shown as the records a
    message parser finds in it, followed by a `tail` that parser stops at without reading.
  */
  datatype Payload =
    | PVarint(raw: seq<byte>)
    | PFixed64(eight: seq<byte>)
    | PBytes(prefix: seq<byte>, body: seq<byte>)
    | PRecords(prefix: seq<byte>, inner: seq<Rec>, tail: seq<byte>)
    | PGroup(fields: seq<Rec>, endTag: seq<byte>)
    | PFixed32(four: seq<byte>)

  datatype Rec = Rec(tag: seq<byte>, payload: Payload)

  function EncPayload(p: Payload): seq<byte>
    decreases p
  {
    match p
    case PVarint(raw) => raw
    case PFixed64(eight) => eight
    case PBytes(prefix, body) => prefix + body
    case PRecords(prefix, inner, tail) => prefix + (EncRecs(inner) + tail)
    case PGroup(fields, endTag) => EncRecs(fields) + endTag
    case PFixed32(four) => four
  }

  function EncRec(r: Rec): seq<byte>
    decreases r
  {
    r.tag + EncPayload(r.payload)
  }

  function EncRecs(rs: seq<Rec>): seq<byte>
    decreases rs
  {
    if rs == [] then [] else EncRec(rs[0]) + EncRecs(rs[1..])
  }

  lemma {:induction false} EncRecsAppend(a: seq<Rec>, b: seq<Rec>)
    ensures EncRecs(a + b) == EncRecs(a) + EncRecs(b)
  {
    if a == [] {
      assert a + b == b;
    } else {
      assert (a + b)[1..] == a[1..] + b;
      EncRecsAppend(a[1..], b);
    }
  }

  /**
    The two families of skippers. `Inline` refuses tags and lengths that do not fit 32 bits;
    `Stream` (over `CodedInputStream`) truncates them, and cannot skip 2^31 bytes or more
    because `Skip` takes an `int`.
  */
  datatype Family = Inline | Stream

  /** The 32-bit tag or length a reader ends up with. */
  function Low32(raw: seq<byte>): (r: nat)
    ensures r < TWO32
  {
    RawValue(raw) % TWO32
  }

  predicate Fits32(raw: seq<byte>)
  {
    RawValue(raw) % TWO64 < TWO32
  }

  predicate TagOk(fam: Family, raw: seq<byte>)
  {
    IsVarint(raw, 10) && Low32(raw) != 0 && (fam.Inline? ==> Fits32(raw))
  }

  predicate LengthOk(fam: Family, raw: seq<byte>, n: nat)
  {
    && IsVarint(raw, 10) && Low32(raw) == n
    && (fam.Inline? ==> Fits32(raw))
    && (fam.Stream? ==> n < INT_MAX_SPAN)
  }

  /** `p` is one record payload for a record tagged `tag`. */
  predicate WfPayload(fam: Family, p: Payload, tag: nat)
    decreases p
  {
    match p
    case PVarint(raw) => tag % 8 == VARINT && IsVarint(raw, 10)
    case PFixed64(eight) => tag % 8 == FIXED64 && |eight| == 8
    case PBytes(prefix, body) => tag % 8 == LENGTH_DELIMITED && LengthOk(fam, prefix, |body|)
    case PRecords(prefix, inner, tail) =>
      tag % 8 == LENGTH_DELIMITED && LengthOk(fam, prefix, |EncRecs(inner) + tail|)
    case PGroup(fields, endTag) =>
      && tag % 8 == START_GROUP && WfRecs(fam, fields)
      && TagOk(fam, endTag) && Low32(endTag) % 8 == END_GROUP && Low32(endTag) / 8 == tag / 8
    case PFixed32(four) => tag % 8 == FIXED32 && |four| == 4
  }

  predicate WfRec(fam: Family, r: Rec)
    decreases r
  {
    TagOk(fam, r.tag) && WfPayload(fam, r.payload, Low32(r.tag))
  }

  predicate WfRecs(fam: Family, rs: seq<Rec>)
    decreases rs
  {
    rs == [] || (WfRec(fam, rs[0]) && WfRecs(fam, rs[1..]))
  }

  // ---- the skippers -----------------------------------------------------------------------

  function Advance(buf: seq<byte>, pos: nat, n: nat): Ptr
  {
    if pos + n <= |buf| then At(pos + n) else Overrun
  }

  /** Reading a tag or a length: `ReadVarint32Inline`, or the stream's `ReadTag`/`ReadVarint32`. */
  function Read32(fam: Family, buf: seq<byte>, pos: nat): (r: Ptr)
    ensures r.At? ==> pos < r.pos <= |buf| && ScanEnd(buf, pos, 10) == r
  {
    match ScanEnd(buf, pos, 10)
    case At(q) =>
      ScanRecognises(buf, pos, 10, q);
      if fam.Inline? && !Fits32(buf[pos..q]) then Null else At(q)
    case p => p
  }

  /** `SkipFieldInline` / `SkipField`. */
  function Skip(fam: Family, buf: seq<byte>, pos: nat, tag: nat): (r: Ptr)
    requires pos <= |buf|
    ensures r.At? ==> pos <= r.pos <= |buf|
    decreases |buf| - pos, 1
  {
    if tag % 8 == VARINT then
      var r := ScanEnd(buf, pos, 10);
      (if r.At? then ScanRecognises(buf, pos, 10, r.pos); r else r)
    else if tag % 8 == FIXED64 then Advance(buf, pos, 8)
    else if tag % 8 == LENGTH_DELIMITED then
      var q := Read32(fam, buf, pos);
      if !q.At? then q
      else if fam.Stream? && Low32(buf[pos..q.pos]) >= INT_MAX_SPAN then Null
      else Advance(buf, q.pos, Low32(buf[pos..q.pos]))
    else if tag % 8 == START_GROUP then SkipGroup(fam, buf, pos, tag / 8)
    else if tag % 8 == FIXED32 then Advance(buf, pos, 4)
    else Null
  }

  /** `SkipGroupInline` / `SkipGroup`, from the first tag inside the group. */
  function SkipGroup(fam: Family, buf: seq<byte>, pos: nat, number: nat): (r: Ptr)
    requires pos <= |buf|
    ensures r.At? ==> pos <= r.pos <= |buf|
    decreases |buf| - pos, 0
  {
    var q := Read32(fam, buf, pos);
    if !q.At? then q
    else
      var tag := Low32(buf[pos..q.pos]);
      if tag == 0 then Null
      else if tag % 8 == END_GROUP then (if tag / 8 == number then q else Null)
      else
        var r := Skip(fam, buf, q.pos, tag);
        if r.At? then SkipGroup(fam, buf, r.pos, number) else r
  }

  // ---- completeness: every record payload is skipped exactly --------------------------------

  lemma Read32Finds(fam: Family, buf: seq<byte>, pos: nat, raw: seq<byte>)
    requires IsVarint(raw, 10) && HasAt(buf, pos, raw)
    requires fam.Inline? ==> Fits32(raw)
    ensures Read32(fam, buf, pos) == At(pos + |raw|) && buf[pos..pos + |raw|] == raw
  {
    ScanFinds(buf, pos, raw, 10);
  }

  lemma LengthAccepts(fam: Family, buf: seq<byte>, pos: nat, prefix: seq<byte>, body: seq<byte>, tag: nat)
    requires tag % 8 == LENGTH_DELIMITED && LengthOk(fam, prefix, |body|)
    requires HasAt(buf, pos, prefix + body)
    ensures Skip(fam, buf, pos, tag) == At(pos + |prefix + body|)
  {
    HasAtSplit(buf, pos, prefix, body);
    Read32Finds(fam, buf, pos, prefix);
  }

  lemma {:induction false} SkipAccepts(fam: Family, buf: seq<byte>, pos: nat, p: Payload, tag: nat)
    requires WfPayload(fam, p, tag) && HasAt(buf, pos, EncPayload(p))
    ensures Skip(fam, buf, pos, tag) == At(pos + |EncPayload(p)|)
    decreases p, 0
  {
    hide RawValue, ScanEnd, SkipGroup, Read32, WfRecs;
    match p
    case PVarint(raw) => ScanFinds(buf, pos, raw, 10);
    case PBytes(prefix, body) => LengthAccepts(fam, buf, pos, prefix, body, tag);
    case PRecords(prefix, inner, tail) => LengthAccepts(fam, buf, pos, prefix, EncRecs(inner) + tail, tag);
    case PGroup(fields, endTag) => GroupAccepts(fam, buf, pos, fields, endTag, tag / 8);
    case _ =>
  }

  /** The records of a group lie one after the other: tag, payload, rest. */
  lemma GroupLayout(buf: seq<byte>, pos: nat, fields: seq<Rec>, endTag: seq<byte>) returns (q: nat, e: nat)
    requires fields != [] && HasAt(buf, pos, EncRecs(fields) + endTag)
    ensures q == pos + |fields[0].tag| && e == q + |EncPayload(fields[0].payload)|
    ensures HasAt(buf, pos, fields[0].tag) && HasAt(buf, q, EncPayload(fields[0].payload))
    ensures HasAt(buf, e, EncRecs(fields[1..]) + endTag)
    ensures |EncRecs(fields) + endTag| == e - pos + |EncRecs(fields[1..]) + endTag|
  {
    var t, p, rest := fields[0].tag, EncPayload(fields[0].payload), EncRecs(fields[1..]) + endTag;
    q := pos + |t|;
    e := q + |p|;
    assert EncRecs(fields) + endTag == t + (p + rest);
    HasAtSplit(buf, pos, t, p + rest);
    HasAtSplit(buf, q, p, rest);
  }

  /** One turn of the group loop. */
  lemma GroupStep(fam: Family, buf: seq<byte>, pos: nat, q: nat, r: Ptr, number: nat)
    requires pos <= |buf| && Read32(fam, buf, pos) == At(q)
    requires Low32(buf[pos..q]) != 0 && Low32(buf[pos..q]) % 8 != END_GROUP
    requires r == Skip(fam, buf, q, Low32(buf[pos..q]))
    ensures SkipGroup(fam, buf, pos, number) == if r.At? then SkipGroup(fam, buf, r.pos, number) else r
  {
  }

  lemma GroupEnd(fam: Family, buf: seq<byte>, pos: nat, endTag: seq<byte>, number: nat)
    requires HasAt(buf, pos, endTag)
    requires TagOk(fam, endTag) && Low32(endTag) % 8 == END_GROUP && Low32(endTag) / 8 == number
    ensures SkipGroup(fam, buf, pos, number) == At(pos + |endTag|)
  {
    hide RawValue, ScanEnd, Read32, Skip;
    Read32Finds(fam, buf, pos, endTag);
  }

  lemma {:induction false} GroupAccepts(fam: Family, buf: seq<byte>, pos: nat, fields: seq<Rec>, endTag: seq<byte>, number: nat)
    requires WfRecs(fam, fields) && HasAt(buf, pos, EncRecs(fields) + endTag)
    requires TagOk(fam, endTag) && Low32(endTag) % 8 == END_GROUP && Low32(endTag) / 8 == number
    ensures SkipGroup(fam, buf, pos, number) == At(pos + |EncRecs(fields) + endTag|)
    decreases fields, 1
  {
    hide EncPayload, IsVarint, ScanEnd, RawValue, Skip, SkipGroup, Read32;
    if fields == [] {
      assert EncRecs(fields) + endTag == endTag;
      GroupEnd(fam, buf, pos, endTag, number);
    } else {
      var r := fields[0];
      var q, e := GroupLayout(buf, pos, fields, endTag);
      Read32Finds(fam, buf, pos, r.tag);
      NotEndGroup(fam, r);
      SkipAccepts(fam, buf, q, r.payload, Low32(r.tag));
      GroupStep(fam, buf, pos, q, At(e), number);
      GroupAccepts(fam, buf, e, fields[1..], endTag, number);
    }
  }

  lemma NotEndGroup(fam: Family, r: Rec)
    requires WfRec(fam, r)
    ensures Low32(r.tag) % 8 != END_GROUP
  {
  }

  // ---- soundness: whatever is skipped is a record payload -------------------------------------

  lemma {:induction false} SkipSound(fam: Family, buf: seq<byte>, pos: nat, tag: nat) returns (p: Payload)
    requires pos <= |buf| && Skip(fam, buf, pos, tag).At?
    ensures WfPayload(fam, p, tag)
    ensures EncPayload(p) == buf[pos..Skip(fam, buf, pos, tag).pos]
    decreases |buf| - pos, 1
  {
    var end := Skip(fam, buf, pos, tag).pos;
    if tag % 8 == VARINT {
      ScanRecognises(buf, pos, 10, end);
      p := PVarint(buf[pos..end]);
    } else if tag % 8 == FIXED64 {
      p := PFixed64(buf[pos..end]);
    } else if tag % 8 == LENGTH_DELIMITED {
      var q := Read32(fam, buf, pos).pos;
      ScanRecognises(buf, pos, 10, q);
      p := PBytes(buf[pos..q], buf[q..end]);
      assert buf[pos..q] + buf[q..end] == buf[pos..end];
    } else if tag % 8 == START_GROUP {
      var fields, endTag := GroupSound(fam, buf, pos, tag / 8);
      p := PGroup(fields, endTag);
    } else {
      p := PFixed32(buf[pos..end]);
    }
  }

  lemma ConsRec(fam: Family, tag: seq<byte>, p: Payload, rest: seq<Rec>)
    ensures EncRecs([Rec(tag, p)] + rest) == (tag + EncPayload(p)) + EncRecs(rest)
    ensures WfRecs(fam, [Rec(tag, p)] + rest) <==> TagOk(fam, tag) && WfPayload(fam, p, Low32(tag)) && WfRecs(fam, rest)
  {
    assert ([Rec(tag, p)] + rest)[1..] == rest;
  }

  /** What a successful group skip read first: the tag, and the payload's end unless the group ended. */
  lemma GroupFirst(fam: Family, buf: seq<byte>, pos: nat, number: nat) returns (tag: seq<byte>, q: nat, e: nat)
    requires pos <= |buf| && SkipGroup(fam, buf, pos, number).At?
    ensures pos < q <= e <= |buf| && tag == buf[pos..q] && TagOk(fam, tag)
    ensures Low32(tag) % 8 == END_GROUP ==> Low32(tag) / 8 == number && SkipGroup(fam, buf, pos, number) == At(q)
    ensures Low32(tag) % 8 != END_GROUP ==>
              Skip(fam, buf, q, Low32(tag)) == At(e) && SkipGroup(fam, buf, pos, number) == SkipGroup(fam, buf, e, number)
  {
    q := Read32(fam, buf, pos).pos;
    tag := buf[pos..q];
    ScanRecognises(buf, pos, 10, q);
    e := if Low32(tag) % 8 == END_GROUP then q else Skip(fam, buf, q, Low32(tag)).pos;
  }

  lemma {:induction false} GroupSound(fam: Family, buf: seq<byte>, pos: nat, number: nat) returns (fields: seq<Rec>, endTag: seq<byte>)
    requires pos <= |buf| && SkipGroup(fam, buf, pos, number).At?
    ensures WfRecs(fam, fields)
    ensures TagOk(fam, endTag) && Low32(endTag) % 8 == END_GROUP && Low32(endTag) / 8 == number
    ensures EncRecs(fields) + endTag == buf[pos..SkipGroup(fam, buf, pos, number).pos]
    decreases |buf| - pos, 0
  {
    hide EncPayload, IsVarint, ScanEnd, RawValue, Skip, SkipGroup;
    var end := SkipGroup(fam, buf, pos, number).pos;
    var tag, q, e := GroupFirst(fam, buf, pos, number);
    if Low32(tag) % 8 == END_GROUP {
      fields, endTag := [], tag;
    } else {
      var payload := SkipSound(fam, buf, q, Low32(tag));
      var rest;
      rest, endTag := GroupSound(fam, buf, e, number);
      fields := [Rec(tag, payload)] + rest;
      ConsRec(fam, tag, payload, rest);
      JoinSlices(buf, pos, q, e, end, EncRecs(rest), endTag);
    }
  }

  lemma JoinSlices(buf: seq<byte>, a: nat, b: nat, c: nat, d: nat, rest: seq<byte>, last: seq<byte>)
    requires a <= b <= c <= d <= |buf| && rest + last == buf[c..d]
    ensures (buf[a..b] + buf[b..c]) + rest + last == buf[a..d]
  {
    assert buf[a..b] + buf[b..c] == buf[a..c];
    assert buf[a..c] + rest + last == buf[a..c] + buf[c..d];
  }

  /**
    Each skipper recognises exactly its grammar: it returns an in-buffer pointer `end` if and
    only if the bytes up to `end` are one payload for the tag.
  */
  lemma SkipRecognises(fam: Family, buf: seq<byte>, pos: nat, tag: nat, end: nat)
    requires pos <= |buf|
    ensures Skip(fam, buf, pos, tag) == At(end) <==>
            pos <= end <= |buf| && exists p :: WfPayload(fam, p, tag) && EncPayload(p) == buf[pos..end]
  {
    if Skip(fam, buf, pos, tag) == At(end) {
      var p := SkipSound(fam, buf, pos, tag);
    }
    if pos <= end <= |buf| {
      forall p | WfPayload(fam, p, tag) && EncPayload(p) == buf[pos..end]
        ensures Skip(fam, buf, pos, tag) == At(end)
      {
        SkipAccepts(fam, buf, pos, p, tag);
      }
    }
  }

  // ---- inline against stream ------------------------------------------------------------------

  /** Every tag and length inside the payload fits 32 bits. */
  predicate Strict(p: Payload)
    decreases p
  {
    match p
    case PBytes(prefix, _) => Fits32(prefix)
    case PRecords(prefix, _, _) => Fits32(prefix)
    case PGroup(fields, endTag) => StrictRecs(fields) && Fits32(endTag)
    case _ => true
  }

  predicate StrictRecs(rs: seq<Rec>)
    decreases rs
  {
    rs == [] || (Fits32(rs[0].tag) && Strict(rs[0].payload) && StrictRecs(rs[1..]))
  }

  /**
    On everything the stream skipper accepts, the inline one stops at the same place when no
    tag or length was truncated, and refuses otherwise.
  */
  lemma {:induction false} InlineAgainstStream(buf: seq<byte>, pos: nat, p: Payload, tag: nat)
    requires WfPayload(Stream, p, tag) && HasAt(buf, pos, EncPayload(p))
    ensures Skip(Stream, buf, pos, tag) == At(pos + |EncPayload(p)|)
    ensures Skip(Inline, buf, pos, tag) == if Strict(p) then At(pos + |EncPayload(p)|) else Null
    decreases p, 0
  {
    hide IsVarint, RawValue, SkipGroup, ScanEnd, Skip;
    SkipAccepts(Stream, buf, pos, p, tag);
    match p
    case PBytes(prefix, body) => LengthAgainstStream(buf, pos, prefix, body, tag);
    case PRecords(prefix, inner, tail) => LengthAgainstStream(buf, pos, prefix, EncRecs(inner) + tail, tag);
    case PGroup(fields, endTag) =>
      GroupAgainstStream(buf, pos, fields, endTag, tag / 8);
      GroupDispatch(Inline, buf, pos, tag);
    case _ => SkipAccepts(Inline, buf, pos, p, tag);
  }

  lemma GroupDispatch(fam: Family, buf: seq<byte>, pos: nat, tag: nat)
    requires pos <= |buf| && tag % 8 == START_GROUP
    ensures Skip(fam, buf, pos, tag) == SkipGroup(fam, buf, pos, tag / 8)
  {
  }

  lemma LengthAgainstStream(buf: seq<byte>, pos: nat, prefix: seq<byte>, body: seq<byte>, tag: nat)
    requires tag % 8 == LENGTH_DELIMITED && LengthOk(Stream, prefix, |body|)
    requires HasAt(buf, pos, prefix + body)
    ensures Skip(Inline, buf, pos, tag) == if Fits32(prefix) then At(pos + |prefix + body|) else Null
  {
    HasAtSplit(buf, pos, prefix, body);
    ScanFinds(buf, pos, prefix, 10);
  }

  lemma GroupTagRefused(buf: seq<byte>, pos: nat, q: nat, number: nat)
    requires pos <= q <= |buf| && ScanEnd(buf, pos, 10) == At(q) && !Fits32(buf[pos..q])
    ensures SkipGroup(Inline, buf, pos, number) == Null
  {
  }

  lemma {:induction false} GroupAgainstStream(buf: seq<byte>, pos: nat, fields: seq<Rec>, endTag: seq<byte>, number: nat)
    requires WfRecs(Stream, fields) && HasAt(buf, pos, EncRecs(fields) + endTag)
    requires TagOk(Stream, endTag) && Low32(endTag) % 8 == END_GROUP && Low32(endTag) / 8 == number
    ensures SkipGroup(Inline, buf, pos, number) ==
            if StrictRecs(fields) && Fits32(endTag) then At(pos + |EncRecs(fields) + endTag|) else Null
    decreases fields, 1
  {
    hide EncPayload, IsVarint, ScanEnd, RawValue, Skip, SkipGroup, Strict, Read32;
    if fields == [] {
      assert EncRecs(fields) + endTag == endTag;
      GroupInlineEnd(buf, pos, endTag, number);
    } else {
      var r := fields[0];
      var q, e := GroupLayout(buf, pos, fields, endTag);
      ScanFinds(buf, pos, r.tag, 10);
      InlineAgainstStream(buf, q, r.payload, Low32(r.tag));
      GroupAgainstStream(buf, e, fields[1..], endTag, number);
      GroupInlineStep(buf, pos, q, e, r, number);
      assert StrictRecs(fields) <==> Fits32(r.tag) && Strict(r.payload) && StrictRecs(fields[1..]);
    }
  }

  lemma GroupInlineEnd(buf: seq<byte>, pos: nat, endTag: seq<byte>, number: nat)
    requires HasAt(buf, pos, endTag)
    requires TagOk(Stream, endTag) && Low32(endTag) % 8 == END_GROUP && Low32(endTag) / 8 == number
    ensures SkipGroup(Inline, buf, pos, number) == if Fits32(endTag) then At(pos + |endTag|) else Null
  {
    hide RawValue, ScanEnd, Skip;
    ScanFinds(buf, pos, endTag, 10);
  }

  lemma GroupInlineStep(buf: seq<byte>, pos: nat, q: nat, e: nat, r: Rec, number: nat)
    requires WfRec(Stream, r) && ScanEnd(buf, pos, 10) == At(q) && q == pos + |r.tag| && HasAt(buf, pos, r.tag)
    requires e <= |buf|
    requires Skip(Inline, buf, q, Low32(r.tag)) == if Strict(r.payload) then At(e) else Null
    ensures SkipGroup(Inline, buf, pos, number) ==
            if Fits32(r.tag) && Strict(r.payload) then SkipGroup(Inline, buf, e, number) else Null
  {
    hide RawValue, ScanEnd, WfPayload, Skip, Strict;
    NotEndGroup(Stream, r);
    if Fits32(r.tag) {
      GroupStep(Inline, buf, pos, q, if Strict(r.payload) then At(e) else Null, number);
    } else {
      GroupTagRefused(buf, pos, q, number);
    }
  }

  lemma {:induction false} InlineIsStreamPayload(p: Payload, tag: nat)
    requires WfPayload(Inline, p, tag) && |EncPayload(p)| < INT_MAX_SPAN
    ensures WfPayload(Stream, p, tag)
    decreases p, 0
  {
    if p.PGroup? {
      InlineIsStreamRecs(p.fields);
    }
  }

  lemma {:induction false} InlineIsStreamRecs(rs: seq<Rec>)
    requires WfRecs(Inline, rs) && |EncRecs(rs)| < INT_MAX_SPAN
    ensures WfRecs(Stream, rs)
    decreases rs, 1
  {
    if rs != [] {
      InlineIsStreamPayload(rs[0].payload, Low32(rs[0].tag));
      InlineIsStreamRecs(rs[1..]);
    }
  }

  /** In any buffer below 2^31 bytes, what the inline skipper accepts the stream skipper accepts, at the same end. */
  lemma StreamFollowsInline(buf: seq<byte>, pos: nat, tag: nat)
    requires pos <= |buf| < INT_MAX_SPAN
    requires Skip(Inline, buf, pos, tag).At?
    ensures Skip(Stream, buf, pos, tag) == Skip(Inline, buf, pos, tag)
  {
    var p := SkipSound(Inline, buf, pos, tag);
    InlineIsStreamPayload(p, tag);
    SkipAccepts(Stream, buf, pos, p, tag);
  }

  /** The converse fails: a five-byte length of 2^32 reads as 0 on a stream and is refused inline. */
  lemma StreamAcceptsMore()
    ensures var buf := [0x80, 0x80, 0x80, 0x80, 0x10];
            Skip(Stream, buf, 0, 2) == At(5) && Skip(Inline, buf, 0, 2) == Null
  {
    var buf: seq<byte> := [0x80, 0x80, 0x80, 0x80, 0x10];
    assert IsVarint(buf, 10);
    assert buf[0..5] == buf;
    ScanFinds(buf, 0, buf, 10);
    assert RawValue(buf) == TWO32 by {
      assert buf[1..] == [0x80, 0x80, 0x80, 0x10] && buf[1..][1..] == [0x80, 0x80, 0x10];
      assert buf[1..][1..][1..] == [0x80, 0x10] && buf[1..][1..][1..][1..] == [0x10];
      assert RawValue([0x10]) == 16 by { assert [0x10 as byte][1..] == []; }
      assert RawValue([0x80, 0x10]) == 2048;
      assert RawValue([0x80, 0x80, 0x10]) == 2048 * 128;
      assert RawValue([0x80, 0x80, 0x80, 0x10]) == 2048 * 128 * 128;
    }
  }
}
