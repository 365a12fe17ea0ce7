/**
 * The HPACK encoder and decoder (section 6 of RFC 7541), over any static table both ends share.
 * The encoder's table and the decoder's table must stay identical over a whole connection.
 */
module Hpack {
  import opened Basics
  import opened Utf8
  import opened HpackTable
  import opened HpackInt

  // ----- the index address space

  /** `table_get`: 1-based, static entries first, then dynamic ones newest first. */
  function TableGet(st: seq<Header>, t: Table, index: nat): Result<Header, DecodeError> {
    if index == 0 then Err(HpackError)
    else if index <= |st| then Ok(st[index - 1])
    else if index - |st| - 1 < |t.entries| then Ok(t.entries[index - |st| - 1])
    else Err(HpackError)
  }

  datatype Match = NoMatch | NameMatch(index: nat) | FullMatch(index: nat)

  /** A full match at the lowest index, else a name match at the lowest index, else nothing. */
  ghost predicate IsBestMatch(space: seq<Header>, h: Header, m: Match) {
    match m
    case FullMatch(i) =>
      1 <= i <= |space| && space[i - 1] == h && forall j :: 0 <= j < i - 1 ==> space[j] != h
    case NameMatch(i) =>
      && 1 <= i <= |space| && space[i - 1].name == h.name
      && (forall j :: 0 <= j < i - 1 ==> space[j].name != h.name)
      && (forall j :: 0 <= j < |space| ==> space[j] != h)
    case NoMatch =>
      forall j :: 0 <= j < |space| ==> space[j].name != h.name
  }

  /** How one more entry changes the best match found so far. */
  function Extend(m: Match, position: nat, x: Header, h: Header): Match {
    if m.FullMatch? then m
    else if x == h then FullMatch(position)
    else if m.NoMatch? && x.name == h.name then NameMatch(position)
    else m
  }

  lemma ExtendBest(front: seq<Header>, x: Header, h: Header, m: Match)
    requires IsBestMatch(front, h, m)
    ensures IsBestMatch(front + [x], h, Extend(m, |front| + 1, x, h))
  {
    var space := front + [x];
    assert forall j :: 0 <= j < |front| ==> space[j] == front[j];
  }

  /** Entries after a full match do not matter. */
  lemma FullMatchStays(front: seq<Header>, rest: seq<Header>, h: Header, m: Match)
    requires m.FullMatch? && IsBestMatch(front, h, m)
    ensures IsBestMatch(front + rest, h, m)
  {
    assert forall j :: 0 <= j < |front| ==> (front + rest)[j] == front[j];
  }

  lemma {:induction false} BestMatchExists(space: seq<Header>, h: Header)
    ensures exists m :: IsBestMatch(space, h, m)
  {
    if space == [] {
      assert IsBestMatch(space, h, NoMatch);
    } else {
      var front, last := space[..|space| - 1], space[|space| - 1];
      BestMatchExists(front, h);
      var m :| IsBestMatch(front, h, m);
      ExtendBest(front, last, h, m);
      assert space == front + [last];
    }
  }

  lemma BestMatchUnique(space: seq<Header>, h: Header, m: Match, n: Match)
    requires IsBestMatch(space, h, m) && IsBestMatch(space, h, n)
    ensures m == n
  {
  }

  ghost function BestMatch(space: seq<Header>, h: Header): (m: Match)
    ensures IsBestMatch(space, h, m)
  {
    BestMatchExists(space, h);
    var m :| IsBestMatch(space, h, m);
    m
  }

  /** Scans `entries`, which follow `before` in the address space, stopping at a full match. */
  method Scan(ghost before: seq<Header>, offset: nat, entries: seq<Header>, h: Header, first: Match) returns (m: Match)
    requires offset == |before| && IsBestMatch(before, h, first) && !first.FullMatch?
    ensures IsBestMatch(before + entries, h, m)
  {
    m := first;
    assert before + entries[..0] == before;
    for i := 0 to |entries|
      invariant !m.FullMatch? && IsBestMatch(before + entries[..i], h, m)
    {
      ExtendBest(before + entries[..i], entries[i], h, m);
      assert before + entries[..i] + [entries[i]] == before + entries[..i + 1];
      if entries[i].name == h.name {
        if entries[i].value == h.value {
          m := FullMatch(offset + i + 1);
          FullMatchStays(before + entries[..i + 1], entries[i + 1..], h, m);
          assert before + entries[..i + 1] + entries[i + 1..] == before + entries;
          return;
        }
        if m == NoMatch {
          m := NameMatch(offset + i + 1);
        }
      }
    }
    assert entries[..|entries|] == entries;
  }

  /** `find_in_tables`: the static entries, then the dynamic ones. */
  method FindInTables(st: seq<Header>, entries: seq<Header>, h: Header) returns (m: Match)
    ensures m == BestMatch(st + entries, h)
  {
    m := Scan([], 0, st, h, NoMatch);
    assert [] + st == st;
    if !m.FullMatch? {
      m := Scan(st, |st|, entries, h, m);
    } else {
      FullMatchStays(st, entries, h, m);
    }
    BestMatchUnique(st + entries, h, m, BestMatch(st + entries, h));
  }

  // ----- encoding

  ghost predicate ValidHeader(h: Header) {
    ValidUtf8(h.name) && ValidUtf8(h.value)
  }

  /** The octets of one header and the encoder table afterwards. */
  ghost function EncodeHeader(st: seq<Header>, t: Table, h: Header): (bytes, Table) {
    match BestMatch(st + t.entries, h)
    case FullMatch(i) => (EncodeInt(i, 7, 128), t)
    case NameMatch(i) => (EncodeInt(i, 6, 64) + EncodeString(h.value), Inserted(t, h))
    case NoMatch => ([64] + EncodeString(h.name) + EncodeString(h.value), Inserted(t, h))
  }

  ghost function EncodeBlock(st: seq<Header>, t: Table, headers: seq<Header>): (bytes, Table)
    decreases |headers|
  {
    if headers == [] then ([], t)
    else
      var (wire, t') := EncodeHeader(st, t, headers[0]);
      var (rest, t'') := EncodeBlock(st, t', headers[1..]);
      (wire + rest, t'')
  }

  // ----- decoding

  /** A literal: an index or a name, then a value. */
  function DecodeLiteral(st: seq<Header>, t: Table, buf: bytes, bits: nat): (r: Result<(Header, nat), DecodeError>)
    requires 4 <= bits <= 7
    ensures r.Ok? ==> 1 <= r.value.1 <= |buf|
  {
    match DecodeInt(buf, bits)
    case Err(e) => Err(e)
    case Ok((index, used)) =>
      if index == 0 then DecodeNewName(buf, used)
      else
        match TableGet(st, t, index)
        case Err(e) => Err(e)
        case Ok(known) =>
          match DecodeString(buf[used..])
          case Err(e) => Err(e)
          case Ok((value, n)) => Ok((Header(known.name, value), used + n))
  }

  function DecodeNewName(buf: bytes, used: nat): (r: Result<(Header, nat), DecodeError>)
    requires used <= |buf|
    ensures r.Ok? ==> used < r.value.1 <= |buf|
  {
    match DecodeString(buf[used..])
    case Err(e) => Err(e)
    case Ok((name, n)) =>
      match DecodeString(buf[used + n..])
      case Err(e) => Err(e)
      case Ok((value, m)) => Ok((Header(name, value), used + n + m))
  }

  /** What one representation yields: a header unless it is a size update, and the table after it. */
  datatype Field = Field(header: Option<Header>, used: nat, table: Table)

  function DecodeField(st: seq<Header>, t: Table, buf: bytes): (r: Result<Field, DecodeError>)
    requires buf != []
    ensures r.Ok? ==> 1 <= r.value.used <= |buf|
  {
    if buf[0] >= 0x80 then
      match DecodeInt(buf, 7)
      case Err(e) => Err(e)
      case Ok((index, used)) =>
        match TableGet(st, t, index)
        case Err(e) => Err(e)
        case Ok(h) => Ok(Field(Some(h), used, t))
    else if buf[0] >= 0x40 then
      match DecodeLiteral(st, t, buf, 6)
      case Err(e) => Err(e)
      case Ok((h, used)) => Ok(Field(Some(h), used, Inserted(t, h)))
    else if buf[0] < 0x20 then
      match DecodeLiteral(st, t, buf, 4)
      case Err(e) => Err(e)
      case Ok((h, used)) => Ok(Field(Some(h), used, t))
    else
      match DecodeInt(buf, 5)
      case Err(e) => Err(e)
      case Ok((newMax, used)) => Ok(Field(None, used, Resized(t, newMax)))
  }

  /** A decoded list or an error, and the table left; the table survives an error. */
  type Outcome = (Result<seq<Header>, DecodeError>, Table)

  /** The rest of a block, with the headers decoded so far. */
  function DecodeFrom(st: seq<Header>, t: Table, buf: bytes, acc: seq<Header>): Outcome
    decreases |buf|
  {
    if buf == [] then (Ok(acc), t)
    else
      match DecodeField(st, t, buf)
      case Err(e) => (Err(e), t)
      case Ok(f) =>
        DecodeFrom(st, f.table, buf[f.used..], if f.header.Some? then acc + [f.header.value] else acc)
  }

  function DecodeBlock(st: seq<Header>, t: Table, buf: bytes): Outcome {
    DecodeFrom(st, t, buf, [])
  }

  /** No input makes the decoder's table exceed the limit in force, even input that ends in an error. */
  lemma {:induction false} DecodeBounded(st: seq<Header>, t: Table, buf: bytes, acc: seq<Header>)
    requires Bounded(t)
    ensures Bounded(DecodeFrom(st, t, buf, acc).1)
    decreases |buf|
  {
    if buf != [] && DecodeField(st, t, buf).Ok? {
      var f := DecodeField(st, t, buf).value;
      FieldBounded(st, t, buf);
      DecodeBounded(st, f.table, buf[f.used..], if f.header.Some? then acc + [f.header.value] else acc);
    }
  }

  lemma FieldBounded(st: seq<Header>, t: Table, buf: bytes)
    requires buf != [] && Bounded(t) && DecodeField(st, t, buf).Ok?
    ensures Bounded(DecodeField(st, t, buf).value.table)
  {
    var f := DecodeField(st, t, buf).value;
    if f.table != t {
      if f.header.Some? {
        ApplyBounded(t, Insert(f.header.value));
      } else {
        ApplyBounded(t, SetMax(f.table.maxSize));
      }
    }
  }

  // ----- which limit the decoder's table respects

  /** The insertions and size updates the decoder performs on the way. */
  function TableOps(st: seq<Header>, t: Table, buf: bytes): seq<TableOp>
    decreases |buf|
  {
    if buf == [] || DecodeField(st, t, buf).Err? then []
    else
      var f := DecodeField(st, t, buf).value;
      FieldOps(buf, f) + TableOps(st, f.table, buf[f.used..])
  }

  /** A literal with incremental indexing inserts; a size update sets the limit; the rest change nothing. */
  function FieldOps(buf: bytes, f: Field): seq<TableOp>
    requires buf != []
  {
    if f.header.None? then [SetMax(f.table.maxSize)]
    else if 0x40 <= buf[0] < 0x80 then [Insert(f.header.value)]
    else []
  }

  lemma FieldReplays(st: seq<Header>, t: Table, buf: bytes)
    requires buf != [] && DecodeField(st, t, buf).Ok?
    ensures Replay(t, FieldOps(buf, DecodeField(st, t, buf).value)) == DecodeField(st, t, buf).value.table
  {
    var f := DecodeField(st, t, buf).value;
    var ops := FieldOps(buf, f);
    if ops != [] {
      assert ops[..0] == [];
      assert Replay(t, ops) == Apply(t, ops[0]);
    }
  }

  lemma {:induction false} DecodeReplays(st: seq<Header>, t: Table, buf: bytes, acc: seq<Header>)
    ensures DecodeFrom(st, t, buf, acc).1 == Replay(t, TableOps(st, t, buf))
    decreases |buf|
  {
    if buf != [] && DecodeField(st, t, buf).Ok? {
      var f := DecodeField(st, t, buf).value;
      FieldReplays(st, t, buf);
      ReplayConcat(t, FieldOps(buf, f), TableOps(st, f.table, buf[f.used..]));
      DecodeReplays(st, f.table, buf[f.used..], if f.header.Some? then acc + [f.header.value] else acc);
    }
  }

  /**
   * Size updates in the input are applied whatever they say.  Exactly when a block leaves the table
   * within a given limit all the same: every entry that fitted all along fits that limit too.
   */
  lemma DecodeWithinIff(st: seq<Header>, t: Table, buf: bytes, limit: nat)
    ensures SizeOf(DecodeBlock(st, t, buf).1.entries) <= limit <==> FittedWithin(t, TableOps(st, t, buf), limit)
  {
    DecodeReplays(st, t, buf, []);
    ReplayWithinIff(t, TableOps(st, t, buf), limit);
  }

  /** In particular a block without a size update above the limit keeps to it. */
  lemma NoRaiseStaysWithin(st: seq<Header>, t: Table, buf: bytes, limit: nat)
    requires Bounded(t) && t.maxSize <= limit
    requires forall i :: 0 <= i < |TableOps(st, t, buf)| && TableOps(st, t, buf)[i].SetMax? ==>
               TableOps(st, t, buf)[i].newMax <= limit
    ensures SizeOf(DecodeBlock(st, t, buf).1.entries) <= limit
  {
    var ops := TableOps(st, t, buf);
    DecodeReplays(st, t, buf, []);
    ReplayBounded(t, ops);
    LimitAfterWithin(t.maxSize, ops, limit);
  }

  lemma {:induction false} LimitAfterWithin(max: nat, ops: seq<TableOp>, limit: nat)
    requires max <= limit && forall i :: 0 <= i < |ops| && ops[i].SetMax? ==> ops[i].newMax <= limit
    ensures LimitAfter(max, ops) <= limit
  {
    if ops != [] {
      LimitAfterWithin(max, ops[..|ops| - 1], limit);
    }
  }

  // ----- lockstep

  /** Every integer the encoder emits for `h` is one the decoder can read. */
  ghost predicate HeaderFits(st: seq<Header>, t: Table, h: Header) {
    match BestMatch(st + t.entries, h)
    case FullMatch(i) => IntFits(i, 7)
    case NameMatch(i) => IntFits(i, 6) && IntFits(|h.value|, 7)
    case NoMatch => IntFits(|h.name|, 7) && IntFits(|h.value|, 7)
  }

  ghost predicate BlockFits(st: seq<Header>, t: Table, headers: seq<Header>)
    decreases |headers|
  {
    headers == [] ||
    (HeaderFits(st, t, headers[0]) && BlockFits(st, EncodeHeader(st, t, headers[0]).1, headers[1..]))
  }

  /** Exactly the indices from 1 to the size of the address space resolve. */
  lemma IndexResolves(st: seq<Header>, t: Table, i: nat)
    ensures TableGet(st, t, i)
         == if 1 <= i <= |st + t.entries| then Ok((st + t.entries)[i - 1]) else Err(HpackError)
  {
  }

  lemma FullMatchRoundTrip(st: seq<Header>, t: Table, h: Header, i: nat, rest: bytes)
    requires IsBestMatch(st + t.entries, h, FullMatch(i))
    ensures DecodeField(st, t, EncodeInt(i, 7, 128) + rest)
         == if IntFits(i, 7) then Ok(Field(Some(h), |EncodeInt(i, 7, 128)|, t)) else Err(HpackError)
  {
    IndexResolves(st, t, i);
    IntRoundTrip(i, 7, 128, rest);
  }

  /** What a literal that names entry `i` and carries `v` decodes to. */
  ghost function NamedLiteral(st: seq<Header>, t: Table, i: nat, v: bytes, bits: nat, used: nat)
    : Result<(Header, nat), DecodeError>
    requires 4 <= bits <= 7
  {
    if IntFits(i, bits) && 1 <= i <= |st + t.entries| && IntFits(|v|, 7) && ValidUtf8(v)
    then Ok((Header((st + t.entries)[i - 1].name, v), used))
    else Err(HpackError)
  }

  /** A literal from its parts: what its index and its value decode to decides it. */
  lemma LiteralFromParts(
    st: seq<Header>, t: Table, i: nat, v: bytes, bits: nat, head: bytes, tail: bytes, rest: bytes)
    requires 4 <= bits <= 7 && 1 <= i
    requires DecodeInt(head + (tail + rest), bits) == if IntFits(i, bits) then Ok((i, |head|)) else Err(HpackError)
    requires DecodeString(tail + rest) == if IntFits(|v|, 7) && ValidUtf8(v) then Ok((v, |tail|)) else Err(HpackError)
    ensures DecodeLiteral(st, t, head + tail + rest, bits) == NamedLiteral(st, t, i, v, bits, |head + tail|)
  {
    Associative(head, tail, rest);
    Seam(head, tail + rest);
    IndexResolves(st, t, i);
  }

  /** A literal may name any entry, of any width of prefix. */
  lemma NamedLiteralDecodes(st: seq<Header>, t: Table, i: nat, v: bytes, bits: nat, mask: nat, rest: bytes)
    requires 4 <= bits <= 7 && MaskFits(mask, bits) && 1 <= i
    ensures
      var wire := EncodeInt(i, bits, mask) + EncodeString(v);
      DecodeLiteral(st, t, wire + rest, bits) == NamedLiteral(st, t, i, v, bits, |wire|)
  {
    var head, tail := EncodeInt(i, bits, mask), EncodeString(v);
    IntRoundTrip(i, bits, mask, tail + rest);
    StringRoundTrip(v, rest);
    LiteralFromParts(st, t, i, v, bits, head, tail, rest);
  }

  lemma NewNameRoundTrip(h: Header, lead: bytes, rest: bytes)
    requires ValidHeader(h)
    ensures
      var wire := lead + EncodeString(h.name) + EncodeString(h.value);
      DecodeNewName(wire + rest, |lead|) == if OrdinaryHeader(h) then Ok((h, |wire|)) else Err(HpackError)
  {
    var n, v := EncodeString(h.name), EncodeString(h.value);
    Associative(lead + n, v, rest);
    Associative(lead, n, v + rest);
    Seam(lead, n + (v + rest));
    Middle(lead, n, v + rest);
    StringRoundTrip(h.name, v + rest);
    StringRoundTrip(h.value, rest);
  }

  /** Prefix bits of zero announce a new name. */
  lemma NewNameLiteral(st: seq<Header>, t: Table, buf: bytes, bits: nat)
    requires 4 <= bits <= 7 && buf != [] && LowBits(buf[0], bits) == 0
    ensures DecodeLiteral(st, t, buf, bits) == DecodeNewName(buf, 1)
  {
    assert DecodeInt(buf, bits) == Ok((0, 1));
  }

  lemma FirstOctet(value: nat, bits: nat, mask: nat, rest: bytes)
    requires 4 <= bits <= 7 && MaskFits(mask, bits)
    ensures mask <= (EncodeInt(value, bits, mask) + rest)[0] <= mask + MaxPrefix(bits)
  {
  }

  /** A literal with incremental indexing is inserted. */
  lemma LiteralField(st: seq<Header>, t: Table, buf: bytes, r: Result<(Header, nat), DecodeError>)
    requires buf != [] && 64 <= buf[0] < 128 && DecodeLiteral(st, t, buf, 6) == r
    ensures r.Ok? ==> DecodeField(st, t, buf) == Ok(Field(Some(r.value.0), r.value.1, Inserted(t, r.value.0)))
    ensures r.Err? ==> DecodeField(st, t, buf) == Err(r.error)
  {
  }

  lemma NameMatchField(st: seq<Header>, t: Table, h: Header, i: nat, rest: bytes)
    requires IsBestMatch(st + t.entries, h, NameMatch(i)) && ValidHeader(h)
    ensures
      var wire := EncodeInt(i, 6, 64) + EncodeString(h.value);
      DecodeField(st, t, wire + rest)
        == if IntFits(i, 6) && IntFits(|h.value|, 7) then Ok(Field(Some(h), |wire|, Inserted(t, h)))
           else Err(HpackError)
  {
    var head, tail := EncodeInt(i, 6, 64), EncodeString(h.value);
    NamedLiteralDecodes(st, t, i, h.value, 6, 64, rest);
    Associative(head, tail, rest);
    FirstOctet(i, 6, 64, tail + rest);
    LiteralField(st, t, head + tail + rest, DecodeLiteral(st, t, head + tail + rest, 6));
  }

  lemma NewNameField(st: seq<Header>, t: Table, h: Header, rest: bytes)
    requires ValidHeader(h)
    ensures
      var wire := [64] + EncodeString(h.name) + EncodeString(h.value);
      DecodeField(st, t, wire + rest)
        == if IntFits(|h.name|, 7) && IntFits(|h.value|, 7) then Ok(Field(Some(h), |wire|, Inserted(t, h)))
           else Err(HpackError)
  {
    var buf := [64] + EncodeString(h.name) + EncodeString(h.value) + rest;
    NewNameRoundTrip(h, [64], rest);
    NewNameLiteral(st, t, buf, 6);
    LiteralField(st, t, buf, DecodeNewName(buf, 1));
  }

  // ----- forms the encoder does not use

  /** A literal without indexing, or never indexed: the header, and the table left alone. */
  ghost function Unindexed(t: Table, r: Result<(Header, nat), DecodeError>): Result<Field, DecodeError> {
    match r
    case Ok((h, used)) => Ok(Field(Some(h), used, t))
    case Err(e) => Err(e)
  }

  lemma UnindexedField(st: seq<Header>, t: Table, buf: bytes, r: Result<(Header, nat), DecodeError>)
    requires buf != [] && buf[0] < 32 && DecodeLiteral(st, t, buf, 4) == r
    ensures DecodeField(st, t, buf) == Unindexed(t, r)
  {
  }

  /** With a new name: every text header whose lengths fit comes back, and the table is unchanged. */
  lemma UnindexedNewName(st: seq<Header>, t: Table, h: Header, lead: byte, rest: bytes)
    requires ValidHeader(h) && (lead == 0 || lead == 16)
    ensures
      var wire := [lead] + EncodeString(h.name) + EncodeString(h.value);
      DecodeField(st, t, wire + rest)
        == if OrdinaryHeader(h) then Ok(Field(Some(h), |wire|, t)) else Err(HpackError)
  {
    var buf := [lead] + EncodeString(h.name) + EncodeString(h.value) + rest;
    NewNameRoundTrip(h, [lead], rest);
    NewNameLiteral(st, t, buf, 4);
    UnindexedField(st, t, buf, DecodeNewName(buf, 1));
  }

  /** With an indexed name: the name of that entry with the value given, and the table is unchanged. */
  lemma UnindexedKnownName(st: seq<Header>, t: Table, i: nat, v: bytes, lead: byte, rest: bytes)
    requires 1 <= i && (lead == 0 || lead == 16)
    ensures
      var wire := EncodeInt(i, 4, lead) + EncodeString(v);
      DecodeField(st, t, wire + rest) == Unindexed(t, NamedLiteral(st, t, i, v, 4, |wire|))
  {
    var head, tail := EncodeInt(i, 4, lead), EncodeString(v);
    NamedLiteralDecodes(st, t, i, v, 4, lead, rest);
    Associative(head, tail, rest);
    FirstOctet(i, 4, lead, tail + rest);
    UnindexedField(st, t, head + tail + rest, DecodeLiteral(st, t, head + tail + rest, 4));
  }

  /** A literal with indexing may name any entry, not only the one the encoder would; it is inserted. */
  lemma IndexedKnownName(st: seq<Header>, t: Table, i: nat, v: bytes, rest: bytes)
    requires 1 <= i
    ensures
      var wire := EncodeInt(i, 6, 64) + EncodeString(v);
      var r := NamedLiteral(st, t, i, v, 6, |wire|);
      DecodeField(st, t, wire + rest)
        == if r.Ok? then Ok(Field(Some(r.value.0), |wire|, Inserted(t, r.value.0))) else Err(HpackError)
  {
    var head, tail := EncodeInt(i, 6, 64), EncodeString(v);
    NamedLiteralDecodes(st, t, i, v, 6, 64, rest);
    Associative(head, tail, rest);
    FirstOctet(i, 6, 64, tail + rest);
    LiteralField(st, t, head + tail + rest, DecodeLiteral(st, t, head + tail + rest, 6));
  }

  /** An indexed field is the entry with that index, for every index; zero and those beyond are errors. */
  lemma EveryIndexDecodes(st: seq<Header>, t: Table, i: nat, rest: bytes)
    ensures DecodeField(st, t, EncodeInt(i, 7, 128) + rest)
         == if IntFits(i, 7) && 1 <= i <= |st + t.entries|
            then Ok(Field(Some((st + t.entries)[i - 1]), |EncodeInt(i, 7, 128)|, t))
            else Err(HpackError)
  {
    IndexResolves(st, t, i);
    IntRoundTrip(i, 7, 128, rest);
    FirstOctet(i, 7, 128, rest);
  }

  /** What the encoder uses: an index for a known header, the index of a known name, else both strings. */
  lemma EncoderChooses(st: seq<Header>, t: Table, h: Header)
    ensures var (wire, after) := EncodeHeader(st, t, h);
      && wire != []
      && (wire[0] >= 128 <==> h in st + t.entries)
      && (wire[0] == 64 <==> forall j :: 0 <= j < |st + t.entries| ==> (st + t.entries)[j].name != h.name)
      && (wire[0] >= 128 ==> after == t) && (wire[0] < 128 ==> after == Inserted(t, h))
  {
    var space := st + t.entries;
    match BestMatch(space, h) {
      case FullMatch(i) =>
        FirstOctet(i, 7, 128, []);
        assert EncodeInt(i, 7, 128) + [] == EncodeInt(i, 7, 128);
      case NameMatch(i) =>
        FirstOctet(i, 6, 64, EncodeString(h.value));
        assert space[i - 1].name == h.name;
      case NoMatch =>
    }
  }

  /** One encoded header decodes to itself and the same table if and only if it fits. */
  lemma HeaderRoundTrip(st: seq<Header>, t: Table, h: Header, rest: bytes)
    requires ValidHeader(h)
    ensures EncodeHeader(st, t, h).0 != []
    ensures
      var (wire, t') := EncodeHeader(st, t, h);
      DecodeField(st, t, wire + rest)
        == if HeaderFits(st, t, h) then Ok(Field(Some(h), |wire|, t')) else Err(HpackError)
  {
    match BestMatch(st + t.entries, h) {
      case FullMatch(i) =>
        FullMatchRoundTrip(st, t, h, i, rest);
      case NameMatch(i) =>
        NameMatchField(st, t, h, i, rest);
      case NoMatch =>
        NewNameField(st, t, h, rest);
    }
  }

  /** The decoder reads one encoded header off the front of a block. */
  lemma HeaderStep(st: seq<Header>, t: Table, h: Header, rest: bytes, acc: seq<Header>)
    requires ValidHeader(h)
    ensures
      var (wire, t') := EncodeHeader(st, t, h);
      DecodeFrom(st, t, wire + rest, acc)
        == if HeaderFits(st, t, h) then DecodeFrom(st, t', rest, acc + [h]) else (Err(HpackError), t)
  {
    var (wire, t') := EncodeHeader(st, t, h);
    HeaderRoundTrip(st, t, h, rest);
    assert (wire + rest)[|wire|..] == rest;
  }

  ghost predicate AllValid(headers: seq<Header>) {
    forall i :: 0 <= i < |headers| ==> ValidHeader(headers[i])
  }

  /** A size update to `limit + 32`, then a literal of exactly that size. */
  function RaisingBlock(limit: nat): bytes {
    EncodeInt(limit + 32, 5, 32) + ([64] + EncodeString([]) + EncodeString(Letters(limit)))
  }

  function Letters(n: nat): bytes {
    seq(n, _ => 97)
  }

  /** It takes an empty table of any limit past that limit, for every limit an update can raise. */
  lemma RaisingBlockExceeds(st: seq<Header>, limit: nat)
    requires IntFits(limit + 32, 5)
    ensures SizeOf(DecodeBlock(st, Table([], limit), RaisingBlock(limit)).1.entries) == limit + 32 > limit
  {
    var h, raised := Header([], Letters(limit)), Table([], limit + 32);
    var literal := [64] + EncodeString([]) + EncodeString(h.value);
    UpdateField(st, Table([], limit), limit + 32, literal);
    LiteralAlone(st, raised, h);
    FirstEntry(h);
    DecodeTwoFields(st, Table([], limit), EncodeInt(limit + 32, 5, 32), raised, literal, h, Inserted(raised, h));
  }

  lemma UpdateField(st: seq<Header>, t: Table, newMax: nat, rest: bytes)
    requires IntFits(newMax, 5)
    ensures DecodeField(st, t, EncodeInt(newMax, 5, 32) + rest)
         == Ok(Field(None, |EncodeInt(newMax, 5, 32)|, Resized(t, newMax)))
  {
    IntRoundTrip(newMax, 5, 32, rest);
    FirstOctet(newMax, 5, 32, rest);
  }

  lemma LiteralAlone(st: seq<Header>, t: Table, h: Header)
    requires h.name == [] && h.value == Letters(|h.value|) && IntFits(|h.value|, 7)
    ensures
      var literal := [64] + EncodeString([]) + EncodeString(h.value);
      DecodeField(st, t, literal) == Ok(Field(Some(h), |literal|, Inserted(t, h)))
  {
    var literal := [64] + EncodeString([]) + EncodeString(h.value);
    AsciiValid(h.value);
    NewNameField(st, t, h, []);
    assert literal + [] == literal;
  }

  lemma FirstEntry(h: Header)
    ensures SizeOf(Inserted(Table([], EntrySize(h)), h).entries) == EntrySize(h)
  {
    SizeOfPrefix([h], 0);
    assert [h] + [] == [h] && [h][..1] == [h] && SizeOf([h][..0]) == 0;
    FitUnique([h], EntrySize(h), 1);
  }

  /** A size update and one header make a block. */
  lemma DecodeTwoFields(st: seq<Header>, t: Table, a: bytes, mid: Table, b: bytes, h: Header, last: Table)
    requires a != [] && b != []
    requires DecodeField(st, t, a + b) == Ok(Field(None, |a|, mid))
    requires DecodeField(st, mid, b) == Ok(Field(Some(h), |b|, last))
    ensures DecodeBlock(st, t, a + b).1 == last
  {
    Seam(a, b);
    assert b[|b|..] == [];
    assert DecodeFrom(st, mid, b, []) == DecodeFrom(st, last, [], [] + [h]);
  }

  lemma EncodeBlockStep(st: seq<Header>, t: Table, headers: seq<Header>)
    requires headers != []
    ensures
      var (wire, t') := EncodeHeader(st, t, headers[0]);
      EncodeBlock(st, t, headers)
        == (wire + EncodeBlock(st, t', headers[1..]).0, EncodeBlock(st, t', headers[1..]).1)
  {
  }

  /** What decoding a block must give: the list and the encoder's table, or an error. */
  ghost predicate DecodesTo(st: seq<Header>, t: Table, headers: seq<Header>, acc: seq<Header>, r: Outcome) {
    if BlockFits(st, t, headers) then r == (Ok(acc + headers), EncodeBlock(st, t, headers).1)
    else r.0 == Err(HpackError)
  }

  /** One header more in front. */
  lemma DecodesToStep(st: seq<Header>, t: Table, headers: seq<Header>, acc: seq<Header>, r: Outcome)
    requires headers != [] && HeaderFits(st, t, headers[0])
    requires DecodesTo(st, EncodeHeader(st, t, headers[0]).1, headers[1..], acc + [headers[0]], r)
    ensures DecodesTo(st, t, headers, acc, r)
  {
    EncodeBlockStep(st, t, headers);
    AppendHead(acc, headers);
  }

  /** One encoded block decodes to itself, and leaves both tables equal, if and only if it fits. */
  lemma {:induction false} BlockRoundTrip(st: seq<Header>, t: Table, headers: seq<Header>, acc: seq<Header>)
    requires AllValid(headers)
    ensures DecodesTo(st, t, headers, acc, DecodeFrom(st, t, EncodeBlock(st, t, headers).0, acc))
    decreases |headers|
  {
    if headers == [] {
      assert acc + headers == acc;
    } else {
      var t' := EncodeHeader(st, t, headers[0]).1;
      EncodeBlockStep(st, t, headers);
      HeaderStep(st, t, headers[0], EncodeBlock(st, t', headers[1..]).0, acc);
      if HeaderFits(st, t, headers[0]) {
        BlockRoundTrip(st, t', headers[1..], acc + [headers[0]]);
        DecodesToStep(st, t, headers, acc, DecodeFrom(st, t, EncodeBlock(st, t, headers).0, acc));
      }
    }
  }

  /** The block arrives as it was sent, and the tables agree afterwards. */
  ghost predicate Delivered(st: seq<Header>, t: Table, headers: seq<Header>) {
    DecodeBlock(st, t, EncodeBlock(st, t, headers).0) == (Ok(headers), EncodeBlock(st, t, headers).1)
  }

  lemma DeliveredIffFits(st: seq<Header>, t: Table, headers: seq<Header>)
    requires AllValid(headers)
    ensures Delivered(st, t, headers) <==> BlockFits(st, t, headers)
  {
    BlockRoundTrip(st, t, headers, []);
    assert [] + headers == headers;
  }

  // ----- whole connections

  datatype SessionOp = Block(headers: seq<Header>) | SetLimit(newMax: nat)

  ghost predicate ValidOps(ops: seq<SessionOp>) {
    forall i, j :: 0 <= i < |ops| && ops[i].Block? && 0 <= j < |ops[i].headers| ==> ValidHeader(ops[i].headers[j])
  }

  /**
   * From equal tables, every block arrives as it was sent and leaves the tables equal; a change
   * of limit is applied to both ends, so one table stands for both from then on.
   */
  ghost predicate Lockstep(st: seq<Header>, t: Table, ops: seq<SessionOp>)
    decreases |ops|
  {
    ops == [] ||
    match ops[0]
    case SetLimit(n) => Lockstep(st, Resized(t, n), ops[1..])
    case Block(headers) => Delivered(st, t, headers) && Lockstep(st, EncodeBlock(st, t, headers).1, ops[1..])
  }

  /** Every integer of the whole connection fits. */
  ghost predicate SessionFits(st: seq<Header>, t: Table, ops: seq<SessionOp>)
    decreases |ops|
  {
    ops == [] ||
    match ops[0]
    case SetLimit(n) => SessionFits(st, Resized(t, n), ops[1..])
    case Block(headers) => BlockFits(st, t, headers) && SessionFits(st, EncodeBlock(st, t, headers).1, ops[1..])
  }

  lemma ValidOpsParts(ops: seq<SessionOp>)
    requires ops != [] && ValidOps(ops)
    ensures ValidOps(ops[1..])
    ensures ops[0].Block? ==> forall j :: 0 <= j < |ops[0].headers| ==> ValidHeader(ops[0].headers[j])
  {
    assert forall i :: 0 <= i < |ops[1..]| ==> ops[1..][i] == ops[i + 1];
  }

  /** The two ends stay in lockstep over a whole connection exactly when every integer fits. */
  lemma {:induction false} SessionLockstep(st: seq<Header>, t: Table, ops: seq<SessionOp>)
    requires ValidOps(ops)
    ensures Lockstep(st, t, ops) <==> SessionFits(st, t, ops)
    decreases |ops|
  {
    if ops != [] {
      ValidOpsParts(ops);
      match ops[0] {
        case SetLimit(n) =>
          SessionLockstep(st, Resized(t, n), ops[1..]);
        case Block(headers) =>
          DeliveredIffFits(st, t, headers);
          SessionLockstep(st, EncodeBlock(st, t, headers).1, ops[1..]);
      }
    }
  }

  // ----- a condition a caller can check up front

  /** Limits up to 2^40 and strings below 2^35 + 127 octets. */
  ghost predicate Ordinary(ops: seq<SessionOp>) {
    forall i :: 0 <= i < |ops| ==>
      match ops[i]
      case SetLimit(n) => n <= 0x100_0000_0000
      case Block(headers) => forall j :: 0 <= j < |headers| ==> OrdinaryHeader(headers[j])
  }

  ghost predicate OrdinaryHeader(h: Header) {
    IntFits(|h.name|, 7) && IntFits(|h.value|, 7)
  }

  lemma {:induction false} EntryCount(entries: seq<Header>)
    ensures 32 * |entries| <= SizeOf(entries)
  {
    if entries != [] {
      EntryCount(entries[1..]);
    }
  }

  lemma OrdinaryHeaderFits(st: seq<Header>, t: Table, h: Header)
    requires |st| <= 61 && Bounded(t) && t.maxSize <= 0x100_0000_0000 && OrdinaryHeader(h)
    ensures HeaderFits(st, t, h)
  {
    EntryCount(t.entries);
  }

  lemma EncodeHeaderBounded(st: seq<Header>, t: Table, h: Header)
    requires Bounded(t)
    ensures Bounded(EncodeHeader(st, t, h).1) && EncodeHeader(st, t, h).1.maxSize == t.maxSize
  {
    ApplyBounded(t, Insert(h));
  }

  lemma {:induction false} OrdinaryBlockFits(st: seq<Header>, t: Table, headers: seq<Header>)
    requires |st| <= 61 && Bounded(t) && t.maxSize <= 0x100_0000_0000
    requires forall j :: 0 <= j < |headers| ==> OrdinaryHeader(headers[j])
    ensures BlockFits(st, t, headers)
    ensures Bounded(EncodeBlock(st, t, headers).1) && EncodeBlock(st, t, headers).1.maxSize == t.maxSize
    decreases |headers|
  {
    if headers != [] {
      OrdinaryHeaderFits(st, t, headers[0]);
      EncodeHeaderBounded(st, t, headers[0]);
      OrdinaryBlockFits(st, EncodeHeader(st, t, headers[0]).1, headers[1..]);
    }
  }

  /** Lockstep for every ordinary connection, from equal tables. */
  lemma {:induction false} OrdinarySession(st: seq<Header>, t: Table, ops: seq<SessionOp>)
    requires |st| <= 61 && Bounded(t) && t.maxSize <= 0x100_0000_0000 && ValidOps(ops) && Ordinary(ops)
    ensures Lockstep(st, t, ops)
  {
    OrdinarySessionFits(st, t, ops);
    SessionLockstep(st, t, ops);
  }

  lemma {:induction false} OrdinarySessionFits(st: seq<Header>, t: Table, ops: seq<SessionOp>)
    requires |st| <= 61 && Bounded(t) && t.maxSize <= 0x100_0000_0000 && Ordinary(ops)
    ensures SessionFits(st, t, ops)
    decreases |ops|
  {
    if ops != [] {
      assert Ordinary(ops[1..]) by {
        assert forall i :: 0 <= i < |ops[1..]| ==> ops[1..][i] == ops[i + 1];
      }
      match ops[0] {
        case SetLimit(n) =>
          ApplyBounded(t, SetMax(n));
          OrdinarySessionFits(st, Resized(t, n), ops[1..]);
        case Block(headers) =>
          OrdinaryBlockFits(st, t, headers);
          OrdinarySessionFits(st, EncodeBlock(st, t, headers).1, ops[1..]);
      }
    }
  }
}
