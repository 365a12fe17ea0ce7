/** The encoder and decoder objects, each owning its dynamic table. */
module HpackCodec {
  import opened Basics
  import opened HpackTable
  import opened HpackInt
  import opened Hpack

  class HpackEncoder {
    const staticTable: seq<Header>
    const dynamic: DynamicTable

    constructor (st: seq<Header>, maxTableSize: nat)
      ensures staticTable == st && fresh(dynamic) && dynamic.Valid()
      ensures dynamic.View() == Table([], maxTableSize)
    {
      staticTable := st;
      dynamic := new DynamicTable(maxTableSize);
    }

    /** One header: its octets, with the table updated as section 6.2.1 of RFC 7541 says. */
    method EncodeOne(h: Header) returns (wire: bytes)
      requires dynamic.Valid()
      modifies dynamic
      ensures dynamic.Valid()
      ensures (wire, dynamic.View()) == EncodeHeader(staticTable, old(dynamic.View()), h)
    {
      var found := FindInTables(staticTable, dynamic.entries, h);
      match found
      case FullMatch(index) =>
        wire := WriteInt(index, 7, 128);
      case NameMatch(index) =>
        var head := WriteInt(index, 6, 64);
        var value := WriteString(h.value);
        wire := head + value;
        dynamic.Insert(h);
      case NoMatch =>
        var name := WriteString(h.name);
        var value := WriteString(h.value);
        wire := [64] + name + value;
        dynamic.Insert(h);
    }

    /** `encode`. */
    method Encode(headers: seq<Header>) returns (wire: bytes)
      requires dynamic.Valid()
      modifies dynamic
      ensures dynamic.Valid()
      ensures (wire, dynamic.View()) == EncodeBlock(staticTable, old(dynamic.View()), headers)
    {
      wire := [];
      ghost var start := dynamic.View();
      assert headers[0..] == headers;
      assert [] + EncodeBlock(staticTable, start, headers).0 == EncodeBlock(staticTable, start, headers).0;
      for i := 0 to |headers|
        invariant dynamic.Valid()
        invariant EncodeBlock(staticTable, start, headers)
               == Preceded(wire, EncodeBlock(staticTable, dynamic.View(), headers[i..]))
      {
        BlockStep(staticTable, dynamic.View(), headers, i, wire);
        var piece := EncodeOne(headers[i]);
        wire := wire + piece;
      }
      assert wire + [] == wire;
    }

    method SetMaxTableSize(max: nat)
      requires dynamic.Valid()
      modifies dynamic
      ensures dynamic.Valid() && dynamic.View() == Resized(old(dynamic.View()), max)
    {
      dynamic.SetMaxSize(max);
    }
  }

  method WriteString(s: bytes) returns (out: bytes)
    ensures out == EncodeString(s)
  {
    var head := WriteInt(|s|, 7, 0);
    out := head + s;
  }

  ghost function Preceded(wire: bytes, rest: (bytes, Table)): (bytes, Table) {
    (wire + rest.0, rest.1)
  }

  lemma BlockStep(st: seq<Header>, t: Table, headers: seq<Header>, i: nat, wire: bytes)
    requires i < |headers|
    ensures Preceded(wire, EncodeBlock(st, t, headers[i..]))
         == var (piece, t') := EncodeHeader(st, t, headers[i]);
            Preceded(wire + piece, EncodeBlock(st, t', headers[i + 1..]))
  {
    assert headers[i..][0] == headers[i] && headers[i..][1..] == headers[i + 1..];
    var (piece, t') := EncodeHeader(st, t, headers[i]);
    var rest := EncodeBlock(st, t', headers[i + 1..]).0;
    assert wire + (piece + rest) == wire + piece + rest;
  }

  /** `rest` gives the outcome of the block from any position, table and headers so far. */
  ghost predicate IsRest(st: seq<Header>, buf: bytes, rest: (Table, nat, seq<Header>) -> Outcome) {
    forall t, pos: nat, acc {:trigger DecodeFrom(st, t, buf[pos..], acc)} ::
      pos <= |buf| ==> rest(t, pos, acc) == DecodeFrom(st, t, buf[pos..], acc)
  }

  lemma RestAtEnd(st: seq<Header>, buf: bytes, rest: (Table, nat, seq<Header>) -> Outcome, t: Table, acc: seq<Header>)
    requires IsRest(st, buf, rest)
    ensures rest(t, |buf|, acc) == (Ok(acc), t)
  {
    assert DecodeFrom(st, t, buf[|buf|..], acc) == (Ok(acc), t);
  }

  function Appended(acc: seq<Header>, h: Option<Header>): seq<Header> {
    if h.Some? then acc + [h.value] else acc
  }

  /** What decoding the rest comes to once the representation at `pos` has been decoded. */
  lemma DecodeFromStep(
    st: seq<Header>, t: Table, buf: bytes, pos: nat, acc: seq<Header>, field: Result<Field, DecodeError>)
    requires pos < |buf| && DecodeField(st, t, buf[pos..]) == field
    ensures field.Err? ==> DecodeFrom(st, t, buf[pos..], acc) == (Err(field.error), t)
    ensures field.Ok? ==> pos < pos + field.value.used <= |buf|
    ensures field.Ok? ==>
              DecodeFrom(st, t, buf[pos..], acc)
              == DecodeFrom(st, field.value.table, buf[pos + field.value.used..], Appended(acc, field.value.header))
  {
    if field.Ok? {
      assert buf[pos..][field.value.used..] == buf[pos + field.value.used..];
    }
  }

  class HpackDecoder {
    const staticTable: seq<Header>
    const dynamic: DynamicTable

    constructor (st: seq<Header>, maxTableSize: nat)
      ensures staticTable == st && fresh(dynamic) && dynamic.Valid()
      ensures dynamic.View() == Table([], maxTableSize)
    {
      staticTable := st;
      dynamic := new DynamicTable(maxTableSize);
    }

    /** `decode`: headers decoded so far are lost on an error, table changes are not. */
    method Decode(buf: bytes) returns (r: Result<seq<Header>, DecodeError>)
      requires dynamic.Valid()
      modifies dynamic
      ensures dynamic.Valid()
      ensures (r, dynamic.View()) == DecodeBlock(staticTable, old(dynamic.View()), buf)
    {
      ghost var rest := (t: Table, pos: nat, acc: seq<Header>) =>
        if pos <= |buf| then DecodeFrom(staticTable, t, buf[pos..], acc) else (Ok(acc), t);
      assert buf[0..] == buf;
      r := DecodeLoop(buf, rest);
    }

    method DecodeLoop(buf: bytes, ghost rest: (Table, nat, seq<Header>) -> Outcome)
      returns (r: Result<seq<Header>, DecodeError>)
      requires dynamic.Valid() && IsRest(staticTable, buf, rest)
      modifies dynamic
      ensures dynamic.Valid() && (r, dynamic.View()) == rest(old(dynamic.View()), 0, [])
    {
      var headers, pos := [], 0;
      while pos < |buf|
        invariant 0 <= pos <= |buf| && dynamic.Valid()
        invariant rest(old(dynamic.View()), 0, []) == rest(dynamic.View(), pos, headers)
        decreases |buf| - pos
      {
        var field := DecodeAt(buf, pos, headers, rest);
        if field.Err? {
          return Err(field.error);
        }
        headers := Appended(headers, field.value.header);
        pos := pos + field.value.used;
      }
      RestAtEnd(staticTable, buf, rest, dynamic.View(), headers);
      return Ok(headers);
    }

    /** The representation at `pos`: it decides the outcome, or leaves it to what follows. */
    method DecodeAt(buf: bytes, pos: nat, ghost headers: seq<Header>, ghost rest: (Table, nat, seq<Header>) -> Outcome)
      returns (field: Result<Field, DecodeError>)
      requires dynamic.Valid() && pos < |buf| && IsRest(staticTable, buf, rest)
      modifies dynamic
      ensures dynamic.Valid()
      ensures field.Err? ==> rest(old(dynamic.View()), pos, headers) == (Err(field.error), dynamic.View())
      ensures field.Ok? ==>
                && pos < pos + field.value.used <= |buf|
                && rest(old(dynamic.View()), pos, headers)
                   == rest(dynamic.View(), pos + field.value.used, Appended(headers, field.value.header))
    {
      ghost var table := dynamic.View();
      field := DecodeOne(buf[pos..]);
      DecodeFromStep(staticTable, table, buf, pos, headers, field);
    }

    /** One representation, chosen by the leading bits of its first octet. */
    method DecodeOne(buf: bytes) returns (r: Result<Field, DecodeError>)
      requires dynamic.Valid() && buf != []
      modifies dynamic
      ensures dynamic.Valid()
      ensures r == DecodeField(staticTable, old(dynamic.View()), buf)
      ensures dynamic.View() == if r.Ok? then r.value.table else old(dynamic.View())
    {
      var first := buf[0];
      if first >= 0x80 {
        var index := ReadInt(buf, 7);
        if index.Err? { return Err(index.error); }
        var found := TableGet(staticTable, dynamic.View(), index.value.0);
        if found.Err? { return Err(found.error); }
        return Ok(Field(Some(found.value), index.value.1, dynamic.View()));
      } else if first >= 0x40 {
        var literal := DecodeLiteral(staticTable, dynamic.View(), buf, 6);
        if literal.Err? { return Err(literal.error); }
        dynamic.Insert(literal.value.0);
        return Ok(Field(Some(literal.value.0), literal.value.1, dynamic.View()));
      } else if first < 0x20 {
        var literal := DecodeLiteral(staticTable, dynamic.View(), buf, 4);
        if literal.Err? { return Err(literal.error); }
        return Ok(Field(Some(literal.value.0), literal.value.1, dynamic.View()));
      } else {
        var size := ReadInt(buf, 5);
        if size.Err? { return Err(size.error); }
        dynamic.SetMaxSize(size.value.0);
        return Ok(Field(None, size.value.1, dynamic.View()));
      }
    }

    method SetMaxTableSize(max: nat)
      requires dynamic.Valid()
      modifies dynamic
      ensures dynamic.Valid() && dynamic.View() == Resized(old(dynamic.View()), max)
    {
      dynamic.SetMaxSize(max);
    }
  }

  /**
   * Two ends with one static table and equal dynamic tables: a list encoded by one and decoded by
   * the other comes back unchanged and leaves equal tables, if and only if it fits.
   */
  method Exchange(enc: HpackEncoder, dec: HpackDecoder, headers: seq<Header>)
    returns (r: Result<seq<Header>, DecodeError>)
    requires enc.dynamic != dec.dynamic && enc.dynamic.Valid() && dec.dynamic.Valid()
    requires enc.staticTable == dec.staticTable && enc.dynamic.View() == dec.dynamic.View()
    requires AllValid(headers)
    modifies enc.dynamic, dec.dynamic
    ensures enc.dynamic.Valid() && dec.dynamic.Valid()
    ensures BlockFits(enc.staticTable, old(enc.dynamic.View()), headers)
       <==> r == Ok(headers) && enc.dynamic.View() == dec.dynamic.View()
  {
    DeliveredIffFits(enc.staticTable, enc.dynamic.View(), headers);
    BlockRoundTrip(enc.staticTable, enc.dynamic.View(), headers, []);
    var wire := enc.Encode(headers);
    r := dec.Decode(wire);
  }
}
