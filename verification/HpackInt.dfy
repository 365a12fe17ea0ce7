/** HPACK prefix integers and string literals (sections 5.1 and 5.2 of RFC 7541). */
module HpackInt {
  import opened Basics
  import opened NumberTheory
  import opened Utf8

  datatype DecodeError = Incomplete | HpackError

  /** 2^bits - 1 for the prefix widths HPACK uses. */
  function MaxPrefix(bits: nat): nat
    requires 4 <= bits <= 7
  {
    match bits
    case 4 => 15
    case 5 => 31
    case 6 => 63
    case 7 => 127
  }

  /** The prefix bits of a first octet. */
  function LowBits(x: nat, bits: nat): nat
    requires 4 <= bits <= 7
  {
    match bits
    case 4 => x % 16
    case 5 => x % 32
    case 6 => x % 64
    case 7 => x % 128
  }

  /** A first-byte pattern that leaves the prefix bits clear. */
  predicate MaskFits(mask: nat, bits: nat)
    requires 4 <= bits <= 7
  {
    LowBits(mask, bits) == 0 && mask + MaxPrefix(bits) < 256
  }

  /** The continuation octets of `v`: seven bits each, least significant first. */
  function Septets(v: nat): (r: bytes)
    ensures r != []
  {
    if v < 128 then [v] else [v % 128 + 128] + Septets(v / 128)
  }

  function EncodeInt(value: nat, bits: nat, mask: nat): (r: bytes)
    requires 4 <= bits <= 7 && MaskFits(mask, bits)
    ensures r != []
  {
    if value < MaxPrefix(bits) then [mask + value]
    else [mask + MaxPrefix(bits)] + Septets(value - MaxPrefix(bits))
  }

  /** The number continuation octets at the front of `buf` stand for; `k` were read before. */
  function DecodeSeptets(buf: bytes, k: nat): (r: Result<(nat, nat), DecodeError>)
    requires k <= 4
    ensures r.Ok? ==> 1 <= r.value.1 <= |buf|
    decreases 4 - k
  {
    if buf == [] then Err(Incomplete)
    else if buf[0] < 128 then Ok((buf[0], 1))
    else if k == 4 then Err(HpackError)
    else match DecodeSeptets(buf[1..], k + 1)
         case Ok((v, used)) => Ok((buf[0] - 128 + 128 * v, used + 1))
         case Err(e) => Err(e)
  }

  /** `decode_integer`: the value and the number of octets used. */
  function DecodeInt(buf: bytes, bits: nat): (r: Result<(nat, nat), DecodeError>)
    requires 4 <= bits <= 7
    ensures r.Ok? ==> 1 <= r.value.1 <= |buf|
  {
    if buf == [] then Err(Incomplete)
    else
      var prefix := LowBits(buf[0], bits);
      if prefix < MaxPrefix(bits) then Ok((prefix, 1))
      else match DecodeSeptets(buf[1..], 0)
           case Ok((v, used)) => Ok((prefix + v, used + 1))
           case Err(e) => Err(e)
  }

  /** The integers the decoder's five continuation octets can carry. */
  predicate IntFits(value: nat, bits: nat)
    requires 4 <= bits <= 7
  {
    value < MaxPrefix(bits) + 0x8_0000_0000
  }

  /** 128^(5 - k): what the octets still allowed after `k` can carry. */
  function Room(k: nat): nat
    requires k <= 4
  {
    match k
    case 0 => 0x8_0000_0000
    case 1 => 0x1000_0000
    case 2 => 0x20_0000
    case 3 => 0x4000
    case 4 => 0x80
  }

  /** Septets decode to their value exactly when it needs no more than the octets still allowed. */
  lemma {:induction false} SeptetsRoundTrip(v: nat, rest: bytes, k: nat)
    requires k <= 4
    ensures v < Room(k) ==> DecodeSeptets(Septets(v) + rest, k) == Ok((v, |Septets(v)|))
    ensures v >= Room(k) ==> DecodeSeptets(Septets(v) + rest, k) == Err(HpackError)
    decreases v
  {
    var buf := Septets(v) + rest;
    if v >= 128 {
      assert buf[0] == v % 128 + 128;
      assert buf[1..] == Septets(v / 128) + rest;
      if k < 4 {
        SeptetsRoundTrip(v / 128, rest, k + 1);
      }
    }
  }

  lemma LongIntRoundTrip(value: nat, bits: nat, mask: nat, rest: bytes)
    requires 4 <= bits <= 7 && MaskFits(mask, bits) && value >= MaxPrefix(bits)
    ensures DecodeInt(EncodeInt(value, bits, mask) + rest, bits)
         == if IntFits(value, bits) then Ok((value, |EncodeInt(value, bits, mask)|)) else Err(HpackError)
  {
    var top := MaxPrefix(bits);
    PrefixOf(mask, bits, top);
    Associative([mask + top], Septets(value - top), rest);
    Seam([mask + top], Septets(value - top) + rest);
    SeptetsRoundTrip(value - top, rest, 0);
  }

  /** Decoding an encoded integer gives it back, with the exact octet count, if and only if it fits. */
  lemma IntRoundTrip(value: nat, bits: nat, mask: nat, rest: bytes)
    requires 4 <= bits <= 7 && MaskFits(mask, bits)
    ensures DecodeInt(EncodeInt(value, bits, mask) + rest, bits)
         == if IntFits(value, bits) then Ok((value, |EncodeInt(value, bits, mask)|)) else Err(HpackError)
  {
    if value < MaxPrefix(bits) {
      PrefixOf(mask, bits, value);
    } else {
      LongIntRoundTrip(value, bits, mask, rest);
    }
  }

  lemma PrefixOf(mask: nat, bits: nat, low: nat)
    requires 4 <= bits <= 7 && MaskFits(mask, bits) && low <= MaxPrefix(bits)
    ensures LowBits(mask + low, bits) == low
  {
    var m := MaxPrefix(bits) + 1;
    DivModUnique(mask + low, m, mask / m, low);
  }

  /** A string literal, never Huffman coded. */
  function EncodeString(s: bytes): (r: bytes)
    ensures r != []
  {
    EncodeInt(|s|, 7, 0) + s
  }

  /** A length and that many octets. */
  function DecodeOctets(buf: bytes): (r: Result<(bytes, nat), DecodeError>)
    ensures r.Ok? ==> 1 <= r.value.1 <= |buf|
  {
    match DecodeInt(buf, 7)
    case Err(e) => Err(e)
    case Ok((len, used)) =>
      if used + len > |buf| then Err(Incomplete) else Ok((buf[used..used + len], used + len))
  }

  function DecodeString(buf: bytes): (r: Result<(bytes, nat), DecodeError>)
    ensures r.Ok? ==> 1 <= r.value.1 <= |buf|
  {
    var r := DecodeOctets(buf);
    if r.Ok? && !ValidUtf8(r.value.0) then Err(HpackError) else r
  }

  lemma OctetsRoundTrip(s: bytes, rest: bytes)
    ensures DecodeOctets(EncodeString(s) + rest)
         == if IntFits(|s|, 7) then Ok((s, |EncodeString(s)|)) else Err(HpackError)
  {
    var head := EncodeInt(|s|, 7, 0);
    assert EncodeString(s) + rest == head + (s + rest);
    IntRoundTrip(|s|, 7, 0, s + rest);
    assert (head + (s + rest))[|head|..|head| + |s|] == s;
  }

  /** Octets decode to themselves if and only if they are text and their length fits. */
  lemma StringRoundTrip(s: bytes, rest: bytes)
    ensures DecodeString(EncodeString(s) + rest)
         == if IntFits(|s|, 7) && ValidUtf8(s) then Ok((s, |EncodeString(s)|)) else Err(HpackError)
  {
    OctetsRoundTrip(s, rest);
  }

  /** The prefix takes exactly `bits` bits. */
  lemma PrefixWidth(bits: nat, x: nat)
    requires 4 <= bits <= 7
    ensures MaxPrefix(4) == 15 && (bits < 7 ==> MaxPrefix(bits + 1) == 2 * MaxPrefix(bits) + 1)
    ensures LowBits(x, bits) == x % (MaxPrefix(bits) + 1)
  {
  }

  /** The examples of appendix C.1 of RFC 7541: 10 and 1337 with a five-bit prefix. */
  lemma IntExamples()
    ensures EncodeInt(10, 5, 0) == [0x0A]
    ensures EncodeInt(1337, 5, 0) == [0x1F, 0x9A, 0x0A]
  {
    assert Septets(1306) == [154] + Septets(10);
  }

  /** Fewer octets than the continuation needs are incomplete. */
  lemma {:induction false} SeptetsTruncated(v: nat, k: nat, n: nat)
    requires k <= 4 && v < Room(k) && n < |Septets(v)|
    ensures DecodeSeptets(Septets(v)[..n], k) == Err(Incomplete)
    decreases v
  {
    if v >= 128 && n > 0 {
      assert Septets(v)[..n][0] == v % 128 + 128;
      assert Septets(v)[..n][1..] == Septets(v / 128)[..n - 1];
      if k < 4 {
        SeptetsTruncated(v / 128, k + 1, n - 1);
      }
    }
  }

  /** A strict prefix of an integer is incomplete, never another integer. */
  lemma IntTruncated(value: nat, bits: nat, mask: nat, n: nat)
    requires 4 <= bits <= 7 && MaskFits(mask, bits) && IntFits(value, bits) && n < |EncodeInt(value, bits, mask)|
    ensures DecodeInt(EncodeInt(value, bits, mask)[..n], bits) == Err(Incomplete)
  {
    if n > 0 {
      var top := MaxPrefix(bits);
      PrefixOf(mask, bits, top);
      SeptetsTruncated(value - top, 0, n - 1);
      assert EncodeInt(value, bits, mask)[..n] == [mask + top] + Septets(value - top)[..n - 1];
    }
  }

  /** A strict prefix of a string is incomplete. */
  lemma StringTruncated(s: bytes, n: nat)
    requires IntFits(|s|, 7) && n < |EncodeString(s)|
    ensures DecodeString(EncodeString(s)[..n]) == Err(Incomplete)
  {
    var head := EncodeInt(|s|, 7, 0);
    if n < |head| {
      assert EncodeString(s)[..n] == head[..n];
      IntTruncated(|s|, 7, 0, n);
    } else {
      assert EncodeString(s)[..n] == head + s[..n - |head|];
      IntRoundTrip(|s|, 7, 0, s[..n - |head|]);
    }
  }

  /** The Huffman bit is ignored. */
  lemma HuffmanBitIgnored(buf: bytes)
    requires buf != [] && buf[0] < 128
    ensures DecodeString([buf[0] + 128] + buf[1..]) == DecodeString(buf)
  {
    var flagged: bytes := [buf[0] + 128] + buf[1..];
    assert flagged[1..] == buf[1..];
    SameLowBits(buf[0]);
    assert DecodeInt(flagged, 7) == DecodeInt(buf, 7);
    var r := DecodeInt(buf, 7);
    if r.Ok? {
      var (len, used) := r.value;
      if used + len <= |buf| {
        assert flagged[used..used + len] == buf[used..used + len];
      }
    }
  }

  lemma SameLowBits(b: byte)
    requires b < 128
    ensures LowBits(b + 128, 7) == LowBits(b, 7)
  {
  }

  // ----- the loops

  /** `encode_integer`'s output loop. */
  method WriteInt(value: nat, bits: nat, mask: nat) returns (out: bytes)
    requires 4 <= bits <= 7 && MaskFits(mask, bits)
    ensures out == EncodeInt(value, bits, mask)
  {
    var top := MaxPrefix(bits);
    if value < top {
      return [mask + value];
    }
    out := [mask + top];
    var v := value - top;
    while v >= 128
      invariant 0 <= v && out + Septets(v) == EncodeInt(value, bits, mask)
      decreases v
    {
      assert out + ([v % 128 + 128] + Septets(v / 128)) == (out + [v % 128 + 128]) + Septets(v / 128);
      out := out + [v % 128 + 128];
      v := v / 128;
    }
    out := out + [v];
  }

  /** `x << 7k`. */
  function ShiftSeptets(x: nat, k: nat): nat {
    if k == 0 then x else 128 * ShiftSeptets(x, k - 1)
  }

  lemma {:induction false} ShiftSplit(low: nat, high: nat, k: nat)
    ensures ShiftSeptets(low + 128 * high, k) == ShiftSeptets(low, k) + ShiftSeptets(high, k + 1)
  {
    if k > 0 {
      ShiftSplit(low, high, k - 1);
    }
  }

  /** `decode_integer`'s loop: each octet is added at seven more bits of shift. */
  method ReadSeptets(buf: bytes, prefix: nat) returns (r: Result<(nat, nat), DecodeError>)
    requires buf != []
    ensures r == Resumed(DecodeSeptets(buf[1..], 0), prefix, 0, 1)
  {
    var value: nat, k: nat, pos := prefix, 0, 1;
    ghost var goal := Resumed(DecodeSeptets(buf[1..], 0), prefix, 0, 1);
    while true
      invariant 0 <= k <= 4 && pos == k + 1 <= |buf|
      invariant goal == Resumed(DecodeSeptets(buf[pos..], k), value, k, pos)
      decreases 4 - k
    {
      if pos >= |buf| {
        return Err(Incomplete);
      }
      var b := buf[pos];
      SeptetStep(buf, value, k, pos);
      value := value + ShiftSeptets(b % 128, k);
      pos := pos + 1;
      if b < 128 {
        return Ok((value, pos));
      }
      if k == 4 {
        return Err(HpackError);
      }
      k := k + 1;
    }
  }

  /** `decode_integer`. */
  method ReadInt(buf: bytes, bits: nat) returns (r: Result<(nat, nat), DecodeError>)
    requires 4 <= bits <= 7
    ensures r == DecodeInt(buf, bits)
  {
    if buf == [] {
      return Err(Incomplete);
    }
    var value := LowBits(buf[0], bits);
    if value < MaxPrefix(bits) {
      return Ok((value, 1));
    }
    r := ReadSeptets(buf, value);
  }

  /** The final answer when `value` has been read from `pos` octets and `r` is the rest. */
  ghost function Resumed(r: Result<(nat, nat), DecodeError>, value: nat, k: nat, pos: nat)
    : Result<(nat, nat), DecodeError>
  {
    match r
    case Ok((v, used)) => Ok((value + ShiftSeptets(v, k), used + pos))
    case Err(e) => Err(e)
  }

  lemma ResumedMore(rest: bytes, b: byte, value: nat, k: nat, pos: nat)
    requires k < 4 && b >= 128
    ensures Resumed(DecodeSeptets([b] + rest, k), value, k, pos)
         == Resumed(DecodeSeptets(rest, k + 1), value + ShiftSeptets(b - 128, k), k + 1, pos + 1)
  {
    var r := DecodeSeptets(rest, k + 1);
    assert ([b] + rest)[1..] == rest;
    if r.Ok? {
      ShiftSplit(b - 128, r.value.0, k);
    }
  }

  /** One turn of the loop, read off the specification. */
  lemma SeptetStep(buf: bytes, value: nat, k: nat, pos: nat)
    requires k <= 4 && pos < |buf|
    ensures buf[pos] < 128 ==>
              Resumed(DecodeSeptets(buf[pos..], k), value, k, pos)
              == Ok((value + ShiftSeptets(buf[pos] % 128, k), pos + 1))
    ensures buf[pos] >= 128 && k == 4 ==> Resumed(DecodeSeptets(buf[pos..], k), value, k, pos) == Err(HpackError)
    ensures buf[pos] >= 128 && k < 4 ==>
              Resumed(DecodeSeptets(buf[pos..], k), value, k, pos)
              == Resumed(DecodeSeptets(buf[pos + 1..], k + 1), value + ShiftSeptets(buf[pos] % 128, k), k + 1, pos + 1)
  {
    var b, tail := buf[pos], buf[pos..];
    assert tail == [b] + buf[pos + 1..];
    assert b % 128 == if b < 128 then b else b - 128;
    if b >= 128 && k < 4 {
      ResumedMore(buf[pos + 1..], b, value, k, pos);
    }
  }
}
