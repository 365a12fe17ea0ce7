/** The lexical layer of chunked coding: line ends, hexadecimal sizes, trailer lines. */
module ChunkedText {
  import opened Basics
  import opened Utf8

  const CR: byte := 13
  const LF: byte := 10
  const CRLF: bytes := [13, 10]

  // ----- line ends

  predicate CrlfAt(buf: bytes, i: int) {
    0 <= i && i + 1 < |buf| && buf[i] == CR && buf[i + 1] == LF
  }

  predicate DoubleCrlfAt(buf: bytes, i: int) {
    CrlfAt(buf, i) && CrlfAt(buf, i + 2)
  }

  /** The first line end at or after `from`. */
  function FindCrlfFrom(buf: bytes, from: nat): (r: Option<nat>)
    ensures r.Some? ==> from <= r.value && CrlfAt(buf, r.value) && forall j :: from <= j < r.value ==> !CrlfAt(buf, j)
    ensures r.None? ==> forall j :: from <= j ==> !CrlfAt(buf, j)
    decreases |buf| - from
  {
    if from + 1 >= |buf| then None
    else if CrlfAt(buf, from) then Some(from)
    else FindCrlfFrom(buf, from + 1)
  }

  function FindCrlf(buf: bytes): (r: Option<nat>)
    ensures r.Some? ==> CrlfAt(buf, r.value) && forall j :: 0 <= j < r.value ==> !CrlfAt(buf, j)
    ensures r.None? ==> forall j :: 0 <= j ==> !CrlfAt(buf, j)
  {
    FindCrlfFrom(buf, 0)
  }

  function FindDoubleCrlfFrom(buf: bytes, from: nat): (r: Option<nat>)
    ensures r.Some? ==> from <= r.value && DoubleCrlfAt(buf, r.value)
                        && forall j :: from <= j < r.value ==> !DoubleCrlfAt(buf, j)
    ensures r.None? ==> forall j :: from <= j ==> !DoubleCrlfAt(buf, j)
    decreases |buf| - from
  {
    if from + 3 >= |buf| then None
    else if DoubleCrlfAt(buf, from) then Some(from)
    else FindDoubleCrlfFrom(buf, from + 1)
  }

  function FindDoubleCrlf(buf: bytes): (r: Option<nat>)
    ensures r.Some? ==> DoubleCrlfAt(buf, r.value) && forall j :: 0 <= j < r.value ==> !DoubleCrlfAt(buf, j)
    ensures r.None? ==> forall j :: 0 <= j ==> !DoubleCrlfAt(buf, j)
  {
    FindDoubleCrlfFrom(buf, 0)
  }

  /** A first occurrence is the one that is found. */
  lemma FirstCrlf(buf: bytes, i: nat)
    requires CrlfAt(buf, i) && forall j :: 0 <= j < i ==> !CrlfAt(buf, j)
    ensures FindCrlf(buf) == Some(i)
  {
  }

  lemma FirstDoubleCrlf(buf: bytes, i: nat)
    requires DoubleCrlfAt(buf, i) && forall j :: 0 <= j < i ==> !DoubleCrlfAt(buf, j)
    ensures FindDoubleCrlf(buf) == Some(i)
  {
  }

  /** What was found stays found when more input arrives. */
  lemma CrlfStable(buf: bytes, more: bytes)
    requires FindCrlf(buf).Some?
    ensures FindCrlf(buf + more) == FindCrlf(buf)
  {
    var i := FindCrlf(buf).value;
    forall j | 0 <= j < i ensures !CrlfAt(buf + more, j) {
      assert !CrlfAt(buf, j);
    }
    FirstCrlf(buf + more, i);
  }

  lemma DoubleCrlfStable(buf: bytes, more: bytes)
    requires FindDoubleCrlf(buf).Some?
    ensures FindDoubleCrlf(buf + more) == FindDoubleCrlf(buf)
  {
    var i := FindDoubleCrlf(buf).value;
    forall j | 0 <= j < i ensures !DoubleCrlfAt(buf + more, j) {
      assert !DoubleCrlfAt(buf, j);
    }
    FirstDoubleCrlf(buf + more, i);
  }

  // ----- hexadecimal sizes

  function Nibble(b: byte): (r: Option<nat>)
    ensures r.Some? ==> r.value < 16
  {
    if 48 <= b <= 57 then Some(b - 48)
    else if 97 <= b <= 102 then Some(b - 97 + 10)
    else if 65 <= b <= 70 then Some(b - 65 + 10)
    else None
  }

  predicate AllHex(line: bytes) {
    forall i :: 0 <= i < |line| ==> Nibble(line[i]).Some?
  }

  /** The number a hexadecimal string stands for. */
  function HexValue(line: bytes): nat
    requires AllHex(line)
  {
    if line == [] then 0 else HexValue(line[..|line| - 1]) * 16 + Nibble(line[|line| - 1]).value
  }

  function Pow16(k: nat): (p: nat)
    ensures p >= 1
  {
    if k == 0 then 1 else 16 * Pow16(k - 1)
  }

  lemma {:induction false} HexValueBound(line: bytes)
    requires AllHex(line)
    ensures HexValue(line) < Pow16(|line|)
  {
    if line != [] {
      HexValueBound(line[..|line| - 1]);
    }
  }

  lemma {:induction false} Pow16Monotone(j: nat, k: nat)
    requires j <= k
    ensures Pow16(j) <= Pow16(k)
    decreases k
  {
    if j < k {
      Pow16Monotone(j, k - 1);
    }
  }

  lemma SixteenDigits()
    ensures Pow16(16) == U64_LIMIT
  {
    assert Pow16(4) == 65536;
    assert Pow16(8) == 65536 * 65536;
    assert Pow16(12) == 65536 * 65536 * 65536;
  }

  /** The size lexer's verdict: one to sixteen hexadecimal digits, nothing else. */
  function ParseHex(line: bytes): Option<nat> {
    if 1 <= |line| <= 16 && AllHex(line) then Some(HexValue(line)) else None
  }

  /** One more digit: the shifted value still fits a word, so nothing is lost. */
  lemma NoBitLost(line: bytes, i: nat)
    requires i < |line| <= 16 && AllHex(line[..i]) && Nibble(line[i]).Some?
    ensures AllHex(line[..i + 1])
    ensures HexValue(line[..i + 1]) == HexValue(line[..i]) * 16 + Nibble(line[i]).value
    ensures HexValue(line[..i]) * 16 < U64_LIMIT
  {
    var digits := line[..i + 1];
    assert digits[..|digits| - 1] == line[..i];
    assert AllHex(digits);
    HexValueBound(digits);
    Pow16Monotone(i + 1, 16);
    SixteenDigits();
  }

  /** The lexer's loop; on a 64-bit word no shift ever loses a bit. */
  method ParseChunkSizeHex(line: bytes) returns (r: Option<nat>)
    ensures r == ParseHex(line)
    ensures r.Some? ==> r.value < U64_LIMIT
  {
    if line == [] {
      return None;
    }
    if |line| > 16 {
      return None;
    }
    SixteenDigits();
    var value := 0;
    for i := 0 to |line|
      invariant AllHex(line[..i]) && value == HexValue(line[..i])
    {
      var nibble := Nibble(line[i]);
      if nibble.None? {
        return None;
      }
      NoBitLost(line, i);
      value := value * 16 % U64_LIMIT + nibble.value;
    }
    assert line[..|line|] == line;
    HexValueBound(line);
    Pow16Monotone(|line|, 16);
    return Some(value);
  }

  function HexDigit(n: nat): (b: byte)
    requires n < 16
    ensures Nibble(b) == Some(n)
    ensures b != CR && b != 59
  {
    if n < 10 then 48 + n else 97 + n - 10
  }

  /** `{:x}`: lower-case digits, no leading zeros. */
  function Hex(n: nat): (r: bytes)
    ensures r != []
  {
    if n < 16 then [HexDigit(n)] else Hex(n / 16) + [HexDigit(n % 16)]
  }

  lemma {:induction false} HexDigits(n: nat, k: nat)
    requires n < Pow16(k) && 1 <= k
    ensures |Hex(n)| <= k
    ensures forall i :: 0 <= i < |Hex(n)| ==> Nibble(Hex(n)[i]).Some? && Hex(n)[i] != CR && Hex(n)[i] != 59
  {
    assert Pow16(1) == 16 && Pow16(k) == 16 * Pow16(k - 1);
    if n >= 16 {
      HexDigits(n / 16, k - 1);
    }
  }

  lemma {:induction false} HexValueOfHex(n: nat)
    requires AllHex(Hex(n))
    ensures HexValue(Hex(n)) == n
  {
    if n >= 16 {
      var front := Hex(n / 16);
      assert Hex(n)[..|Hex(n)| - 1] == front;
      assert AllHex(front) by {
        assert forall i :: 0 <= i < |front| ==> front[i] == Hex(n)[i];
      }
      HexValueOfHex(n / 16);
    } else {
      assert Hex(n)[..0] == [];
    }
  }

  /** Printing and parsing a size are inverse for every 64-bit length. */
  lemma HexRoundTrip(n: nat)
    requires n < U64_LIMIT
    ensures ParseHex(Hex(n)) == Some(n)
    ensures forall i :: 0 <= i < |Hex(n)| ==> Hex(n)[i] != CR && Hex(n)[i] != 59
  {
    SixteenDigits();
    HexDigits(n, 16);
    HexValueOfHex(n);
  }

  // ----- every spelling of a size

  const LOWER: bytes := [48, 49, 50, 51, 52, 53, 54, 55, 56, 57, 97, 98, 99, 100, 101, 102]
  const UPPER: bytes := [48, 49, 50, 51, 52, 53, 54, 55, 56, 57, 65, 66, 67, 68, 69, 70]

  /** `b` is the digit for `v`, in either case. */
  predicate IsDigit(b: byte, v: nat) {
    v < 16 && (b == LOWER[v] || b == UPPER[v])
  }

  /** `line` writes `n` in hexadecimal: letters of either case, any leading zeros. */
  predicate Spells(line: bytes, n: nat) {
    line != [] &&
    if |line| == 1 then IsDigit(line[0], n)
    else IsDigit(line[|line| - 1], n % 16) && Spells(line[..|line| - 1], n / 16)
  }

  lemma DigitIsNibble(b: byte, v: nat)
    ensures IsDigit(b, v) <==> Nibble(b) == Some(v)
  {
  }

  lemma {:induction false} SpellsIsValue(line: bytes, n: nat)
    ensures Spells(line, n) <==> line != [] && AllHex(line) && HexValue(line) == n
  {
    if line != [] {
      var front, last := line[..|line| - 1], line[|line| - 1];
      assert AllHex(line) <==> AllHex(front) && Nibble(last).Some? by {
        assert forall i :: 0 <= i < |front| ==> front[i] == line[i];
      }
      if |line| == 1 {
        DigitIsNibble(last, n);
      } else {
        DigitIsNibble(last, n % 16);
        SpellsIsValue(front, n / 16);
      }
    }
  }

  /** The size lexer accepts exactly the spellings of at most sixteen digits, with their number. */
  lemma ParseHexIff(line: bytes, n: nat)
    ensures ParseHex(line) == Some(n) <==> |line| <= 16 && Spells(line, n)
  {
    SpellsIsValue(line, n);
  }

  lemma SpellsOneMore(line: bytes, b: byte, n: nat)
    requires Spells(line, n / 16) && IsDigit(b, n % 16)
    ensures Spells(line + [b], n)
  {
    assert (line + [b])[..|line|] == line;
  }

  lemma HexDigitIsLower(v: nat)
    requires v < 16
    ensures HexDigit(v) in LOWER && IsDigit(HexDigit(v), v) && (v > 0 ==> HexDigit(v) != 48)
  {
    assert HexDigit(v) == LOWER[v];
  }

  /** The printed form is the lower-case spelling without leading zeros. */
  lemma {:induction false} HexIsShortest(n: nat)
    ensures Spells(Hex(n), n)
    ensures forall i :: 0 <= i < |Hex(n)| ==> Hex(n)[i] in LOWER
    ensures n > 0 ==> Hex(n)[0] != 48
  {
    HexDigitIsLower(n % 16);
    if n >= 16 {
      HexIsShortest(n / 16);
      SpellsOneMore(Hex(n / 16), HexDigit(n % 16), n);
    }
  }

  lemma {:induction false} SpellingOctets(line: bytes, n: nat)
    requires Spells(line, n)
    ensures forall i :: 0 <= i < |line| ==> line[i] != CR && line[i] != 59
  {
    if |line| > 1 {
      SpellingOctets(line[..|line| - 1], n / 16);
      assert forall i :: 0 <= i < |line| - 1 ==> line[i] == line[..|line| - 1][i];
    }
  }

  // ----- whitespace

  /** The length of the whitespace character `s` starts with, or 0. */
  function LeadingSpace(s: bytes): (n: nat)
    ensures n <= |s|
  {
    if |s| >= 1 && (9 <= s[0] <= 13 || s[0] == 32) then 1
    else if |s| >= 2 && s[0] == 0xC2 && (s[1] == 0x85 || s[1] == 0xA0) then 2
    else if |s| >= 3 && WideSpace(s[0], s[1], s[2]) then 3
    else 0
  }

  function TrailingSpace(s: bytes): (n: nat)
    ensures n <= |s|
  {
    if |s| >= 1 && (9 <= s[|s| - 1] <= 13 || s[|s| - 1] == 32) then 1
    else if |s| >= 2 && s[|s| - 2] == 0xC2 && (s[|s| - 1] == 0x85 || s[|s| - 1] == 0xA0) then 2
    else if |s| >= 3 && WideSpace(s[|s| - 3], s[|s| - 2], s[|s| - 1]) then 3
    else 0
  }

  /** The three-octet whitespace characters: U+1680, U+2000-200A, U+2028, U+2029, U+202F, U+205F, U+3000. */
  predicate WideSpace(a: byte, b: byte, c: byte) {
    || (a == 0xE1 && b == 0x9A && c == 0x80)
    || (a == 0xE2 && b == 0x80 && (0x80 <= c <= 0x8A || c == 0xA8 || c == 0xA9 || c == 0xAF))
    || (a == 0xE2 && b == 0x81 && c == 0x9F)
    || (a == 0xE3 && b == 0x80 && c == 0x80)
  }

  /** The characters with the Unicode property White_Space. */
  predicate IsWhite(cp: int) {
    || 0x09 <= cp <= 0x0D || cp == 0x20 || cp == 0x85 || cp == 0xA0 || cp == 0x1680
    || 0x2000 <= cp <= 0x200A || cp == 0x2028 || cp == 0x2029 || cp == 0x202F || cp == 0x205F || cp == 0x3000
  }

  /** A character at the start is whitespace exactly when its code point is. */
  lemma LeadingIsWhite(cp: int, rest: bytes)
    requires IsScalar(cp)
    ensures LeadingSpace(EncodeScalar(cp) + rest) == if IsWhite(cp) then |EncodeScalar(cp)| else 0
  {
    var s := EncodeScalar(cp);
    assert forall i :: 0 <= i < |s| ==> (s + rest)[i] == s[i];
  }

  /** ... and so is one at the end. */
  lemma TrailingIsWhite(front: bytes, cp: int)
    requires IsScalar(cp)
    ensures TrailingSpace(front + EncodeScalar(cp)) == if IsWhite(cp) then |EncodeScalar(cp)| else 0
  {
    var s := EncodeScalar(cp);
    assert forall i :: 0 <= i < |s| ==> (front + s)[|front| + i] == s[i];
  }

  function TrimStart(s: bytes): (r: bytes)
    ensures |r| <= |s|
  {
    if LeadingSpace(s) > 0 then TrimStart(s[LeadingSpace(s)..]) else s
  }

  function TrimEnd(s: bytes): (r: bytes)
    ensures |r| <= |s|
  {
    if TrailingSpace(s) > 0 then TrimEnd(s[..|s| - TrailingSpace(s)]) else s
  }

  function Trim(s: bytes): bytes {
    TrimEnd(TrimStart(s))
  }

  /** A trimmed value neither starts nor ends with whitespace. */
  lemma TrimmedEnds(s: bytes)
    requires Trim(s) == s
    ensures TrimStart(s) == s && TrailingSpace(s) == 0
    ensures s != [] ==> s[|s| - 1] != CR
  {
  }

  lemma TrimSpacePrefix(s: bytes)
    requires Trim(s) == s
    ensures Trim([32] + s) == s
  {
    TrimmedEnds(s);
    assert ([32] + s)[1..] == s;
  }

  // ----- trailer lines

  datatype Trailer = Trailer(name: bytes, value: bytes)

  /** Section 5.6.2 of RFC 9110. */
  predicate IsTchar(b: byte) {
    || b in [33, 35, 36, 37, 38, 39, 42, 43, 45, 46, 94, 95, 96, 124, 126]
    || 48 <= b <= 57 || 97 <= b <= 122 || 65 <= b <= 90
  }

  /** Exactly the visible ASCII characters that are not delimiters. */
  lemma TcharIsVisibleNonDelimiter(b: byte)
    ensures IsTchar(b)
       <==> 33 <= b <= 126 && b !in [34, 40, 41, 44, 47, 58, 59, 60, 61, 62, 63, 64, 91, 92, 93, 123, 125]
  {
  }

  predicate IsToken(name: bytes) {
    name != [] && forall i :: 0 <= i < |name| ==> IsTchar(name[i])
  }

  /** The part of `s` before the first `stop`, or all of it. */
  function Before(s: bytes, stop: byte): (r: bytes)
    ensures r <= s && stop !in r && (|r| < |s| ==> s[|r|] == stop)
  {
    if s == [] || s[0] == stop then [] else [s[0]] + Before(s[1..], stop)
  }

  lemma BeforeIs(s: bytes, front: bytes, stop: byte)
    requires front <= s && stop !in front && (|front| < |s| ==> s[|front|] == stop)
    ensures Before(s, stop) == front
  {
    assert forall k :: 0 <= k < |front| ==> front[k] == s[k];
  }

  function ParseLine(line: bytes): Option<Trailer> {
    var name := Before(line, 58);
    if !ValidUtf8(line) || |name| == |line| || !IsToken(name) then None
    else Some(Trailer(name, Trim(line[|name| + 1..])))
  }

  /** A line is accepted exactly when it is text and starts with a token and a colon. */
  lemma ParseLineIff(line: bytes)
    ensures ParseLine(line).Some?
       <==> ValidUtf8(line) && exists k: nat :: k < |line| && line[k] == 58 && IsToken(line[..k])
  {
    var name := Before(line, 58);
    if ParseLine(line).Some? {
      assert line[|name|] == 58 && line[..|name|] == name;
    }
    if k: nat :| k < |line| && line[k] == 58 && IsToken(line[..k]) {
      TokenHasNoColon(line[..k]);
      BeforeIs(line, line[..k], 58);
    }
  }

  lemma TokenHasNoColon(name: bytes)
    requires IsToken(name)
    ensures 58 !in name
  {
    forall i | 0 <= i < |name| ensures name[i] != 58 { assert IsTchar(name[i]); }
  }

  /** Spaces, tabs and other ASCII whitespace. */
  predicate Blank(s: bytes) {
    forall i :: 0 <= i < |s| ==> 9 <= s[i] <= 13 || s[i] == 32
  }

  lemma {:induction false} TrimBlankStart(blank: bytes, s: bytes)
    requires Blank(blank)
    ensures TrimStart(blank + s) == TrimStart(s)
    decreases |blank|
  {
    if blank == [] {
      assert blank + s == s;
    } else {
      assert (blank + s)[1..] == blank[1..] + s;
      TrimBlankStart(blank[1..], s);
    }
  }

  lemma {:induction false} TrimBlankEnd(s: bytes, blank: bytes)
    requires Blank(blank)
    ensures TrimEnd(s + blank) == TrimEnd(s)
    decreases |blank|
  {
    if blank == [] {
      assert s + blank == s;
    } else {
      assert (s + blank)[..|s + blank| - 1] == s + blank[..|blank| - 1];
      TrimBlankEnd(s, blank[..|blank| - 1]);
    }
  }

  /** Whitespace around a value is taken off, whatever there is of it; the value itself is not touched. */
  lemma TrimAround(before: bytes, s: bytes, after: bytes)
    requires Blank(before) && Blank(after) && Trim(s) == s && s != []
    ensures Trim(before + s + after) == s
  {
    TrimmedEnds(s);
    Associative(before, s, after);
    TrimBlankStart(before, s + after);
    StartKept(s, after);
    TrimBlankEnd(s, after);
  }

  /** What follows a trimmed value does not make its beginning whitespace. */
  lemma StartKept(s: bytes, after: bytes)
    requires s != [] && LeadingSpace(s) == 0 && Blank(after)
    ensures TrimStart(s + after) == s + after
  {
    assert forall i :: 0 <= i < |after| ==> (s + after)[|s| + i] == after[i];
  }

  /** The first line of a block, parsed, and the octets it takes with its line end. */
  function NextLine(block: bytes): (r: Option<(Trailer, nat)>)
    ensures r.Some? ==> 2 <= r.value.1 <= |block|
  {
    match FindCrlf(block)
    case None => None
    case Some(end) =>
      match ParseLine(block[..end])
      case None => None
      case Some(t) => Some((t, end + 2))
  }

  /** Parses line by line; a bad line stops it, keeping what was parsed before. */
  function ParseLines(block: bytes, acc: seq<Trailer>): (r: (bool, seq<Trailer>))
    decreases |block|
  {
    if block == [] then (true, acc)
    else
      match NextLine(block)
      case None => (false, acc)
      case Some((t, used)) => ParseLines(block[used..], acc + [t])
  }
}
