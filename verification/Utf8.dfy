/** Well-formed UTF-8, as the byte-to-string conversions of the codecs accept it. */
module Utf8 {
  import opened Basics

  predicate Continuation(b: byte) {
    0x80 <= b <= 0xBF
  }

  /** The length of the well-formed sequence `s` starts with, or 0 when there is none. */
  function LeadLength(s: bytes): (n: nat)
    requires s != []
    ensures n <= |s|
  {
    if s[0] < 0x80 then 1
    else if 0xC2 <= s[0] <= 0xDF && |s| >= 2 && Continuation(s[1]) then 2
    else if 0xE0 <= s[0] <= 0xEF && |s| >= 3 && Continuation(s[1]) && Continuation(s[2])
         && (s[0] == 0xE0 ==> 0xA0 <= s[1]) && (s[0] == 0xED ==> s[1] <= 0x9F) then 3
    else if 0xF0 <= s[0] <= 0xF4 && |s| >= 4 && Continuation(s[1]) && Continuation(s[2]) && Continuation(s[3])
         && (s[0] == 0xF0 ==> 0x90 <= s[1]) && (s[0] == 0xF4 ==> s[1] <= 0x8F) then 4
    else 0
  }

  predicate ValidUtf8(s: bytes) {
    s == [] || (LeadLength(s) > 0 && ValidUtf8(s[LeadLength(s)..]))
  }

  /** Text appended to text is text. */
  lemma {:induction false} ValidConcat(a: bytes, b: bytes)
    requires ValidUtf8(a) && ValidUtf8(b)
    ensures ValidUtf8(a + b)
  {
    if a == [] {
      assert a + b == b;
    } else {
      var n := LeadLength(a);
      assert forall k :: 0 <= k < n ==> (a + b)[k] == a[k];
      assert (a + b)[n..] == a[n..] + b;
      ValidConcat(a[n..], b);
    }
  }

  /** Every ASCII string is text. */
  lemma {:induction false} AsciiValid(a: bytes)
    requires forall i :: 0 <= i < |a| ==> a[i] < 0x80
    ensures ValidUtf8(a)
  {
    if a != [] {
      AsciiValid(a[1..]);
    }
  }

  /** A character that starts a string of text may be taken off. */
  lemma {:induction false} AsciiPrefixOff(a: bytes, b: bytes)
    requires ValidUtf8(a + b) && forall i :: 0 <= i < |a| ==> a[i] < 0x80
    ensures ValidUtf8(b)
  {
    if a == [] {
      assert a + b == b;
    } else {
      assert (a + b)[1..] == a[1..] + b;
      AsciiPrefixOff(a[1..], b);
    }
  }

  /** Cutting text in front of a byte that starts a character leaves text. */
  lemma {:induction false} CutAtCharacter(a: bytes, c: bytes)
    requires ValidUtf8(a + c) && c != [] && !Continuation(c[0])
    ensures ValidUtf8(a)
  {
    if a != [] {
      var n := LeadLength(a + c);
      assert (a + c)[|a|] == c[0];
      assert n <= |a|;
      assert forall k :: 0 <= k < n ==> (a + c)[k] == a[k];
      assert (a + c)[n..] == a[n..] + c;
      CutAtCharacter(a[n..], c);
    }
  }

  // ----- against the definition by code points

  /** A Unicode scalar value: a code point that is not a surrogate. */
  predicate IsScalar(cp: int) {
    0 <= cp < 0xD800 || 0xE000 <= cp < 0x11_0000
  }

  function EncodeScalar(cp: int): (s: bytes)
    requires IsScalar(cp)
    ensures s != []
  {
    if cp < 0x80 then [cp]
    else if cp < 0x800 then [0xC0 + cp / 64, 0x80 + cp % 64]
    else if cp < 0x1_0000 then [0xE0 + cp / 4096, 0x80 + cp / 64 % 64, 0x80 + cp % 64]
    else [0xF0 + cp / 0x4_0000, 0x80 + cp / 4096 % 64, 0x80 + cp / 64 % 64, 0x80 + cp % 64]
  }

  lemma ShortScalarLeads(cp: int)
    requires 0 <= cp < 0xD800 || 0xE000 <= cp < 0x1_0000
    ensures LeadLength(EncodeScalar(cp)) == |EncodeScalar(cp)|
  {
  }

  lemma LongScalarLeads(cp: int)
    requires 0x1_0000 <= cp < 0x11_0000
    ensures LeadLength(EncodeScalar(cp)) == |EncodeScalar(cp)|
  {
  }

  lemma LeadIsLocal(s: bytes, rest: bytes)
    requires s != [] && LeadLength(s) == |s|
    ensures LeadLength(s + rest) == |s|
  {
    assert forall i :: 0 <= i < |s| ==> (s + rest)[i] == s[i];
  }

  lemma ScalarLeads(cp: int, rest: bytes)
    requires IsScalar(cp)
    ensures LeadLength(EncodeScalar(cp) + rest) == |EncodeScalar(cp)|
  {
    if cp < 0x1_0000 { ShortScalarLeads(cp); } else { LongScalarLeads(cp); }
    LeadIsLocal(EncodeScalar(cp), rest);
  }

  lemma ThreeOctets(l: int, a: int, b: int)
    requires 0 <= l < 16 && 0 <= a < 64 && 0 <= b < 64 && 0x800 <= (l * 64 + a) * 64 + b
    requires IsScalar((l * 64 + a) * 64 + b)
    ensures EncodeScalar((l * 64 + a) * 64 + b) == [0xE0 + l, 0x80 + a, 0x80 + b]
  {
    var high := l * 64 + a;
    var cp := high * 64 + b;
    assert cp / 64 == high && cp % 64 == b && high / 64 == l && high % 64 == a;
    assert cp / 4096 == high / 64;
  }

  lemma FourOctets(l: int, a: int, b: int, c: int)
    requires 0 <= l < 5 && 0 <= a < 64 && 0 <= b < 64 && 0 <= c < 64
    requires 0x1_0000 <= ((l * 64 + a) * 64 + b) * 64 + c < 0x11_0000
    ensures EncodeScalar(((l * 64 + a) * 64 + b) * 64 + c) == [0xF0 + l, 0x80 + a, 0x80 + b, 0x80 + c]
  {
    var top := l * 64 + a;
    var high := top * 64 + b;
    var cp := high * 64 + c;
    assert cp / 64 == high && cp % 64 == c && high / 64 == top && high % 64 == b;
    assert top / 64 == l && top % 64 == a;
    assert cp / 4096 == high / 64 && cp / 0x4_0000 == top / 64;
  }

  lemma LeadIsScalar(s: bytes) returns (cp: int)
    requires s != [] && LeadLength(s) > 0
    ensures IsScalar(cp) && s[..LeadLength(s)] == EncodeScalar(cp)
  {
    var n, lead: int := LeadLength(s), s[0];
    if n == 1 {
      cp := lead;
      assert s[..1] == [s[0]];
    } else if n == 2 {
      var a: int := s[1];
      cp := (lead - 0xC0) * 64 + (a - 0x80);
      assert s[..2] == [s[0], s[1]];
    } else if n == 3 {
      cp := ThreeLead(s);
    } else {
      cp := FourLead(s);
    }
  }

  lemma ThreeLead(s: bytes) returns (cp: int)
    requires s != [] && LeadLength(s) == 3
    ensures IsScalar(cp) && s[..3] == EncodeScalar(cp)
  {
    var l: int, a: int, b: int := s[0] - 0xE0, s[1] - 0x80, s[2] - 0x80;
    cp := (l * 64 + a) * 64 + b;
    ThreeOctets(l, a, b);
    assert s[..3] == [s[0], s[1], s[2]];
  }

  lemma FourLead(s: bytes) returns (cp: int)
    requires s != [] && LeadLength(s) == 4
    ensures IsScalar(cp) && s[..4] == EncodeScalar(cp)
  {
    var l: int, a: int, b: int, c: int := s[0] - 0xF0, s[1] - 0x80, s[2] - 0x80, s[3] - 0x80;
    cp := ((l * 64 + a) * 64 + b) * 64 + c;
    FourOctets(l, a, b, c);
    assert s[..4] == [s[0], s[1], s[2], s[3]];
  }

  predicate AllScalar(cps: seq<int>) {
    forall i :: 0 <= i < |cps| ==> IsScalar(cps[i])
  }

  function EncodeText(cps: seq<int>): bytes
    requires AllScalar(cps)
  {
    if cps == [] then [] else EncodeScalar(cps[0]) + EncodeText(cps[1..])
  }

  lemma {:induction false} EncodedIsValid(cps: seq<int>)
    requires AllScalar(cps)
    ensures ValidUtf8(EncodeText(cps))
  {
    if cps != [] {
      var head, rest := EncodeScalar(cps[0]), EncodeText(cps[1..]);
      EncodedIsValid(cps[1..]);
      ScalarLeads(cps[0], rest);
      Seam(head, rest);
    }
  }

  lemma {:induction false} ValidIsEncoded(s: bytes) returns (cps: seq<int>)
    requires ValidUtf8(s)
    ensures AllScalar(cps) && s == EncodeText(cps)
    decreases |s|
  {
    if s == [] {
      cps := [];
    } else {
      var n := LeadLength(s);
      var cp := LeadIsScalar(s);
      var rest := ValidIsEncoded(s[n..]);
      cps := [cp] + rest;
      assert cps[1..] == rest;
      assert s == s[..n] + s[n..];
    }
  }

  /** Text is exactly what encodes a sequence of scalar values. */
  lemma ValidIffEncoded(s: bytes)
    ensures ValidUtf8(s) <==> exists cps: seq<int> :: AllScalar(cps) && s == EncodeText(cps)
  {
    if ValidUtf8(s) {
      var cps := ValidIsEncoded(s);
    }
    if cps: seq<int> :| AllScalar(cps) && s == EncodeText(cps) {
      EncodedIsValid(cps);
    }
  }
}
