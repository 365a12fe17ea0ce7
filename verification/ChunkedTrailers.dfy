/** Which trailers survive the wire: exactly those the decoder can ever produce. */
module ChunkedTrailers {
  import opened Basics
  import opened Utf8
  import opened ChunkedText
  import opened Chunked
  import opened ChunkedRoundTrip

  ghost predicate NoCrlf(s: bytes) {
    forall j :: 0 <= j ==> !CrlfAt(s, j)
  }

  lemma NoCrlfWithin(s: bytes, from: nat, to: nat)
    requires from <= to <= |s| && NoCrlf(s)
    ensures NoCrlf(s[from..to])
  {
    forall j | 0 <= j ensures !CrlfAt(s[from..to], j) {
      assert !CrlfAt(s, from + j);
    }
  }

  // ----- trimming

  /** Trimming in front takes off whole characters. */
  lemma {:induction false} TrimStartIs(s: bytes) returns (n: nat)
    ensures n <= |s| && TrimStart(s) == s[n..] && LeadingSpace(s[n..]) == 0
    ensures ValidUtf8(s) ==> ValidUtf8(s[n..])
    decreases |s|
  {
    var k := LeadingSpace(s);
    if k == 0 {
      n := 0;
      assert s[0..] == s;
    } else {
      var m := TrimStartIs(s[k..]);
      n := k + m;
      assert s[k..][m..] == s[n..];
    }
  }

  lemma {:induction false} TrimEndIs(s: bytes) returns (n: nat)
    ensures n <= |s| && TrimEnd(s) == s[..n] && TrailingSpace(s[..n]) == 0
    ensures ValidUtf8(s) ==> ValidUtf8(s[..n])
    decreases |s|
  {
    var k := TrailingSpace(s);
    if k == 0 {
      n := |s|;
      assert s[..n] == s;
    } else {
      var front := s[..|s| - k];
      if ValidUtf8(s) {
        assert s == front + s[|s| - k..];
        CutAtCharacter(front, s[|s| - k..]);
      }
      n := TrimEndIs(front);
      assert front[..n] == s[..n];
    }
  }

  /** What does not start with whitespace does not start with it when cut short either. */
  lemma CutKeepsStart(s: bytes, n: nat)
    requires n <= |s| && LeadingSpace(s) == 0
    ensures LeadingSpace(s[..n]) == 0
  {
  }

  lemma NothingToTrim(s: bytes)
    requires LeadingSpace(s) == 0 && TrailingSpace(s) == 0
    ensures Trim(s) == s
  {
  }

  /** Trimming cuts a piece out, at characters, with no whitespace at its ends. */
  lemma TrimCuts(s: bytes) returns (from: nat, to: nat)
    ensures from <= to <= |s| && Trim(s) == s[from..to]
    ensures LeadingSpace(s[from..to]) == 0 && TrailingSpace(s[from..to]) == 0
    ensures ValidUtf8(s) ==> ValidUtf8(s[from..to])
  {
    from := TrimStartIs(s);
    var n := TrimEndIs(s[from..]);
    to := from + n;
    CutKeepsStart(s[from..], n);
    assert s[from..][..n] == s[from..to];
  }

  /** Trimmed text is text, stays free of line ends, and needs no more trimming. */
  lemma TrimIs(s: bytes)
    requires ValidUtf8(s) && NoCrlf(s)
    ensures ValidUtf8(Trim(s)) && NoCrlf(Trim(s)) && Trim(Trim(s)) == Trim(s)
  {
    var from, to := TrimCuts(s);
    NoCrlfWithin(s, from, to);
    NothingToTrim(s[from..to]);
  }

  /** A trailer line may have any whitespace around its value. */
  lemma SpacedLineParses(t: Trailer, before: bytes, after: bytes)
    requires Sendable(t) && t.value != [] && Blank(before) && Blank(after)
    ensures ParseLine(t.name + [58] + before + t.value + after) == Some(t)
  {
    var value := before + t.value + after;
    var line := t.name + [58] + value;
    assert line == t.name + [58] + before + t.value + after;
    TokenHasNoColon(t.name);
    BeforeIs(line, t.name, 58);
    assert line[|t.name| + 1..] == value;
    TrimAround(before, t.value, after);
    SpacedIsText(t, before, after);
  }

  lemma SpacedIsText(t: Trailer, before: bytes, after: bytes)
    requires Sendable(t) && Blank(before) && Blank(after)
    ensures ValidUtf8(t.name + [58] + (before + t.value + after))
  {
    var head := t.name + [58];
    forall i | 0 <= i < |head| ensures head[i] < 0x80 {
      if i < |t.name| { assert IsTchar(t.name[i]); }
    }
    AsciiValid(head);
    AsciiValid(before);
    AsciiValid(after);
    ValidConcat(before, t.value);
    ValidConcat(before + t.value, after);
    ValidConcat(head, before + t.value + after);
  }

  // ----- what the decoder can produce

  lemma NoCrlfAfter(s: bytes, from: nat)
    requires from <= |s| && NoCrlf(s)
    ensures NoCrlf(s[from..])
  {
    NoCrlfWithin(s, from, |s|);
    assert s[from..|s|] == s[from..];
  }

  lemma AfterAscii(s: bytes, n: nat)
    requires n <= |s| && ValidUtf8(s) && forall i :: 0 <= i < n ==> s[i] < 0x80
    ensures ValidUtf8(s[n..])
  {
    assert s == s[..n] + s[n..];
    AsciiPrefixOff(s[..n], s[n..]);
  }

  /** What follows a token and its colon is text without a line end. */
  lemma AfterName(line: bytes, name: bytes)
    requires ValidUtf8(line) && NoCrlf(line) && IsToken(name) && name < line && line[|name|] == 58
    ensures ValidUtf8(line[|name| + 1..]) && NoCrlf(line[|name| + 1..])
  {
    forall i | 0 <= i < |name| + 1 ensures line[i] < 0x80 {
      if i < |name| { assert line[i] == name[i] && IsTchar(name[i]); }
    }
    AfterAscii(line, |name| + 1);
    NoCrlfAfter(line, |name| + 1);
  }

  lemma ParsedLineSendable(line: bytes)
    requires NoCrlf(line) && ParseLine(line).Some?
    ensures Sendable(ParseLine(line).value)
  {
    var name := Before(line, 58);
    AfterName(line, name);
    TrimIs(line[|name| + 1..]);
  }

  lemma NextLineSendable(block: bytes)
    requires NextLine(block).Some?
    ensures Sendable(NextLine(block).value.0)
  {
    var end := FindCrlf(block).value;
    forall j | 0 <= j ensures !CrlfAt(block[..end], j) {
      assert CrlfAt(block[..end], j) ==> CrlfAt(block, j);
    }
    ParsedLineSendable(block[..end]);
  }

  lemma {:induction false} ParsedLinesSendable(block: bytes, acc: seq<Trailer>)
    requires AllSendable(acc)
    ensures AllSendable(ParseLines(block, acc).1)
    decreases |block|
  {
    if block != [] && NextLine(block).Some? {
      var (t, used) := NextLine(block).value;
      NextLineSendable(block);
      ParsedLinesSendable(block[used..], acc + [t]);
    }
  }

  lemma ReadSendable(d: Decoder)
    requires AllSendable(d.trailers)
    ensures ReadTrailers(d).Return? && AllSendable(ReadTrailers(d).final.trailers)
  {
    if FindDoubleCrlf(d.buf).Some? {
      ParsedLinesSendable(d.buf[..FindDoubleCrlf(d.buf).value + 2], d.trailers);
    }
  }

  /** Only the trailer section changes the trailers. */
  lemma OtherTurns(d: Decoder)
    requires !d.state.ReadingTrailers?
    ensures match Step(d)
            case Again(next) => next.trailers == d.trailers
            case Return(_, final) => final.trailers == d.trailers
  {
  }

  lemma {:induction false} ProcessSendable(d: Decoder)
    requires AllSendable(d.trailers)
    ensures AllSendable(Process(d).1.trailers)
    decreases |d.buf|, Rank(d.state)
  {
    if d.state.ReadingTrailers? {
      ReadSendable(d);
    } else {
      OtherTurns(d);
      if Step(d).Again? {
        ProcessSendable(Step(d).next);
      }
    }
  }

  /** Whatever is fed, every trailer a decoder holds is one the encoder can send. */
  lemma {:induction false} FedSendable(d: Decoder, feeds: seq<bytes>)
    requires feeds != [] && AllSendable(d.trailers)
    ensures AllSendable(FeedAll(d, feeds).1.trailers)
    decreases |feeds|
  {
    ProcessSendable(More(d, feeds[0]));
    var (status, next) := Feed(d, feeds[0]);
    if |feeds| > 1 && status.Ready? {
      FedSendable(next, feeds[1..]);
    }
  }

  /** Whatever trailers are written, the message comes back, in any pieces, if and only if all are sendable. */
  lemma RoundTripIff(pieces: seq<bytes>, trailers: seq<Trailer>, feeds: seq<bytes>)
    requires forall i :: 0 <= i < |pieces| ==> |pieces[i]| < U64_LIMIT
    requires feeds != [] && Flatten(feeds) == EncodeChunks(pieces) + EncodeEnd(trailers)
    ensures FeedAll(INITIAL, feeds) == (Ready(true), Decoder(Done, [], Flatten(pieces), trailers))
       <==> AllSendable(trailers)
  {
    FedSendable(INITIAL, feeds);
    if AllSendable(trailers) {
      RoundTrip(pieces, trailers, feeds);
    }
  }
}
