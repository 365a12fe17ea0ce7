/** The chunked encoder, and the proof that the decoder inverts it however its output is cut. */
module ChunkedRoundTrip {
  import opened Basics
  import opened Utf8
  import opened ChunkedText
  import opened Chunked

  // ----- the encoder's output

  function EncodeChunk(data: bytes): bytes {
    if data == [] then [] else Hex(|data|) + CRLF + data + CRLF
  }

  function EncodeChunks(pieces: seq<bytes>): bytes {
    if pieces == [] then [] else EncodeChunk(pieces[0]) + EncodeChunks(pieces[1..])
  }

  function TrailerLine(t: Trailer): bytes {
    t.name + [58, 32] + t.value
  }

  function TrailerLines(trailers: seq<Trailer>): bytes {
    if trailers == [] then [] else TrailerLine(trailers[0]) + CRLF + TrailerLines(trailers[1..])
  }

  function EncodeEnd(trailers: seq<Trailer>): bytes {
    [48, 13, 10] + TrailerLines(trailers) + CRLF
  }

  /** A trailer the wire format can carry: a token, and a trimmed text without a line end. */
  ghost predicate Sendable(t: Trailer) {
    && IsToken(t.name) && ValidUtf8(t.value) && Trim(t.value) == t.value
    && forall j :: 0 <= j ==> !CrlfAt(t.value, j)
  }

  ghost predicate AllSendable(trailers: seq<Trailer>) {
    forall i :: 0 <= i < |trailers| ==> Sendable(trailers[i])
  }

  // ----- one chunk

  /** A size line is found whole and its digits are all of it. */
  lemma SizeLine(n: nat, rest: bytes)
    requires n < U64_LIMIT
    ensures var buf := Hex(n) + CRLF + rest;
      FindCrlf(buf) == Some(|Hex(n)|) && ParseHex(Before(buf[..|Hex(n)|], 59)) == Some(n)
      && buf[|Hex(n)| + 2..] == rest
  {
    HexRoundTrip(n);
    var buf := Hex(n) + CRLF + rest;
    assert forall j :: 0 <= j < |Hex(n)| ==> buf[j] == Hex(n)[j];
    FirstCrlf(buf, |Hex(n)|);
    assert buf[..|Hex(n)|] == Hex(n);
    BeforeIs(Hex(n), Hex(n), 59);
  }

  lemma SizeTurn(n: nat, rest: bytes, body: bytes, trailers: seq<Trailer>)
    requires n < U64_LIMIT
    ensures Step(Decoder(ReadingSize, Hex(n) + CRLF + rest, body, trailers))
         == Again(Decoder(if n == 0 then ReadingTrailers else ReadingData(n), rest, body, trailers))
  {
    SizeLine(n, rest);
  }

  lemma DataTurns(data: bytes, rest: bytes, body: bytes, trailers: seq<Trailer>)
    requires data != []
    ensures Process(Decoder(ReadingData(|data|), data + CRLF + rest, body, trailers))
         == Process(Decoder(ReadingSize, rest, body + data, trailers))
  {
    var tail := data + CRLF + rest;
    assert tail[..|data|] == data && tail[|data|..] == CRLF + rest;
    var read := Decoder(ReadingData(0), CRLF + rest, body + data, trailers);
    assert Step(Decoder(ReadingData(|data|), tail, body, trailers)) == Again(read);
    var ended := read.(state := ReadingDataCrlf);
    assert Step(read) == Again(ended);
    assert (CRLF + rest)[2..] == rest;
    assert Step(ended) == Again(Decoder(ReadingSize, rest, body + data, trailers));
    assert Process(read) == Process(ended);
  }

  lemma ChunkDecodes(data: bytes, rest: bytes, body: bytes, trailers: seq<Trailer>)
    requires |data| < U64_LIMIT
    ensures Process(Decoder(ReadingSize, EncodeChunk(data) + rest, body, trailers))
         == Process(Decoder(ReadingSize, rest, body + data, trailers))
  {
    if data == [] {
      assert [] + rest == rest && body + [] == body;
    } else {
      var tail := data + CRLF + rest;
      assert EncodeChunk(data) + rest == Hex(|data|) + CRLF + tail;
      SizeTurn(|data|, tail, body, trailers);
      DataTurns(data, rest, body, trailers);
    }
  }

  // ----- chunks from other encoders

  /** A chunk extension: nothing, or a semicolon and anything without a line end. */
  ghost predicate IsExtension(ext: bytes) {
    (ext == [] || ext[0] == 59) && forall j :: 0 <= j ==> !CrlfAt(ext, j)
  }

  /** A line without a line end inside is found whole. */
  lemma LineFound(head: bytes, rest: bytes)
    requires forall j :: 0 <= j ==> !CrlfAt(head, j)
    ensures var buf := head + CRLF + rest;
      FindCrlf(buf) == Some(|head|) && buf[..|head|] == head && buf[|head| + 2..] == rest
  {
    var buf := head + CRLF + rest;
    forall j | 0 <= j < |head| ensures !CrlfAt(buf, j) {
      assert !CrlfAt(head, j);
      assert buf[j] == head[j];
      if j + 1 < |head| { assert buf[j + 1] == head[j + 1]; }
    }
    FirstCrlf(buf, |head|);
  }

  lemma SpelledHasNoLineEnd(line: bytes, ext: bytes, n: nat)
    requires Spells(line, n) && IsExtension(ext)
    ensures forall j :: 0 <= j ==> !CrlfAt(line + ext, j)
  {
    SpellingOctets(line, n);
    forall j | 0 <= j ensures !CrlfAt(line + ext, j) {
      if j >= |line| { assert !CrlfAt(ext, j - |line|); }
    }
  }

  lemma SpelledSize(line: bytes, ext: bytes, n: nat)
    requires |line| <= 16 && Spells(line, n) && IsExtension(ext)
    ensures ParseHex(Before(line + ext, 59)) == Some(n)
  {
    SpellingOctets(line, n);
    BeforeIs(line + ext, line, 59);
    ParseHexIff(line, n);
  }

  /**
   * A chunk may write its size in either case, with leading zeros, and add an extension: it decodes
   * as the encoder's own form does.
   */
  lemma SpelledChunkDecodes(
    line: bytes, ext: bytes, data: bytes, rest: bytes, body: bytes, trailers: seq<Trailer>)
    requires |line| <= 16 && Spells(line, |data|) && IsExtension(ext) && data != [] && |data| < U64_LIMIT
    ensures Process(Decoder(ReadingSize, line + ext + CRLF + (data + CRLF + rest), body, trailers))
         == Process(Decoder(ReadingSize, EncodeChunk(data) + rest, body, trailers))
  {
    var tail := data + CRLF + rest;
    SpelledHasNoLineEnd(line, ext, |data|);
    LineFound(line + ext, tail);
    SpelledSize(line, ext, |data|);
    assert Step(Decoder(ReadingSize, line + ext + CRLF + tail, body, trailers))
        == Again(Decoder(ReadingData(|data|), tail, body, trailers));
    DataTurns(data, rest, body, trailers);
    ChunkDecodes(data, rest, body, trailers);
  }

  /** A size line that spells no number of at most sixteen digits is refused. */
  lemma BadSizeRefused(line: bytes, ext: bytes, rest: bytes, body: bytes, trailers: seq<Trailer>)
    requires IsExtension(ext) && 59 !in line && (forall j :: 0 <= j ==> !CrlfAt(line + ext, j))
    requires forall n: nat :: |line| <= 16 ==> !Spells(line, n)
    ensures Process(Decoder(ReadingSize, line + ext + CRLF + rest, body, trailers)).0 == Invalid
  {
    LineFound(line + ext, rest);
    NoSpelling(line, ext);
  }

  lemma NoSpelling(line: bytes, ext: bytes)
    requires (ext == [] || ext[0] == 59) && 59 !in line && forall n: nat :: |line| <= 16 ==> !Spells(line, n)
    ensures ParseHex(Before(line + ext, 59)) == None
  {
    BeforeIs(line + ext, line, 59);
    if ParseHex(line).Some? { ParseHexIff(line, ParseHex(line).value); }
  }

  /** Chunk data not followed by a line end is refused. */
  lemma BadChunkEndRefused(data: bytes, rest: bytes, body: bytes, trailers: seq<Trailer>)
    requires data != [] && |rest| >= 2 && !CrlfAt(rest, 0)
    ensures Process(Decoder(ReadingData(|data|), data + rest, body, trailers)).0 == Invalid
  {
    Seam(data, rest);
    var read := Decoder(ReadingData(0), rest, body + data, trailers);
    assert Step(Decoder(ReadingData(|data|), data + rest, body, trailers)) == Again(read);
    var ended := read.(state := ReadingDataCrlf);
    assert Step(read) == Again(ended);
    assert Step(ended) == Return(Invalid, ended);
    assert Process(read) == Process(ended);
  }

  /** A message as it stands on the wire: a ten-octet chunk, and one trailer. */
  lemma WireExample()
    ensures EncodeChunk([48, 49, 50, 51, 52, 53, 54, 55, 56, 57])
         == [97, 13, 10, 48, 49, 50, 51, 52, 53, 54, 55, 56, 57, 13, 10]
    ensures EncodeEnd([Trailer([97], [98])]) == [48, 13, 10, 97, 58, 32, 98, 13, 10, 13, 10]
  {
    assert [Trailer([97], [98])][1..] == [];
  }

  /** The first piece of a message, split off its wire form and off its body. */
  lemma FirstPiece(pieces: seq<bytes>, rest: bytes, body: bytes)
    requires pieces != []
    ensures EncodeChunks(pieces) + rest == EncodeChunk(pieces[0]) + (EncodeChunks(pieces[1..]) + rest)
    ensures body + pieces[0] + Flatten(pieces[1..]) == body + Flatten(pieces)
  {
    Associative(EncodeChunk(pieces[0]), EncodeChunks(pieces[1..]), rest);
    Associative(body, pieces[0], Flatten(pieces[1..]));
  }

  lemma {:induction false} ChunksDecode(pieces: seq<bytes>, rest: bytes, body: bytes)
    requires forall i :: 0 <= i < |pieces| ==> |pieces[i]| < U64_LIMIT
    ensures Process(Decoder(ReadingSize, EncodeChunks(pieces) + rest, body, []))
         == Process(Decoder(ReadingSize, rest, body + Flatten(pieces), []))
    decreases |pieces|
  {
    if pieces == [] {
      assert [] + rest == rest && body + [] == body;
    } else {
      FirstPiece(pieces, rest, body);
      ChunkDecodes(pieces[0], EncodeChunks(pieces[1..]) + rest, body, []);
      ChunksDecode(pieces[1..], rest, body + pieces[0]);
    }
  }

  // ----- trailers

  /** No line end inside a sendable line, nor across its end. */
  lemma LineEnd(t: Trailer, rest: bytes)
    requires Sendable(t)
    ensures FindCrlf(TrailerLine(t) + CRLF + rest) == Some(|TrailerLine(t)|)
  {
    var line := TrailerLine(t);
    var buf := line + CRLF + rest;
    TrimmedEnds(t.value);
    forall j | 0 <= j < |line| ensures !CrlfAt(buf, j) {
      assert buf[j] == line[j];
      if j < |t.name| {
        assert line[j] == t.name[j] && IsTchar(t.name[j]);
      } else if j >= |t.name| + 2 {
        var k := j - |t.name| - 2;
        assert line[j] == t.value[k];
        assert !CrlfAt(t.value, k);
        if k + 1 < |t.value| { assert buf[j + 1] == t.value[k + 1]; }
      }
    }
    FirstCrlf(buf, |line|);
  }

  lemma LineSplits(t: Trailer)
    requires Sendable(t)
    ensures Before(TrailerLine(t), 58) == t.name
    ensures TrailerLine(t)[|t.name| + 1..] == [32] + t.value
  {
    var line := TrailerLine(t);
    assert 58 !in t.name by {
      forall i | 0 <= i < |t.name| ensures t.name[i] != 58 { assert IsTchar(t.name[i]); }
    }
    BeforeIs(line, t.name, 58);
  }

  lemma LineParses(t: Trailer)
    requires Sendable(t)
    ensures ParseLine(TrailerLine(t)) == Some(t)
  {
    LineSplits(t);
    TrimSpacePrefix(t.value);
    LineIsText(t);
  }

  lemma LineIsText(t: Trailer)
    requires Sendable(t)
    ensures ValidUtf8(TrailerLine(t))
  {
    var head := t.name + [58, 32];
    forall i | 0 <= i < |head| ensures head[i] < 0x80 {
      if i < |t.name| { assert IsTchar(t.name[i]); }
    }
    AsciiValid(head);
    ValidConcat(head, t.value);
  }

  /** One good line is parsed off the front of a block. */
  lemma LineStep(t: Trailer, rest: bytes, acc: seq<Trailer>)
    requires Sendable(t)
    ensures ParseLines(TrailerLine(t) + CRLF + rest, acc) == ParseLines(rest, acc + [t])
  {
    var line := TrailerLine(t);
    LineEnd(t, rest);
    LineParses(t);
    Associative(line, CRLF, rest);
    Seam(line, CRLF + rest);
    Middle(line, CRLF, rest);
  }

  lemma {:induction false} LinesParse(trailers: seq<Trailer>, acc: seq<Trailer>)
    requires AllSendable(trailers)
    ensures ParseLines(TrailerLines(trailers), acc) == (true, acc + trailers)
    decreases |trailers|
  {
    if trailers == [] {
      assert acc + trailers == acc;
    } else {
      LineStep(trailers[0], TrailerLines(trailers[1..]), acc);
      LinesParse(trailers[1..], acc + [trailers[0]]);
      AppendHead(acc, trailers);
    }
  }

  /** Lines start with a token character, so the blank line is found only after the last one. */
  lemma {:induction false} NoEarlyBlank(trailers: seq<Trailer>, rest: bytes, j: nat)
    requires AllSendable(trailers) && j + 2 < |TrailerLines(trailers)|
    ensures !DoubleCrlfAt(TrailerLines(trailers) + CRLF + rest, j)
    decreases |trailers|
  {
    var t, more := trailers[0], TrailerLines(trailers[1..]);
    var line := TrailerLine(t);
    var buf := TrailerLines(trailers) + CRLF + rest;
    var tail := more + CRLF + rest;
    assert buf == line + CRLF + tail;
    LineEnd(t, tail);
    if j < |line| {
      assert !CrlfAt(buf, j);
    } else if j == |line| {
      assert trailers[1..] != [];
      NextLineStarts(trailers[1..]);
      assert buf[j + 2] == more[0];
    } else if j >= |line| + 2 {
      var k := j - |line| - 2;
      NoEarlyBlank(trailers[1..], rest, k);
      assert forall i :: 0 <= i < |tail| ==> tail[i] == buf[i + |line| + 2];
    }
  }

  lemma NextLineStarts(trailers: seq<Trailer>)
    requires trailers != [] && AllSendable(trailers)
    ensures |TrailerLines(trailers)| > 4 && TrailerLines(trailers)[0] != CR
  {
    assert IsTchar(trailers[0].name[0]);
    assert TrailerLines(trailers)[0] == trailers[0].name[0];
  }

  lemma CrlfAtShift(a: bytes, b: bytes, i: nat)
    requires CrlfAt(b, i)
    ensures CrlfAt(a + b, |a| + i)
  {
  }

  lemma {:induction false} LinesEnd(trailers: seq<Trailer>)
    requires trailers != []
    ensures |TrailerLines(trailers)| >= 2
    ensures CrlfAt(TrailerLines(trailers), |TrailerLines(trailers)| - 2)
    decreases |trailers|
  {
    var line, more := TrailerLine(trailers[0]) + CRLF, TrailerLines(trailers[1..]);
    if |trailers| == 1 {
      assert line + more == line;
      CrlfAtShift(TrailerLine(trailers[0]), CRLF, 0);
    } else {
      LinesEnd(trailers[1..]);
      CrlfAtShift(line, more, |more| - 2);
    }
  }

  lemma BlankFound(trailers: seq<Trailer>, rest: bytes)
    requires trailers != [] && AllSendable(trailers)
    ensures FindDoubleCrlf(TrailerLines(trailers) + CRLF + rest) == Some(|TrailerLines(trailers)| - 2)
  {
    var lines := TrailerLines(trailers);
    var buf := lines + CRLF + rest;
    NextLineStarts(trailers);
    LinesEnd(trailers);
    var end := |lines| - 2;
    assert buf[end] == lines[end] && buf[end + 1] == lines[end + 1];
    forall j | 0 <= j < end ensures !DoubleCrlfAt(buf, j) {
      NoEarlyBlank(trailers, rest, j);
    }
    FirstDoubleCrlf(buf, end);
  }

  lemma SomeTrailersDecode(trailers: seq<Trailer>, rest: bytes, body: bytes)
    requires AllSendable(trailers) && trailers != []
    ensures ReadTrailers(Decoder(ReadingTrailers, TrailerLines(trailers) + CRLF + rest, body, []))
         == Return(Ready(true), Decoder(Done, rest, body, trailers))
  {
    var lines := TrailerLines(trailers);
    NextLineStarts(trailers);
    BlankFound(trailers, rest);
    LinesParse(trailers, []);
    assert [] + trailers == trailers;
    Associative(lines, CRLF, rest);
    Seam(lines, CRLF + rest);
    Middle(lines, CRLF, rest);
  }

  /** The terminating section: the trailers come back in order. */
  lemma TrailersDecode(trailers: seq<Trailer>, rest: bytes, body: bytes)
    requires AllSendable(trailers)
    ensures ReadTrailers(Decoder(ReadingTrailers, TrailerLines(trailers) + CRLF + rest, body, []))
         == Return(Ready(true), Decoder(Done, rest, body, trailers))
  {
    if trailers == [] {
      assert (CRLF + rest)[2..] == rest;
      assert TrailerLines(trailers) + CRLF + rest == CRLF + rest;
    } else {
      SomeTrailersDecode(trailers, rest, body);
    }
  }

  lemma EndSplits(trailers: seq<Trailer>, rest: bytes)
    ensures EncodeEnd(trailers) + rest == Hex(0) + CRLF + (TrailerLines(trailers) + CRLF + rest)
  {
    assert Hex(0) == [48];
  }

  lemma EndDecodes(trailers: seq<Trailer>, rest: bytes, body: bytes)
    requires AllSendable(trailers)
    ensures Process(Decoder(ReadingSize, EncodeEnd(trailers) + rest, body, []))
         == (Ready(true), Decoder(Done, rest, body, trailers))
  {
    var tail := TrailerLines(trailers) + CRLF + rest;
    EndSplits(trailers, rest);
    SizeTurn(0, tail, body, []);
    TrailersDecode(trailers, rest, body);
  }

  /** The whole message, with whatever bytes follow it on the connection left in the buffer. */
  lemma MessageDecodes(pieces: seq<bytes>, trailers: seq<Trailer>, rest: bytes)
    requires AllSendable(trailers) && forall i :: 0 <= i < |pieces| ==> |pieces[i]| < U64_LIMIT
    ensures Feed(INITIAL, EncodeChunks(pieces) + EncodeEnd(trailers) + rest)
         == (Ready(true), Decoder(Done, rest, Flatten(pieces), trailers))
  {
    var tail := EncodeEnd(trailers) + rest;
    var wire := EncodeChunks(pieces) + EncodeEnd(trailers) + rest;
    assert [] + wire == EncodeChunks(pieces) + tail;
    ChunksDecode(pieces, tail, []);
    assert [] + Flatten(pieces) == Flatten(pieces);
    EndDecodes(trailers, rest, Flatten(pieces));
  }

  /**
   * Round trip: the encoder's output, fed in any pieces whatever, reaches Done with the
   * concatenated body and the same trailers.
   */
  lemma RoundTrip(pieces: seq<bytes>, trailers: seq<Trailer>, feeds: seq<bytes>)
    requires AllSendable(trailers) && forall i :: 0 <= i < |pieces| ==> |pieces[i]| < U64_LIMIT
    requires feeds != [] && Flatten(feeds) == EncodeChunks(pieces) + EncodeEnd(trailers)
    ensures FeedAll(INITIAL, feeds) == (Ready(true), Decoder(Done, [], Flatten(pieces), trailers))
  {
    MessageDecodes(pieces, trailers, []);
    assert EncodeChunks(pieces) + EncodeEnd(trailers) + [] == EncodeChunks(pieces) + EncodeEnd(trailers);
    AnyCut(INITIAL, feeds);
  }
}
