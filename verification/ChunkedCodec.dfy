/** The decoder and encoder objects. */
module ChunkedCodec {
  import opened Basics
  import opened ChunkedText
  import opened Chunked
  import opened ChunkedRoundTrip

  /** What parsing the rest comes to once the line at `pos` has been parsed. */
  lemma ParseLinesStep(block: bytes, pos: nat, acc: seq<Trailer>, line: Option<(Trailer, nat)>)
    requires pos < |block| && NextLine(block[pos..]) == line
    ensures line.None? ==> ParseLines(block[pos..], acc) == (false, acc)
    ensures line.Some? ==>
              pos < pos + line.value.1 <= |block|
              && ParseLines(block[pos..], acc) == ParseLines(block[pos + line.value.1..], acc + [line.value.0])
  {
    if line.Some? {
      assert block[pos..][line.value.1..] == block[pos + line.value.1..];
    }
  }

  type Outcome = (bool, seq<Trailer>)

  /** `rest` gives the outcome of the block from any position and trailers so far. */
  ghost predicate IsRest(block: bytes, rest: (nat, seq<Trailer>) -> Outcome) {
    forall pos: nat, acc {:trigger ParseLines(block[pos..], acc)} ::
      pos <= |block| ==> rest(pos, acc) == ParseLines(block[pos..], acc)
  }

  lemma RestAtEnd(block: bytes, rest: (nat, seq<Trailer>) -> Outcome, acc: seq<Trailer>)
    requires IsRest(block, rest)
    ensures rest(|block|, acc) == (true, acc)
  {
    assert ParseLines(block[|block|..], acc) == (true, acc);
  }

  /** The line at `pos`: it refuses the block, or leaves it to what follows. */
  method LineAt(block: bytes, pos: nat, ghost trailers: seq<Trailer>, ghost rest: (nat, seq<Trailer>) -> Outcome)
    returns (line: Option<(Trailer, nat)>)
    requires pos < |block| && IsRest(block, rest)
    ensures line.None? ==> rest(pos, trailers) == (false, trailers)
    ensures line.Some? ==>
              pos < pos + line.value.1 <= |block|
              && rest(pos, trailers) == rest(pos + line.value.1, trailers + [line.value.0])
  {
    line := NextLine(block[pos..]);
    ParseLinesStep(block, pos, trailers, line);
  }

  /** The line loop; lines before a bad one stay pushed. */
  method LineLoop(block: bytes, pushed: seq<Trailer>, ghost rest: (nat, seq<Trailer>) -> Outcome)
    returns (ok: bool, trailers: seq<Trailer>)
    requires IsRest(block, rest)
    ensures (ok, trailers) == rest(0, pushed)
  {
    trailers := pushed;
    var pos := 0;
    while pos < |block|
      invariant 0 <= pos <= |block| && rest(0, pushed) == rest(pos, trailers)
    {
      var line := LineAt(block, pos, trailers, rest);
      if line.None? {
        return false, trailers;
      }
      trailers, pos := trailers + [line.value.0], pos + line.value.1;
    }
    RestAtEnd(block, rest, trailers);
    return true, trailers;
  }

  method PushLines(block: bytes, pushed: seq<Trailer>) returns (ok: bool, trailers: seq<Trailer>)
    ensures (ok, trailers) == ParseLines(block, pushed)
  {
    ghost var rest := (pos: nat, acc: seq<Trailer>) =>
      if pos <= |block| then ParseLines(block[pos..], acc) else (true, acc);
    assert block[0..] == block;
    ok, trailers := LineLoop(block, pushed, rest);
  }

  class ChunkedDecoder {
    var state: State
    var buf: bytes
    var bodyChunks: seq<bytes>
    var trailers: seq<Trailer>

    ghost function View(): Decoder
      reads this
    {
      Decoder(state, buf, Flatten(bodyChunks), trailers)
    }

    constructor ()
      ensures View() == INITIAL && bodyChunks == []
    {
      state, buf, bodyChunks, trailers := ReadingSize, [], [], [];
    }

    /** `feed`: buffer the data, then run the machine until it blocks. */
    method Feed(data: bytes) returns (status: Status)
      modifies this
      ensures (status, View()) == Chunked.Feed(old(View()), data)
    {
      buf := buf + data;
      status := this.Process();
    }

    /** `take_body`: hands over the chunks and forgets them. */
    method TakeBody() returns (chunks: seq<bytes>)
      modifies this`bodyChunks
      ensures Flatten(chunks) == old(View().body)
      ensures View() == old(View()).(body := [])
    {
      chunks := bodyChunks;
      bodyChunks := [];
    }

    method Process() returns (status: Status)
      modifies this
      ensures (status, View()) == Chunked.Process(old(View()))
    {
      ghost var goal := Chunked.Process(View());
      while true
        invariant goal == Chunked.Process(View())
        decreases |buf|, Rank(state)
      {
        match state
        case ReadingSize =>
          var size := TryReadSize();
          if size.Invalid? || !size.done {
            return size;
          }
        case ReadingData(remaining) =>
          if remaining == 0 {
            state := ReadingDataCrlf;
            continue;
          }
          if buf == [] {
            return Ready(false);
          }
          var available := Min(|buf|, remaining);
          FlattenAppend(bodyChunks, buf[..available]);
          bodyChunks := bodyChunks + [buf[..available]];
          buf := buf[available..];
          state := ReadingData(remaining - available);
        case ReadingDataCrlf =>
          if |buf| < 2 {
            return Ready(false);
          }
          if buf[0] != CR || buf[1] != LF {
            return Invalid;
          }
          buf := buf[2..];
          state := ReadingSize;
        case ReadingTrailers =>
          status := TryReadTrailers();
          return;
        case Done =>
          return Ready(true);
      }
    }

    /** `Ready(true)`: a size line was consumed; `Ready(false)`: it is not complete yet. */
    method TryReadSize() returns (r: Status)
      modifies this`buf, this`state
      ensures r == Ready(true) ==> ReadSize(old(View())) == Again(View()) && |buf| < old(|buf|)
      ensures r != Ready(true) ==> ReadSize(old(View())) == Return(r, View())
    {
      var crlf := FindCrlf(buf);
      if crlf.None? {
        return Ready(false);
      }
      var size := ParseChunkSizeHex(Before(buf[..crlf.value], 59));
      if size.None? {
        return Invalid;
      }
      buf := buf[crlf.value + 2..];
      state := if size.value == 0 then ReadingTrailers else ReadingData(size.value);
      return Ready(true);
    }

    /** The terminating blank line, with or without trailers before it. */
    method TryReadTrailers() returns (r: Status)
      modifies this`buf, this`state, this`trailers
      ensures ReadTrailers(old(View())) == Return(r, View())
    {
      if |buf| < 2 {
        return Ready(false);
      }
      if buf[0] == CR && buf[1] == LF {
        buf := buf[2..];
        state := Done;
        return Ready(true);
      }
      var end := FindDoubleCrlf(buf);
      if end.None? {
        return Ready(false);
      }
      var ok;
      ok, trailers := PushLines(buf[..end.value + 2], trailers);
      if !ok {
        return Invalid;
      }
      buf := buf[end.value + 4..];
      state := Done;
      return Ready(true);
    }
  }

  class ChunkedEncoder {
    var finished: bool

    constructor ()
      ensures !finished
    {
      finished := false;
    }

    method Encode(data: bytes) returns (r: Option<bytes>)
      ensures r == if finished then None else Some(EncodeChunk(data))
    {
      if finished {
        return None;
      }
      if data == [] {
        return Some([]);
      }
      var out := Hex(|data|) + CRLF;
      out := out + data;
      out := out + CRLF;
      return Some(out);
    }

    method Finish(trailers: seq<Trailer>) returns (r: Option<bytes>)
      modifies this
      ensures finished
      ensures r == if old(finished) then None else Some(EncodeEnd(trailers))
    {
      if finished {
        return None;
      }
      finished := true;
      var out: bytes := [48, 13, 10];
      assert trailers[0..] == trailers;
      for i := 0 to |trailers|
        invariant finished
        invariant out + TrailerLines(trailers[i..]) == [48, 13, 10] + TrailerLines(trailers)
      {
        LinesStep(trailers, i, out);
        out := out + TrailerLine(trailers[i]) + CRLF;
      }
      assert out + [] == out;
      return Some(out + CRLF);
    }
  }

  lemma LinesStep(trailers: seq<Trailer>, i: nat, out: bytes)
    requires i < |trailers|
    ensures out + TrailerLines(trailers[i..])
         == out + TrailerLine(trailers[i]) + CRLF + TrailerLines(trailers[i + 1..])
  {
    assert trailers[i..][0] == trailers[i] && trailers[i..][1..] == trailers[i + 1..];
  }
}
