/**
 * The chunked-coding decoder (section 7.1 of RFC 9112) as a step function, and the proof that
 * its result does not depend on how the input is cut into feeds.
 */
module Chunked {
  import opened Basics
  import opened ChunkedText

  datatype State = ReadingSize | ReadingData(remaining: nat) | ReadingDataCrlf | ReadingTrailers | Done

  /** The decoder with its body chunks joined: how the body was cut is not observable input. */
  datatype Decoder = Decoder(state: State, buf: bytes, body: bytes, trailers: seq<Trailer>)

  /** `feed`'s result: finished or not, or malformed input. */
  datatype Status = Ready(done: bool) | Invalid

  /** One turn of the `process` loop: go round again, or return. */
  datatype Turn = Again(next: Decoder) | Return(status: Status, final: Decoder)

  const INITIAL := Decoder(ReadingSize, [], [], [])

  function Rank(s: State): nat {
    match s
    case ReadingData(_) => 2
    case _ => 1
  }

  function ReadSize(d: Decoder): Turn {
    match FindCrlf(d.buf)
    case None => Return(Ready(false), d)
    case Some(end) =>
      match ParseHex(Before(d.buf[..end], 59))
      case None => Return(Invalid, d)
      case Some(size) =>
        Again(d.(buf := d.buf[end + 2..], state := if size == 0 then ReadingTrailers else ReadingData(size)))
  }

  function ReadData(d: Decoder): Turn
    requires d.state.ReadingData?
  {
    var n := d.state.remaining;
    if n == 0 then Again(d.(state := ReadingDataCrlf))
    else if d.buf == [] then Return(Ready(false), d)
    else
      var k := Min(|d.buf|, n);
      Again(Decoder(ReadingData(n - k), d.buf[k..], d.body + d.buf[..k], d.trailers))
  }

  function ReadDataCrlf(d: Decoder): Turn {
    if |d.buf| < 2 then Return(Ready(false), d)
    else if !CrlfAt(d.buf, 0) then Return(Invalid, d)
    else Again(d.(buf := d.buf[2..], state := ReadingSize))
  }

  function ReadTrailers(d: Decoder): Turn {
    if |d.buf| < 2 then Return(Ready(false), d)
    else if CrlfAt(d.buf, 0) then Return(Ready(true), d.(buf := d.buf[2..], state := Done))
    else
      match FindDoubleCrlf(d.buf)
      case None => Return(Ready(false), d)
      case Some(end) =>
        var (ok, parsed) := ParseLines(d.buf[..end + 2], d.trailers);
        if ok then Return(Ready(true), Decoder(Done, d.buf[end + 4..], d.body, parsed))
        else Return(Invalid, d.(trailers := parsed))
  }

  function Step(d: Decoder): (t: Turn)
    ensures t.Again? ==>
              |t.next.buf| < |d.buf| || (|t.next.buf| == |d.buf| && Rank(t.next.state) < Rank(d.state))
  {
    match d.state
    case ReadingSize => ReadSize(d)
    case ReadingData(_) => ReadData(d)
    case ReadingDataCrlf => ReadDataCrlf(d)
    case ReadingTrailers => ReadTrailers(d)
    case Done => Return(Ready(true), d)
  }

  /** The `process` loop; it stops because each turn consumes input or leaves the data state. */
  function Process(d: Decoder): (Status, Decoder)
    decreases |d.buf|, Rank(d.state)
  {
    match Step(d)
    case Again(next) => Process(next)
    case Return(status, final) => (status, final)
  }

  function Feed(d: Decoder, data: bytes): (Status, Decoder) {
    Process(More(d, data))
  }

  /** The decoder with more input buffered. */
  function More(d: Decoder, data: bytes): Decoder {
    d.(buf := d.buf + data)
  }

  // ----- split independence

  lemma CutPastSeam(x: bytes, data: bytes, body: bytes, k: nat)
    requires |x| <= k <= |x + data|
    ensures (x + data)[k..] == data[k - |x|..]
    ensures body + (x + data)[..k] == body + x + data[..k - |x|]
  {
  }

  lemma LaterTurnJoins(d: Decoder, next: Decoder, data: bytes)
    requires d.state.ReadingData? && 0 < |d.buf| < d.state.remaining && data != []
    requires next == Decoder(ReadingData(d.state.remaining - |d.buf|), [], d.body + d.buf, d.trailers)
    ensures ReadData(More(d, data)) == ReadData(More(next, data))
  {
    var n, x := d.state.remaining, d.buf;
    var k := Min(|x| + |data|, n);
    CutPastSeam(x, data, d.body, k);
    assert [] + data == data;
    var joined := Decoder(ReadingData(n - k), data[k - |x|..], d.body + x + data[..k - |x|], d.trailers);
    assert ReadData(More(d, data)) == Again(joined);
    assert ReadData(More(next, data)) == Again(joined);
  }

  /** A turn that consumed all it was given of a longer chunk joins up with the next feed. */
  lemma DataTurnJoins(d: Decoder, data: bytes)
    requires d.state.ReadingData? && 0 < |d.buf| < d.state.remaining
    ensures Step(d).Again?
    ensures Process(Step(d).next) == (Ready(false), Step(d).next)
    ensures Process(More(d, data)) == Process(More(Step(d).next, data))
  {
    var n, x := d.state.remaining, d.buf;
    var next := Decoder(ReadingData(n - |x|), [], d.body + x, d.trailers);
    assert x[|x|..] == [] && x[..|x|] == x;
    assert Step(d) == Again(next);
    if data == [] {
      assert More(d, data) == d && More(next, data) == next;
    } else {
      LaterTurnJoins(d, next, data);
    }
  }

  /** Any other turn is the same turn when more input is already there. */
  lemma TurnStable(d: Decoder, data: bytes)
    requires !(d.state.ReadingData? && 0 < |d.buf| < d.state.remaining)
    ensures match Step(d)
            case Again(next) => Step(More(d, data)) == Again(More(next, data))
            case Return(Invalid, _) => Step(More(d, data)).Return? && Step(More(d, data)).status.Invalid?
            case Return(Ready(true), final) => Step(More(d, data)) == Return(Ready(true), More(final, data))
            case Return(Ready(false), final) => final == d
  {
    match d.state {
      case ReadingSize => SizeTurnStable(d, data);
      case ReadingData(n) =>
        if n > 0 && d.buf != [] {
          assert (d.buf + data)[..n] == d.buf[..n];
          assert (d.buf + data)[n..] == d.buf[n..] + data;
        }
      case ReadingDataCrlf =>
        if |d.buf| >= 2 { assert (d.buf + data)[2..] == d.buf[2..] + data; }
      case ReadingTrailers => TrailerTurnStable(d, data);
      case Done =>
    }
  }

  lemma SizeTurnStable(d: Decoder, data: bytes)
    ensures match ReadSize(d)
            case Again(next) => ReadSize(More(d, data)) == Again(More(next, data))
            case Return(Invalid, _) => ReadSize(More(d, data)) == Return(Invalid, More(d, data))
            case Return(Ready(done), final) => !done && final == d
  {
    if FindCrlf(d.buf).Some? {
      var end := FindCrlf(d.buf).value;
      CrlfStable(d.buf, data);
      assert (d.buf + data)[..end] == d.buf[..end];
      assert (d.buf + data)[end + 2..] == d.buf[end + 2..] + data;
    }
  }

  lemma TrailerTurnStable(d: Decoder, data: bytes)
    ensures match ReadTrailers(d)
            case Again(_) => false
            case Return(Invalid, _) =>
              ReadTrailers(More(d, data)).Return? && ReadTrailers(More(d, data)).status.Invalid?
            case Return(Ready(true), final) => ReadTrailers(More(d, data)) == Return(Ready(true), More(final, data))
            case Return(Ready(false), final) => final == d
  {
    if |d.buf| >= 2 {
      if CrlfAt(d.buf, 0) {
        assert (d.buf + data)[2..] == d.buf[2..] + data;
      } else if FindDoubleCrlf(d.buf).Some? {
        var end := FindDoubleCrlf(d.buf).value;
        DoubleCrlfStable(d.buf, data);
        assert (d.buf + data)[..end + 2] == d.buf[..end + 2];
        assert (d.buf + data)[end + 4..] == d.buf[end + 4..] + data;
      }
    }
  }

  /** Stopping for more input and going on is the same as never having stopped. */
  lemma {:induction false} ProcessResumes(d: Decoder, data: bytes)
    ensures Resumes(d, data)
    decreases |d.buf|, Rank(d.state)
  {
    if d.state.ReadingData? && 0 < |d.buf| < d.state.remaining {
      DataTurnJoins(d, data);
    } else if Step(d).Again? {
      TurnStable(d, data);
      ProcessResumes(Step(d).next, data);
    } else {
      ReturnResumes(d, data);
    }
  }

  ghost predicate Resumes(d: Decoder, data: bytes) {
    && (Process(d).0.Ready? ==> Process(More(d, data)) == Process(More(Process(d).1, data)))
    && (Process(d).0.Invalid? ==> Process(More(d, data)).0.Invalid?)
  }

  lemma ReturnResumes(d: Decoder, data: bytes)
    requires Step(d).Return?
    ensures Resumes(d, data)
  {
    TurnStable(d, data);
    if Step(d).status == Ready(true) {
      assert Step(d).final.state.Done?;
    }
  }

  /**
   * Split independence: from any decoder state, feeding `a` and then `b` is feeding `a + b`,
   * in status, state, residual buffer, body and trailers; and a malformed `a` stays malformed.
   */
  lemma SplitIndependence(d: Decoder, a: bytes, b: bytes)
    ensures Feed(d, a).0.Ready? ==> Feed(Feed(d, a).1, b) == Feed(d, a + b)
    ensures Feed(d, a).0.Invalid? ==> Feed(d, a + b).0.Invalid?
  {
    ProcessResumes(More(d, a), b);
    Associative(d.buf, a, b);
  }

  /** Feeds in turn, stopping at the first error. */
  function FeedAll(d: Decoder, pieces: seq<bytes>): (Status, Decoder)
    requires pieces != []
    decreases |pieces|
  {
    var (status, d') := Feed(d, pieces[0]);
    if |pieces| == 1 || status.Invalid? then (status, d') else FeedAll(d', pieces[1..])
  }

  /** The result for any way of cutting the input is the result for the whole input at once. */
  lemma {:induction false} AnyCut(d: Decoder, pieces: seq<bytes>)
    requires pieces != []
    ensures FeedAll(d, pieces).0.Ready? || Feed(d, Flatten(pieces)).0.Ready? ==>
              FeedAll(d, pieces) == Feed(d, Flatten(pieces))
    decreases |pieces|
  {
    var a, rest := pieces[0], Flatten(pieces[1..]);
    SplitIndependence(d, a, rest);
    if |pieces| == 1 {
      assert pieces[1..] == [];
      assert a + rest == a;
    } else if Feed(d, a).0.Ready? {
      AnyCut(Feed(d, a).1, pieces[1..]);
    }
  }

  /** The body is only ever appended to, so chunks taken out between feeds are never seen again or lost. */
  lemma {:induction false} BodyOnlyGrows(d: Decoder, taken: bytes)
    ensures var (status, final) := Process(d);
      Process(d.(body := taken + d.body)) == (status, final.(body := taken + final.body))
    decreases |d.buf|, Rank(d.state)
  {
    var full := d.(body := taken + d.body);
    match Step(d) {
      case Again(next) =>
        assert Step(full) == Again(next.(body := taken + next.body)) by {
          if d.state.ReadingData? && d.state.remaining > 0 && d.buf != [] {
            Associative(taken, d.body, d.buf[..Min(|d.buf|, d.state.remaining)]);
          }
        }
        BodyOnlyGrows(next, taken);
      case Return(_, _) =>
    }
  }
}
