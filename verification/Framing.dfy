/** Streams of self-delimiting frames, for any codec given as a pair of functions. */
module Framing {
  import opened Basics

  function EncodeAll<T>(enc: T -> bytes, xs: seq<T>): bytes {
    if xs == [] then [] else enc(xs[0]) + EncodeAll(enc, xs[1..])
  }

  /** Decodes until the decoder stops: what was decoded, why it stopped, and what is left. */
  function DecodeAll<T, E>(dec: bytes -> Result<(T, nat), E>, buf: bytes): (seq<T>, Option<E>, bytes)
    decreases |buf|
  {
    match dec(buf)
    case Err(e) => ([], Some(e), buf)
    case Ok((x, used)) =>
      if used == 0 || used > |buf| then ([], None, buf)
      else
        var (xs, e, rest) := DecodeAll(dec, buf[used..]);
        ([x] + xs, e, rest)
  }

  /** The codec frames `x`: whole it comes back whatever follows, cut short it is merely incomplete. */
  ghost predicate Framed<T, E(!new)>(enc: T -> bytes, dec: bytes -> Result<(T, nat), E>, incomplete: E, x: T) {
    && enc(x) != []
    && (forall rest: bytes :: dec(enc(x) + rest) == Ok((x, |enc(x)|)))
    && (forall n :: 0 <= n < |enc(x)| ==> dec(enc(x)[..n]) == Err(incomplete))
  }

  ghost predicate AllFramed<T, E(!new)>(enc: T -> bytes, dec: bytes -> Result<(T, nat), E>, incomplete: E, xs: seq<T>) {
    dec([]) == Err(incomplete) && forall i :: 0 <= i < |xs| ==> Framed(enc, dec, incomplete, xs[i])
  }

  lemma DecodeStep<T, E(!new)>(enc: T -> bytes, dec: bytes -> Result<(T, nat), E>, incomplete: E, x: T, rest: bytes)
    requires Framed(enc, dec, incomplete, x)
    ensures
      var (xs, e, left) := DecodeAll(dec, rest);
      DecodeAll(dec, enc(x) + rest) == ([x] + xs, e, left)
  {
    assert (enc(x) + rest)[|enc(x)|..] == rest;
  }

  /** Decoding the concatenated encodings returns exactly the sequence, with nothing left over. */
  lemma {:induction false} WholeStream<T, E(!new)>(
    enc: T -> bytes, dec: bytes -> Result<(T, nat), E>, incomplete: E, xs: seq<T>)
    requires AllFramed(enc, dec, incomplete, xs)
    ensures DecodeAll(dec, EncodeAll(enc, xs)) == (xs, Some(incomplete), [])
    decreases |xs|
  {
    if xs != [] {
      WholeStream(enc, dec, incomplete, xs[1..]);
      DecodeStep(enc, dec, incomplete, xs[0], EncodeAll(enc, xs[1..]));
      assert [xs[0]] + xs[1..] == xs;
    }
  }

  lemma PrefixSplit(wire: bytes, rest: bytes, n: nat, done: nat)
    requires |wire| + done <= n <= |wire + rest|
    ensures (wire + rest)[..n] == wire + rest[..n - |wire|]
    ensures (wire + rest)[|wire| + done..n] == rest[done..n - |wire|]
  {
  }

  lemma FirstThenRest<T>(enc: T -> bytes, xs: seq<T>, j: nat)
    requires j < |xs|
    ensures EncodeAll(enc, xs[..j + 1]) == enc(xs[0]) + EncodeAll(enc, xs[1..][..j])
    ensures xs[..j + 1] == [xs[0]] + xs[1..][..j]
  {
    assert xs[..j + 1][1..] == xs[1..][..j];
  }

  /** What must be reported of the first n octets of the stream, k frames of which are complete. */
  ghost predicate CompleteUpTo<T, E(!new)>(
    enc: T -> bytes, dec: bytes -> Result<(T, nat), E>, incomplete: E, xs: seq<T>, n: nat, k: nat) {
    && k <= |xs|
    && |EncodeAll(enc, xs[..k])| <= n <= |EncodeAll(enc, xs)|
    && (k < |xs| ==> n < |EncodeAll(enc, xs[..k])| + |enc(xs[k])|)
    && DecodeAll(dec, EncodeAll(enc, xs)[..n])
       == (xs[..k], Some(incomplete), EncodeAll(enc, xs)[|EncodeAll(enc, xs[..k])|..n])
  }

  /**
   * Of every prefix of a stream the decoder yields exactly the complete frames, then asks for
   * more, and leaves exactly the incomplete rest.
   */
  lemma {:induction false} EveryPrefix<T, E(!new)>(
    enc: T -> bytes, dec: bytes -> Result<(T, nat), E>, incomplete: E, xs: seq<T>, n: nat) returns (k: nat)
    requires AllFramed(enc, dec, incomplete, xs) && n <= |EncodeAll(enc, xs)|
    ensures CompleteUpTo(enc, dec, incomplete, xs, n, k)
    decreases |xs|
  {
    if xs == [] {
      k := 0;
      assert EncodeAll(enc, xs)[..n] == [];
    } else {
      var wire, rest := enc(xs[0]), EncodeAll(enc, xs[1..]);
      if n < |wire| {
        k := 0;
        assert (wire + rest)[..n] == wire[..n];
        assert Framed(enc, dec, incomplete, xs[0]);
        assert xs[..0] == [];
      } else {
        var j := EveryPrefix(enc, dec, incomplete, xs[1..], n - |wire|);
        k := j + 1;
        FirstThenRest(enc, xs, j);
        PrefixSplit(wire, rest, n, |EncodeAll(enc, xs[1..][..j])|);
        DecodeStep(enc, dec, incomplete, xs[0], rest[..n - |wire|]);
      }
    }
  }
}
