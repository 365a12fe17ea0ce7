/** The static table (appendix A of RFC 7541) and the connection theorem for it. */
module HpackStatic {
  import opened Basics
  import opened HpackTable
  import opened Hpack

  /** The octets of an ASCII literal. */
  function Octets(s: string): bytes {
    seq(|s|, i requires 0 <= i < |s| => (s[i] as int) % 256)
  }

  function StaticTable(): (st: seq<Header>)
    ensures |st| == 61
  {
    [
      Header(Octets(":authority"), Octets("")),
      Header(Octets(":method"), Octets("GET")),
      Header(Octets(":method"), Octets("POST")),
      Header(Octets(":path"), Octets("/")),
      Header(Octets(":path"), Octets("/index.html")),
      Header(Octets(":scheme"), Octets("http")),
      Header(Octets(":scheme"), Octets("https")),
      Header(Octets(":status"), Octets("200")),
      Header(Octets(":status"), Octets("204")),
      Header(Octets(":status"), Octets("206")),
      Header(Octets(":status"), Octets("304")),
      Header(Octets(":status"), Octets("400")),
      Header(Octets(":status"), Octets("404")),
      Header(Octets(":status"), Octets("500")),
      Header(Octets("accept-charset"), Octets("")),
      Header(Octets("accept-encoding"), Octets("gzip, deflate")),
      Header(Octets("accept-language"), Octets("")),
      Header(Octets("accept-ranges"), Octets("")),
      Header(Octets("accept"), Octets("")),
      Header(Octets("access-control-allow-origin"), Octets("")),
      Header(Octets("age"), Octets("")),
      Header(Octets("allow"), Octets("")),
      Header(Octets("authorization"), Octets("")),
      Header(Octets("cache-control"), Octets("")),
      Header(Octets("content-disposition"), Octets("")),
      Header(Octets("content-encoding"), Octets("")),
      Header(Octets("content-language"), Octets("")),
      Header(Octets("content-length"), Octets("")),
      Header(Octets("content-location"), Octets("")),
      Header(Octets("content-range"), Octets("")),
      Header(Octets("content-type"), Octets("")),
      Header(Octets("cookie"), Octets("")),
      Header(Octets("date"), Octets("")),
      Header(Octets("etag"), Octets("")),
      Header(Octets("expect"), Octets("")),
      Header(Octets("expires"), Octets("")),
      Header(Octets("from"), Octets("")),
      Header(Octets("host"), Octets("")),
      Header(Octets("if-match"), Octets("")),
      Header(Octets("if-modified-since"), Octets("")),
      Header(Octets("if-none-match"), Octets("")),
      Header(Octets("if-range"), Octets("")),
      Header(Octets("if-unmodified-since"), Octets("")),
      Header(Octets("last-modified"), Octets("")),
      Header(Octets("link"), Octets("")),
      Header(Octets("location"), Octets("")),
      Header(Octets("max-forwards"), Octets("")),
      Header(Octets("proxy-authenticate"), Octets("")),
      Header(Octets("proxy-authorization"), Octets("")),
      Header(Octets("range"), Octets("")),
      Header(Octets("referer"), Octets("")),
      Header(Octets("refresh"), Octets("")),
      Header(Octets("retry-after"), Octets("")),
      Header(Octets("server"), Octets("")),
      Header(Octets("set-cookie"), Octets("")),
      Header(Octets("strict-transport-security"), Octets("")),
      Header(Octets("transfer-encoding"), Octets("")),
      Header(Octets("user-agent"), Octets("")),
      Header(Octets("vary"), Octets("")),
      Header(Octets("via"), Octets("")),
      Header(Octets("www-authenticate"), Octets(""))
    ]
  }

  /** Dynamic entries are numbered after the 61 static ones: index 62 is the newest. */
  lemma DynamicIndicesStartAt62(t: Table, i: nat)
    requires i < |t.entries|
    ensures TableGet(StaticTable(), t, 62 + i) == Ok(t.entries[i])
  {
  }

  /**
   * A connection over this static table, from two empty tables with any limit up to 2^40 octets,
   * stays in lockstep over every sequence of header lists and limit changes of ordinary size.
   */
  lemma ConnectionLockstep(max: nat, ops: seq<SessionOp>)
    requires max <= 0x100_0000_0000 && ValidOps(ops) && Ordinary(ops)
    ensures Lockstep(StaticTable(), Table([], max), ops)
  {
    OrdinarySession(StaticTable(), Table([], max), ops);
  }
}
