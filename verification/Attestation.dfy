/** The framing of signed messages (`auth.rs`): a length byte, the domain tag, the message. */
module Attestation {
  import opened ByteStrings

  // "filum-crypto/v1/attest"
  const ATTEST_DOMAIN: Bytes :=
    [102, 105, 108, 117, 109, 45, 99, 114, 121, 112, 116, 111, 47, 118, 49, 47, 97, 116, 116, 101, 115, 116]

  /** The frame of a message in a domain; the cast of the length to a byte wraps. */
  function Frame(domain: Bytes, message: Bytes): Bytes {
    [|domain| % 256] + domain + message
  }

  lemma {:induction false} DomainString()
    ensures |ATTEST_DOMAIN| == 22 && Spells(ATTEST_DOMAIN, "filum-crypto/v1/attest")
  {
  }

  lemma {:induction false} FrameParts(d: Bytes, m: Bytes)
    ensures var f, n := Frame(d, m), |d|;
            && |f| == 1 + n + |m| && f[0] == n % 256 && f[1..1 + n] == d && f[1 + n..] == m
            && f == [] + [n % 256] + d + m
  {
  }

  method DomainSeparated(message: Bytes) returns (buf: Bytes)
    ensures buf == Frame(ATTEST_DOMAIN, message)
    // a length byte, the domain, the message
    ensures |buf| == 23 + |message| && buf[0] == 22 && Spells(buf[1..23], "filum-crypto/v1/attest")
    ensures buf[23..] == message
  {
    DomainString();
    FrameParts(ATTEST_DOMAIN, message);
    hide Spells;
    hide ATTEST_DOMAIN;
    buf := [];
    buf := buf + [|ATTEST_DOMAIN| % 256];
    buf := buf + ATTEST_DOMAIN;
    buf := buf + message;
  }

  /** When exactly two frames are equal. */
  lemma {:induction false} FramesEqual(d: Bytes, m: Bytes, d': Bytes, m': Bytes)
    ensures Frame(d, m) == Frame(d', m') <==> |d| % 256 == |d'| % 256 && d + m == d' + m'
  {
    assert Frame(d, m) == [|d| % 256] + (d + m);
    assert Frame(d', m') == [|d'| % 256] + (d' + m');
    if Frame(d, m) == Frame(d', m') {
      SplitEqual([|d| % 256], [|d'| % 256], d + m, d' + m');
      assert [|d| % 256][0] == [|d'| % 256][0];
    }
  }

  /** Within the cap of 255 bytes the frame determines domain and message. */
  lemma {:induction false} FrameInjective(d: Bytes, m: Bytes, d': Bytes, m': Bytes)
    requires |d| <= 255 && |d'| <= 255
    ensures Frame(d, m) == Frame(d', m') <==> d == d' && m == m'
  {
    FramesEqual(d, m, d', m');
    if Frame(d, m) == Frame(d', m') {
      SplitEqual(d, d', m, m');
    }
  }

  /** Beyond it a frame would also be the frame of another domain and message. */
  lemma {:induction false} LongDomainsCollide(d: Bytes, m: Bytes) returns (d': Bytes, m': Bytes)
    requires |d| > 255
    ensures |d'| < |d| && Frame(d', m') == Frame(d, m)
  {
    d', m' := d[..|d| - 256], d[|d| - 256..] + m;
    assert d' + m' == d + m;
    FramesEqual(d', m', d, m);
  }

  /** Frames determine domain and message as long as domains are at most `cap` bytes long. */
  ghost predicate Separates(cap: nat) {
    forall d, m, d', m' :: |d| <= cap && |d'| <= cap && Frame(d, m) == Frame(d', m') ==> d == d' && m == m'
  }

  /** Were the domain an argument, 255 would be exactly the longest that keeps frames apart. */
  lemma {:induction false} CapIsExact(cap: nat)
    ensures Separates(cap) <==> cap <= 255
  {
    if cap <= 255 {
      forall d, m, d', m' | |d| <= cap && |d'| <= cap && Frame(d, m) == Frame(d', m')
        ensures d == d' && m == m'
      {
        FrameInjective(d, m, d', m');
      }
    } else {
      var d: Bytes := seq(256, _ => 0);
      var d', m' := LongDomainsCollide(d, []);
      assert Frame(d', m') == Frame(d, []);
    }
  }
}
