/** AES-256-GCM seen from outside: a deterministic cipher with three laws, and the ideal
    cipher that opens only what was sealed before. */
module Gcm {
  import opened ByteStrings

  type Key = k: Bytes | |k| == 32
    witness [0, 0, 0, 0, 0, 0, 0, 0, 0, 0, 0, 0, 0, 0, 0, 0, 0, 0, 0, 0, 0, 0, 0, 0, 0, 0, 0, 0, 0, 0, 0, 0]
  type Nonce = n: Bytes | |n| == 12 witness [0, 0, 0, 0, 0, 0, 0, 0, 0, 0, 0, 0]

  const TAG_LEN: nat := 16
  const CHUNK_SIZE: nat := 0x10_0000
  /** A full ciphertext chunk. */
  const CT_CHUNK: nat := 0x10_0010

  /** `seal(key, nonce, aad, message)` and `open(key, nonce, aad, ciphertext)`; messages longer
      than `limit` are refused. */
  datatype Scheme = Scheme(
    limit: nat,
    seal: (Key, Nonce, Bytes, Bytes) -> Option<Bytes>,
    open: (Key, Nonce, Bytes, Bytes) -> Option<Bytes>)
  {
    /** What GCM promises: it seals up to its limit, a ciphertext is its message and a tag, and a
        ciphertext opens exactly when it is the sealing of the message it opens to. */
    ghost predicate Lawful() {
      && CHUNK_SIZE <= limit
      && (forall k: Key, n: Nonce, a: Bytes, m: Bytes :: seal(k, n, a, m).Some? <==> |m| <= limit)
      && (forall k: Key, n: Nonce, a: Bytes, m: Bytes ::
            seal(k, n, a, m).Some? ==> |seal(k, n, a, m).value| == |m| + TAG_LEN)
      && (forall k: Key, n: Nonce, a: Bytes, m: Bytes ::
            seal(k, n, a, m).Some? ==> open(k, n, a, seal(k, n, a, m).value) == Some(m))
      && (forall k: Key, n: Nonce, a: Bytes, c: Bytes ::
            open(k, n, a, c).Some? ==> seal(k, n, a, open(k, n, a, c).value) == Some(c))
    }

    /** The ideal cipher after the sealings `log`: whatever else `open` would accept is refused. */
    function Guarded(log: seq<Sealed>): Scheme {
      this.(open := (k, n, a, c) => OpenLogged(log, k, n, a, c))
    }

    function OpenLogged(log: seq<Sealed>, k: Key, n: Nonce, a: Bytes, c: Bytes): Option<Bytes> {
      var r := open(k, n, a, c);
      if r.Some? && Sealed(k, n, a, r.value, c) in log then r else None
    }
  }

  /** One sealing: what went in and what came out. */
  datatype Sealed = Sealed(key: Key, nonce: Nonce, aad: Bytes, msg: Bytes, ct: Bytes) {
    /** This record is a sealing of `a`. */
    predicate From(a: Scheme) {
      a.seal(key, nonce, aad, msg) == Some(ct)
    }
  }

  ghost predicate AllFrom(a: Scheme, log: seq<Sealed>) {
    forall r :: r in log ==> r.From(a)
  }

  /** The ideal cipher opens a ciphertext to a message iff exactly that was sealed before. */
  lemma {:induction false} GuardedOpens(a: Scheme, log: seq<Sealed>, r: Sealed)
    requires a.Lawful() && AllFrom(a, log)
    ensures a.Guarded(log).open(r.key, r.nonce, r.aad, r.ct) == Some(r.msg) <==> r in log
  {
    if r in log {
      assert r.From(a);
    }
  }

  lemma {:induction false} SealedLength(a: Scheme, r: Sealed)
    requires a.Lawful() && r.From(a)
    ensures |r.ct| == |r.msg| + TAG_LEN
  {
  }

  // ---------- the laws are consistent ----------

  const ZERO_TAG: Bytes := [0, 0, 0, 0, 0, 0, 0, 0, 0, 0, 0, 0, 0, 0, 0, 0]

  /** A cipher for which the laws hold: the message itself and a tag of zeros. */
  function Reference(limit: nat): Scheme {
    Scheme(limit,
      (k, n, a, m) => if |m| <= limit then Some(m + ZERO_TAG) else None,
      (k, n, a, c) =>
        if TAG_LEN <= |c| <= limit + TAG_LEN && c[|c| - TAG_LEN..] == ZERO_TAG
        then Some(c[..|c| - TAG_LEN]) else None)
  }

  lemma {:induction false} ReferenceIsLawful(limit: nat)
    requires CHUNK_SIZE <= limit
    ensures Reference(limit).Lawful()
  {
    var r := Reference(limit);
    forall k: Key, n: Nonce, a: Bytes, m: Bytes | |m| <= limit
      ensures r.open(k, n, a, r.seal(k, n, a, m).value) == Some(m)
    {
      var c := m + ZERO_TAG;
      assert c[|m|..] == ZERO_TAG && c[..|m|] == m;
    }
    forall k: Key, n: Nonce, a: Bytes, c: Bytes | r.open(k, n, a, c).Some?
      ensures r.seal(k, n, a, r.open(k, n, a, c).value) == Some(c)
    {
      assert c == c[..|c| - TAG_LEN] + c[|c| - TAG_LEN..];
    }
  }

  // ---------- the cipher in use, with the record of what it sealed ----------

  class Cipher {
    const aead: Scheme
    var log: seq<Sealed>

    constructor (aead: Scheme)
      ensures this.aead == aead && log == []
    {
      this.aead := aead;
      log := [];
    }

    /** The ideal cipher of this moment. */
    function Ideal(): Scheme
      reads this
    {
      aead.Guarded(log)
    }

    method Encrypt(key: Key, nonce: Nonce, aad: Bytes, msg: Bytes) returns (ct: Option<Bytes>)
      modifies this
      ensures ct == aead.seal(key, nonce, aad, msg)
      ensures log == old(log) + if ct.Some? then [Sealed(key, nonce, aad, msg, ct.value)] else []
    {
      ct := aead.seal(key, nonce, aad, msg);
      if ct.Some? {
        log := log + [Sealed(key, nonce, aad, msg, ct.value)];
      }
    }

    method Decrypt(key: Key, nonce: Nonce, aad: Bytes, ct: Bytes) returns (msg: Option<Bytes>)
      ensures msg == Ideal().open(key, nonce, aad, ct)
    {
      msg := aead.open(key, nonce, aad, ct);
      if msg.Some? && Sealed(key, nonce, aad, msg.value, ct) !in log {
        msg := None;
      }
    }
  }
}
