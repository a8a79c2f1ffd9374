/** The chunked framed format (`blob.rs`): header, key wrap, and the in-memory codec. */
module Blob {
  import opened ByteStrings
  import opened Context
  import opened Gcm
  import opened Stream
  import opened Segments

  const VERSION: Byte := 2
  const WRAPPED_KEY_LEN: nat := 60
  const HEADER_LEN: nat := 72

  type WrappedKey = w: Bytes | |w| == WRAPPED_KEY_LEN witness seq(WRAPPED_KEY_LEN, _ => 0)

  /** What the operating system's generator delivers to one encryption; a draw may fail. */
  datatype Entropy = Entropy(dataKey: Option<Key>, prefix: Option<Prefix>, wrapIv: Option<Nonce>)

  // ---------- what the encoder produces ----------

  function Header(wrapped: WrappedKey, prefix: Prefix): (h: Bytes)
    ensures |h| == HEADER_LEN
  {
    [VERSION] + wrapped + prefix + Be32(CHUNK_SIZE)
  }

  /** The AAD of the key wrap for a header with this nonce prefix. */
  function HeaderAad(id: Bytes, prefix: Prefix): Result<Bytes> {
    WrapAad(id, VERSION, prefix, Be32(CHUNK_SIZE))
  }

  /** What is fixed before the first segment: the session, the header and the sealing of the key. */
  datatype Start = Start(session: Result<Session>, header: Bytes, records: seq<Sealed>)

  function StartBlob(a: Scheme, wk: Key, id: Bytes, e: Entropy): Start {
    match SegmentAad(id)
    case Err(x) => Start(Err(x), [], [])
    case Ok(segAad) =>
      if e.dataKey.None? || e.prefix.None? || e.wrapIv.None? then Start(Err(Randomness), [], [])
      else
        var dk, prefix, iv := e.dataKey.value, e.prefix.value, e.wrapIv.value;
        var wrapAad := HeaderAad(id, prefix).value;
        match a.seal(wk, iv, wrapAad, dk)
        case None => Start(Err(Aead), [], [])
        case Some(ct) =>
          var records := [Sealed(wk, iv, wrapAad, dk, ct)];
          if |ct| != WRAPPED_KEY_LEN - 12 then Start(Err(Aead), [], records)
          else Start(Ok(Session(dk, prefix, segAad)), Header(iv + ct, prefix), records)
  }

  /** The outcome of an encryption and the sealings it made. */
  datatype Encoding = Encoding(result: Result<Bytes>, records: seq<Sealed>)

  function EncodeBlob(a: Scheme, msg: Bytes, wk: Key, id: Bytes, e: Entropy): Encoding {
    var start := StartBlob(a, wk, id, e);
    match start.session
    case Err(x) => Encoding(Err(x), start.records)
    case Ok(s) =>
      var body := SealBody(a, s, 0, msg);
      Encoding(if body.complete then Ok(start.header + Cts(body.records)) else Err(Aead),
               start.records + body.records)
  }

  // ---------- what the decoders accept ----------

  /** The session a header gives access to. */
  function UnlockHeader(a: Scheme, header: Bytes, wk: Key, id: Bytes): Result<Session>
    requires |header| == HEADER_LEN
  {
    match SegmentAad(id)
    case Err(x) => Err(x)
    case Ok(segAad) =>
      var prefix: Prefix := header[61..68];
      if header[0] != VERSION || FromBigEndian(header[68..]) != CHUNK_SIZE then Err(Aead)
      else
        match a.open(wk, header[1..13], HeaderAad(id, prefix).value, header[13..61])
        case None => Err(Aead)
        case Some(dk) => if |dk| != 32 then Err(Aead) else Ok(Session(dk, prefix, segAad))
  }

  function DecodeBody(a: Scheme, mode: Mode, s: Session, body: Bytes): Result<Bytes> {
    if mode == Slices && body == [] then Err(Aead)
    else
      match OpenBody(a, mode, s, 0, body)
      case None => Err(Aead)
      case Some(msg) => Ok(msg)
  }

  /** The meaning of `decrypt_chunked` (`Slices`) and, without I/O failures, of
      `decrypt_file_chunked` (`Lookahead`). */
  function DecodeBlob(a: Scheme, mode: Mode, framed: Bytes, wk: Key, id: Bytes): Result<Bytes> {
    match SegmentAad(id)
    case Err(x) => Err(x)
    case Ok(_) =>
      if |framed| < HEADER_LEN then Err(if mode == Slices then Aead else Io)
      else
        match UnlockHeader(a, framed[..HEADER_LEN], wk, id)
        case Err(x) => Err(x)
        case Ok(s) => DecodeBody(a, mode, s, framed[HEADER_LEN..])
  }

  // ---------- the in-memory codec ----------

  method WrapDataKey(cipher: Cipher, dataKey: Key, wrappingKey: Key, aad: Bytes, wrapIv: Option<Nonce>)
    returns (r: Result<WrappedKey>)
    modifies cipher
    ensures wrapIv.None? ==> r == Err(Randomness) && cipher.log == old(cipher.log)
    ensures wrapIv.Some? ==>
              var ct := cipher.aead.seal(wrappingKey, wrapIv.value, aad, dataKey);
              && (ct.None? ==> r == Err(Aead) && cipher.log == old(cipher.log))
              && (ct.Some? ==>
                    && cipher.log == old(cipher.log) + [Sealed(wrappingKey, wrapIv.value, aad, dataKey, ct.value)]
                    && (if |ct.value| == 48 then r == Ok(wrapIv.value + ct.value) else r == Err(Aead)))
  {
    if wrapIv.None? {
      return Err(Randomness);
    }
    var ct := cipher.Encrypt(wrappingKey, wrapIv.value, aad, dataKey);
    if ct.None? {
      return Err(Aead);
    }
    if |ct.value| != WRAPPED_KEY_LEN - 12 {
      return Err(Aead);
    }
    return Ok(wrapIv.value + ct.value);
  }

  method UnwrapDataKey(cipher: Cipher, wrapped: Bytes, wrappingKey: Key, aad: Bytes) returns (r: Result<Key>)
    ensures |wrapped| != WRAPPED_KEY_LEN ==> r == Err(Aead)
    ensures |wrapped| == WRAPPED_KEY_LEN ==>
              var dk := cipher.Ideal().open(wrappingKey, wrapped[..12], aad, wrapped[12..]);
              r == if dk.Some? && |dk.value| == 32 then Ok(dk.value) else Err(Aead)
  {
    if |wrapped| != WRAPPED_KEY_LEN {
      return Err(Aead);
    }
    var dk := cipher.Decrypt(wrappingKey, wrapped[..12], aad, wrapped[12..]);
    if dk.None? || |dk.value| != 32 {
      return Err(Aead);
    }
    return Ok(dk.value);
  }

  method WriteHeader(out: Bytes, wrapped: WrappedKey, prefix: Prefix) returns (out': Bytes)
    ensures out' == out + Header(wrapped, prefix) == out + [2] + wrapped + prefix + [0, 16, 0, 0]
  {
    Be32Bytes(CHUNK_SIZE);
    out' := out;
    out' := out' + [VERSION];
    out' := out' + wrapped;
    out' := out' + prefix;
    out' := out' + Be32(CHUNK_SIZE);
  }

  /** The common opening of both encoders: validation, randomness, key wrap. */
  method BeginBlob(cipher: Cipher, wk: Key, id: Bytes, e: Entropy)
    returns (session: Result<Session>, wrapped: WrappedKey)
    modifies cipher
    ensures var start := StartBlob(cipher.aead, wk, id, e);
            && session == start.session
            && cipher.log == old(cipher.log) + start.records
            && (session.Ok? ==> Header(wrapped, session.value.prefix) == start.header)
  {
    wrapped := seq(WRAPPED_KEY_LEN, _ => 0);
    var segAad := BuildSegmentAad(id);
    if segAad.Err? {
      return Err(segAad.error), wrapped;
    }
    if e.dataKey.None? {
      return Err(Randomness), wrapped;
    }
    if e.prefix.None? {
      return Err(Randomness), wrapped;
    }
    var wrapAad := BuildWrapAad(id, VERSION, e.prefix.value, Be32(CHUNK_SIZE));
    var w := WrapDataKey(cipher, e.dataKey.value, wk, wrapAad.value, e.wrapIv);
    if w.Err? {
      return Err(w.error), wrapped;
    }
    return Ok(Session(e.dataKey.value, e.prefix.value, segAad.value)), w.value;
  }

  method EncryptChunked(cipher: Cipher, plaintext: Bytes, wk: Key, id: Bytes, e: Entropy)
    returns (r: Result<Bytes>)
    modifies cipher
    ensures r == EncodeBlob(cipher.aead, plaintext, wk, id, e).result
    ensures cipher.log == old(cipher.log) + EncodeBlob(cipher.aead, plaintext, wk, id, e).records
  {
    var session, wrapped := BeginBlob(cipher, wk, id, e);
    if session.Err? {
      return Err(session.error);
    }
    var out := WriteHeader([], wrapped, session.value.prefix);
    ghost var start, body := StartBlob(cipher.aead, wk, id, e), SealBody(cipher.aead, session.value, 0, plaintext);
    assert [] + start.header == start.header;
    r := EncryptSegments(cipher, session.value, plaintext, out);
    assert old(cipher.log) + start.records + body.records == old(cipher.log) + (start.records + body.records);
  }

  /** The loop of `encrypt_chunked`: a "next" segment for each full chunk, then the last one. */
  method EncryptSegments(cipher: Cipher, s: Session, plaintext: Bytes, header: Bytes) returns (r: Result<Bytes>)
    modifies cipher
    ensures var body := SealBody(cipher.aead, s, 0, plaintext);
            && r == (if body.complete then Ok(header + Cts(body.records)) else Err(Aead))
            && cipher.log == old(cipher.log) + body.records
  {
    hide SealBody, SegmentNonce, Sent;
    var out := header;
    var enc := new Encryptor(cipher, s.key, s.prefix);
    ghost var a, log, whole := cipher.aead, cipher.log, SealBody(cipher.aead, s, 0, plaintext);
    ghost var rest, done := plaintext, [];
    SentNothing(a, s, plaintext, log, header);
    var fullChunks := |plaintext| / CHUNK_SIZE;
    for i := 0 to fullChunks
      invariant enc.Valid() && enc.position == i && fresh(enc)
      invariant enc.cipher == cipher && enc.key == s.key && enc.prefix == s.prefix
      invariant rest == plaintext[i * CHUNK_SIZE..]
      invariant Sent(whole, a, s, rest, i, done, log, cipher.log, header, out)
    {
      var start := i * CHUNK_SIZE;
      NextChunk(plaintext, start);
      SentNext(whole, a, s, rest, i, done, log, cipher.log, header, out);
      SentSoFar(whole, a, s, rest, i, done, log, cipher.log, header, out);
      var chunk := plaintext[start..start + CHUNK_SIZE];
      var ct := enc.EncryptNext(chunk, s.aad);
      if ct.None? {
        return Err(Aead);
      }
      out := out + ct.value;
      rest, done := rest[CHUNK_SIZE..], done + [s.Record(i, false, chunk, ct.value)];
    }
    SentLast(whole, a, s, rest, fullChunks, done, log, cipher.log, header, out);
    SentSoFar(whole, a, s, rest, fullChunks, done, log, cipher.log, header, out);
    var ct := enc.EncryptLast(plaintext[fullChunks * CHUNK_SIZE..], s.aad);
    if ct.None? {
      return Err(Aead);
    }
    out := out + ct.value;
    return Ok(out);
  }

  lemma {:induction false} NextChunk(m: Bytes, k: nat)
    requires k + CHUNK_SIZE <= |m|
    ensures m[k..][..CHUNK_SIZE] == m[k..k + CHUNK_SIZE]
    ensures m[k..][CHUNK_SIZE..] == m[k + CHUNK_SIZE..]
  {
  }

  method DecryptChunked(cipher: Cipher, framed: Bytes, wk: Key, id: Bytes) returns (r: Result<Bytes>)
    ensures r == DecodeBlob(cipher.Ideal(), Slices, framed, wk, id)
  {
    var segAad := BuildSegmentAad(id);
    if segAad.Err? {
      return Err(segAad.error);
    }
    if |framed| < HEADER_LEN || framed[0] != VERSION {
      return Err(Aead);
    }
    var session := ReadHeader(cipher, framed[..HEADER_LEN], wk, id);
    if session.Err? {
      return Err(session.error);
    }
    var body := framed[HEADER_LEN..];
    if |body| == 0 {
      return Err(Aead);
    }
    r := DecryptSegments(cipher, session.value, body);
  }

  /** The loop of `decrypt_chunked` over the chunks of the body. */
  method DecryptSegments(cipher: Cipher, s: Session, body: Bytes) returns (r: Result<Bytes>)
    requires body != []
    ensures r == DecodeBody(cipher.Ideal(), Slices, s, body)
  {
    var dec := new Decryptor(cipher, s.key, s.prefix);
    var out: Bytes := [];
    var rest := body;
    ghost var a := cipher.Ideal();
    hide Scheme.Guarded, Scheme.OpenLogged, SegmentNonce;
    PrependNothing(OpenBody(a, Slices, s, 0, body));
    while true
      invariant dec.Valid() && fresh(dec) && rest != []
      invariant dec.cipher == cipher && dec.key == s.key && dec.prefix == s.prefix
      invariant OpenBody(a, Slices, s, 0, body) == Prepend(out, OpenBody(a, Slices, s, dec.position, rest))
      decreases |rest|
    {
      // `chunks` yields a shorter chunk only at the end.
      var chunk := if |rest| <= CT_CHUNK then rest else rest[..CT_CHUNK];
      rest := rest[|chunk|..];
      if rest != [] {
        var msg := dec.DecryptNext(chunk, s.aad);
        if msg.None? {
          return Err(Aead);
        }
        PrependPrepend(out, msg.value, OpenBody(a, Slices, s, dec.position, rest));
        out := out + msg.value;
      } else {
        var msg := dec.DecryptLast(chunk, s.aad);
        if msg.None? {
          return Err(Aead);
        }
        out := out + msg.value;
        break;
      }
    }
    return Ok(out);
  }

  function Prepend(out: Bytes, rest: Option<Bytes>): Option<Bytes> {
    if rest.Some? then Some(out + rest.value) else None
  }

  lemma {:induction false} PrependNothing(rest: Option<Bytes>)
    ensures Prepend([], rest) == rest
  {
    if rest.Some? {
      assert [] + rest.value == rest.value;
    }
  }

  lemma {:induction false} PrependPrepend(x: Bytes, y: Bytes, rest: Option<Bytes>)
    ensures Prepend(x, Prepend(y, rest)) == Prepend(x + y, rest)
  {
    if rest.Some? {
      assert x + (y + rest.value) == x + y + rest.value;
    }
  }

  /** Parsing of the header, common to both decoders. */
  method ReadHeader(cipher: Cipher, header: Bytes, wk: Key, id: Bytes) returns (r: Result<Session>)
    requires |header| == HEADER_LEN && SegmentAad(id).Ok?
    ensures r == UnlockHeader(cipher.Ideal(), header, wk, id)
  {
    if header[0] != VERSION {
      return Err(Aead);
    }
    var noncePrefix: Prefix := header[1 + WRAPPED_KEY_LEN..1 + WRAPPED_KEY_LEN + 7];
    var csOff := 1 + WRAPPED_KEY_LEN + 7;
    var chunkSize := FromBigEndian(header[csOff..csOff + 4]);
    assert header[csOff..csOff + 4] == header[68..];
    if chunkSize != CHUNK_SIZE {
      return Err(Aead);
    }
    var wrapAad := BuildWrapAad(id, VERSION, noncePrefix, Be32(CHUNK_SIZE));
    var wrapped := header[1..1 + WRAPPED_KEY_LEN];
    assert wrapped[..12] == header[1..13] && wrapped[12..] == header[13..61];
    var dk := UnwrapDataKey(cipher, wrapped, wk, wrapAad.value);
    if dk.Err? {
      return Err(dk.error);
    }
    return Ok(Session(dk.value, noncePrefix, SegmentAad(id).value));
  }
}
