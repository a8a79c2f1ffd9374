/** What the two encoders and the two decoders have to do with each other. */
module CodecLaws {
  import opened ByteStrings
  import opened Context
  import opened Gcm
  import opened Stream
  import opened Segments
  import opened Blob

  // ---------- round trip ----------

  lemma {:induction false} EncodingFrom(a: Scheme, msg: Bytes, wk: Key, id: Bytes, e: Entropy)
    ensures AllFrom(a, EncodeBlob(a, msg, wk, id, e).records)
  {
    var start := StartBlob(a, wk, id, e);
    if start.session.Ok? {
      hide SealBody, SegmentNonce, SegmentOf;
      var rs := SealBody(a, start.session.value, 0, msg).records;
      forall i | 0 <= i < |rs|
        ensures rs[i].From(a)
      {
        SealBodyAt(a, start.session.value, 0, msg, i);
      }
    }
  }

  /** The cipher itself, and the ideal cipher once these sealings are in its log, open them. */
  lemma {:induction false} OwnSealingsOpen(a: Scheme, records: seq<Sealed>, log: seq<Sealed>)
    requires a.Lawful() && AllFrom(a, records)
    requires forall r :: r in records ==> r in log
    ensures OpensAll(a, records) && OpensAll(a.Guarded(log), records)
  {
    forall r | r in records
      ensures a.open(r.key, r.nonce, r.aad, r.ct) == Some(r.msg)
    {
      assert r.From(a);
    }
  }

  lemma {:induction false} HeaderLayout(iv: Nonce, ct: Bytes, prefix: Prefix)
    requires |ct| == 48
    ensures var h := Header(iv + ct, prefix);
            && h[0] == 2 && h[1..13] == iv && h[13..61] == ct && h[61..68] == prefix
            && h[68..72] == [0, 16, 0, 0]
  {
    Be32Bytes(CHUNK_SIZE);
    hide Be32;
    var h := Header(iv + ct, prefix);
    assert h == [VERSION] + iv + ct + prefix + Be32(CHUNK_SIZE);
  }

  /** Where everything stands in a framed blob: version, IV and sealed key, nonce prefix, chunk size, then
      segment after segment. */
  lemma {:induction false} FrameLayout(a: Scheme, msg: Bytes, wk: Key, id: Bytes, e: Entropy)
    requires a.Lawful() && EncodeBlob(a, msg, wk, id, e).result.Ok?
    ensures var framed, records := EncodeBlob(a, msg, wk, id, e).result.value, EncodeBlob(a, msg, wk, id, e).records;
            && |records| == 1 + SegmentCount(|msg|) && |framed| >= 72
            && framed[0] == 2 && framed[1..13] == e.wrapIv.value && framed[13..61] == records[0].ct
            && framed[61..68] == e.prefix.value && framed[68..72] == [0, 16, 0, 0]
            && framed[72..] == Cts(records[1..])
            && records[0] == Sealed(wk, e.wrapIv.value, HeaderAad(id, e.prefix.value).value,
                                    e.dataKey.value, records[0].ct)
  {
    hide SealBody, Header, Cts, SegmentAad, HeaderAad, Scheme.Lawful;
    var start := StartBlob(a, wk, id, e);
    var body := SealBody(a, start.session.value, 0, msg);
    SealBodyCount(a, start.session.value, 0, msg);
    var records := start.records + body.records;
    HeaderLayout(e.wrapIv.value, records[0].ct, e.prefix.value);
    var h, rest := start.header, Cts(body.records);
    assert records[1..] == body.records;
    assert (h + rest)[..72] == h && (h + rest)[72..] == rest;
    FrontOf(h, rest, 1, 13);
    FrontOf(h, rest, 13, 61);
    FrontOf(h, rest, 61, 68);
    FrontOf(h, rest, 68, 72);
  }

  lemma {:induction false} FrontOf(h: Bytes, rest: Bytes, i: nat, j: nat)
    requires i <= j <= |h|
    ensures (h + rest)[i..j] == h[i..j]
  {
  }

  /** Segment `i` of a framed blob is the sealing, under the data key, the segment AAD and the nonce of
      its index, of chunk `i` of the message; the last flag marks the final one. */
  lemma {:induction false} SegmentsOfFrame(a: Scheme, msg: Bytes, wk: Key, id: Bytes, e: Entropy, i: nat)
    requires a.Lawful() && EncodeBlob(a, msg, wk, id, e).result.Ok? && i < SegmentCount(|msg|)
    ensures i <= COUNTER_MAX
    ensures var records := EncodeBlob(a, msg, wk, id, e).records;
            && |records| == 1 + SegmentCount(|msg|) && records[1 + i].From(a)
            && records[1 + i] == Sealed(e.dataKey.value, SegmentNonce(e.prefix.value, i, i + 1 == SegmentCount(|msg|)),
                                        SegmentAad(id).value, SegmentOf(msg, i), records[1 + i].ct)
  {
    hide SealBody, SegmentNonce, SegmentOf, Scheme.Lawful;
    var start := StartBlob(a, wk, id, e);
    var body := SealBody(a, start.session.value, 0, msg);
    SealBodyCount(a, start.session.value, 0, msg);
    SealBodyAt(a, start.session.value, 0, msg, i);
    assert (start.records + body.records)[1 + i] == body.records[i];
  }

  /** The header of a blob gives back the data key, the nonce prefix and the segment AAD. */
  lemma {:induction false} HeaderUnlocks(a: Scheme, b: Scheme, wk: Key, id: Bytes, e: Entropy)
    requires StartBlob(a, wk, id, e).session.Ok?
    requires OpensAll(b, StartBlob(a, wk, id, e).records)
    ensures |StartBlob(a, wk, id, e).header| == HEADER_LEN
    ensures UnlockHeader(b, StartBlob(a, wk, id, e).header, wk, id) == StartBlob(a, wk, id, e).session
  {
    var start := StartBlob(a, wk, id, e);
    var r, h := start.records[0], start.header;
    assert r in start.records;
    assert h[1..13] == e.wrapIv.value && h[13..61] == r.ct && h[61..68] == e.prefix.value;
    assert h[68..] == Be32(CHUNK_SIZE);
    Power256Of4();
    FromBigEndianOfBigEndian(CHUNK_SIZE, 4);
  }

  /** Either decoder recovers the plaintext from what either encoder produced. */
  lemma {:induction false} RoundTrip(a: Scheme, b: Scheme, mode: Mode, msg: Bytes, wk: Key, id: Bytes, e: Entropy)
    requires a.Lawful()
    requires EncodeBlob(a, msg, wk, id, e).result.Ok?
    requires OpensAll(b, EncodeBlob(a, msg, wk, id, e).records)
    ensures DecodeBlob(b, mode, EncodeBlob(a, msg, wk, id, e).result.value, wk, id) == Ok(msg)
  {
    var start := StartBlob(a, wk, id, e);
    var s := start.session.value;
    var body := SealBody(a, s, 0, msg);
    assert forall r :: r in start.records || r in body.records ==> r in EncodeBlob(a, msg, wk, id, e).records;
    HeaderUnlocks(a, b, wk, id, e);
    SealBodyLength(a, s, 0, msg);
    OpenSealed(a, b, mode, s, 0, msg);
    var framed := start.header + Cts(body.records);
    assert framed[..HEADER_LEN] == start.header && framed[HEADER_LEN..] == Cts(body.records);
  }

  // ---------- when encryption succeeds ----------

  /** At most 2^32 - 1 "next" segments and a last one shorter than a chunk: less than 2^52 bytes. */
  lemma {:induction false} EncodeSucceedsIff(a: Scheme, msg: Bytes, wk: Key, id: Bytes, e: Entropy)
    requires a.Lawful()
    ensures var r := EncodeBlob(a, msg, wk, id, e).result;
            if !(0 < |id| < 0x1_0000_0000) then r == Err(InvalidContext)
            else if e.dataKey.None? || e.prefix.None? || e.wrapIv.None? then r == Err(Randomness)
            else if |msg| >= 0x10_0000_0000_0000 then r == Err(Aead)
            else r.Ok?
  {
    var start := StartBlob(a, wk, id, e);
    if Bindable(id) && e.dataKey.Some? && e.prefix.Some? && e.wrapIv.Some? {
      assert a.seal(wk, e.wrapIv.value, HeaderAad(id, e.prefix.value).value, e.dataKey.value).Some?;
      assert start.session.Ok?;
      SealBodyCapacity(a, start.session.value, 0, msg);
    }
  }

  // ---------- lengths ----------

  function FramedLength(n: nat): nat {
    HEADER_LEN + n + TAG_LEN * SegmentCount(n)
  }

  lemma {:induction false} EncodedLength(a: Scheme, msg: Bytes, wk: Key, id: Bytes, e: Entropy)
    requires a.Lawful() && EncodeBlob(a, msg, wk, id, e).result.Ok?
    ensures |EncodeBlob(a, msg, wk, id, e).result.value| == FramedLength(|msg|)
  {
    var start := StartBlob(a, wk, id, e);
    assert |start.header| == HEADER_LEN;
    SealBodyLength(a, start.session.value, 0, msg);
  }

  /** The plaintext length that a framed length stands for. */
  function PlainLength(framed: nat): int
    requires framed >= HEADER_LEN
  {
    var body := framed - HEADER_LEN;
    body / CT_CHUNK * CHUNK_SIZE + body % CT_CHUNK - TAG_LEN
  }

  /** The plaintext length is recovered from the framed length, which grows with it; and no framed
      length is one on which the decoders disagree. */
  lemma {:induction false} LengthsCorrespond(n: nat, n': nat)
    ensures PlainLength(FramedLength(n)) == n
    ensures (FramedLength(n) - HEADER_LEN) % CT_CHUNK >= TAG_LEN
    ensures n < n' <==> FramedLength(n) < FramedLength(n')
  {
  }

  // ---------- the exact relation of the two decoders ----------

  lemma {:induction false} LawRequiresTag(a: Scheme)
    requires a.Lawful()
    ensures TagRequired(a)
  {
  }

  /** The body of `framed` is a positive number of full ciphertext chunks. */
  predicate EndsOnChunk(framed: Bytes) {
    |framed| > HEADER_LEN && (|framed| - HEADER_LEN) % CT_CHUNK == 0
  }

  /** The final full chunk of the body opens as "last", every earlier one as "next". */
  predicate FullLastOpens(a: Scheme, s: Session, body: Bytes)
    requires body != [] && |body| % CT_CHUNK == 0
  {
    var n := |body| / CT_CHUNK - 1;
    forall i :: 0 <= i <= n ==> OpensInPlace(a, s, 0, body, n, i)
  }

  /** The header opens, and so do the full chunks of the body, the final one as "last". */
  predicate FullLastAccepted(a: Scheme, framed: Bytes, wk: Key, id: Bytes)
    requires EndsOnChunk(framed)
  {
    var s := UnlockHeader(a, framed[..HEADER_LEN], wk, id);
    s.Ok? && FullLastOpens(a, s.value, framed[HEADER_LEN..])
  }

  /** The two body decoders under one session: a final full chunk is all they can disagree on. */
  lemma {:induction false} BodiesRelated(a: Scheme, s: Session, body: Bytes)
    requires TagRequired(a)
    ensures var mem, file := DecodeBody(a, Slices, s, body), DecodeBody(a, Lookahead, s, body);
            if body != [] && |body| % CT_CHUNK == 0 then file.Err? && (mem.Ok? <==> FullLastOpens(a, s, body))
            else mem == file
  {
    hide OpenBody, OpensInPlace;
    if |body| % CT_CHUNK != 0 {
      DecodersAgree(a, s, 0, body);
    } else {
      LookaheadFailsOnMultiples(a, s, 0, body);
      if body != [] {
        SlicesOnMultiples(a, s, 0, body, |body| / CT_CHUNK - 1);
      }
    }
  }

  /** For a bindable id and a framed string with a whole header: off the multiples of a full
      ciphertext chunk the decoders give the same result; on them the file decoder fails, and the
      slice decoder accepts iff the final full chunk opens as the last segment and all earlier
      ones open. Every failure is `Aead`. */
  lemma {:induction false} DecodersRelated(a: Scheme, framed: Bytes, wk: Key, id: Bytes)
    requires TagRequired(a) && Bindable(id) && |framed| >= HEADER_LEN
    ensures var mem, file := DecodeBlob(a, Slices, framed, wk, id), DecodeBlob(a, Lookahead, framed, wk, id);
            && (mem.Err? ==> mem == Err(Aead)) && (file.Err? ==> file == Err(Aead))
            && if EndsOnChunk(framed) then file.Err? && (mem.Ok? <==> FullLastAccepted(a, framed, wk, id))
               else mem == file
  {
    hide OpenBody, FullLastOpens, TagRequired;
    var unlocked := UnlockHeader(a, framed[..HEADER_LEN], wk, id);
    if unlocked.Ok? {
      var body := framed[HEADER_LEN..];
      BodiesRelated(a, unlocked.value, body);
      assert EndsOnChunk(framed) <==> body != [] && |body| % CT_CHUNK == 0;
    }
  }

  /** Below a whole header the decoders fail differently. */
  lemma {:induction false} ShortHeader(a: Scheme, framed: Bytes, wk: Key, id: Bytes)
    requires Bindable(id)
    ensures |framed| < HEADER_LEN <==> DecodeBlob(a, Lookahead, framed, wk, id) == Err(Io)
    ensures |framed| < HEADER_LEN ==> DecodeBlob(a, Slices, framed, wk, id) == Err(Aead)
  {
  }

  /** The disagreement is real: with the keys of a blob, a full chunk sealed as the last segment
      is a string that memory accepts and the file decoder refuses. */
  lemma {:induction false} DecodersDisagree(a: Scheme, wk: Key, id: Bytes, e: Entropy, chunk: Bytes)
    returns (framed: Bytes)
    requires a.Lawful() && StartBlob(a, wk, id, e).session.Ok? && |chunk| == CHUNK_SIZE
    ensures DecodeBlob(a, Slices, framed, wk, id) == Ok(chunk)
    ensures DecodeBlob(a, Lookahead, framed, wk, id) == Err(Aead)
  {
    var start := StartBlob(a, wk, id, e);
    var s := start.session.value;
    var ct := s.SealAt(a, 0, true, chunk).value;
    framed := start.header + ct;
    assert AllFrom(a, start.records);
    OwnSealingsOpen(a, start.records, start.records);
    HeaderUnlocks(a, a, wk, id, e);
    assert framed[..HEADER_LEN] == start.header && framed[HEADER_LEN..] == ct;
    assert OpenBody(a, Slices, s, 0, ct) == Some(chunk);
    LawRequiresTag(a);
    DecodersRelated(a, framed, wk, id);
  }

  // ---------- which strings the file decoder accepts ----------

  /** `framed` is what the encoders make of `msg` for some outcome of the random draws. */
  ghost predicate IsEncoding(a: Scheme, framed: Bytes, msg: Bytes, wk: Key, id: Bytes) {
    exists e: Entropy :: EncodeBlob(a, msg, wk, id, e).result == Ok(framed)
  }

  /** A header with the right version and chunk size is its fields written out. */
  lemma {:induction false} HeaderParts(header: Bytes)
    requires |header| == HEADER_LEN && header[0] == VERSION && FromBigEndian(header[68..]) == CHUNK_SIZE
    ensures header == Header(header[1..13] + header[13..61], header[61..68])
  {
    BigEndianOfFromBigEndian(header[68..]);
  }

  /** A header that unlocks was written by the encoder: the draws can be read off it. */
  lemma {:induction false} HeaderWasWritten(a: Scheme, header: Bytes, wk: Key, id: Bytes) returns (e: Entropy)
    requires a.Lawful() && |header| == HEADER_LEN && UnlockHeader(a, header, wk, id).Ok?
    ensures StartBlob(a, wk, id, e).header == header
    ensures StartBlob(a, wk, id, e).session == UnlockHeader(a, header, wk, id)
  {
    var s := UnlockHeader(a, header, wk, id).value;
    var iv: Nonce, ct := header[1..13], header[13..61];
    e := Entropy(Some(s.key), Some(s.prefix), Some(iv));
    assert a.seal(wk, iv, HeaderAad(id, s.prefix).value, s.key) == Some(ct);
    HeaderParts(header);
  }

  /** The file decoder accepts exactly the encoders' outputs: it is the inverse of encryption,
      and encryption is onto its accepted strings. */
  lemma {:induction false} FileDecoderInvertsEncoder(a: Scheme, framed: Bytes, msg: Bytes, wk: Key, id: Bytes)
    requires a.Lawful()
    ensures DecodeBlob(a, Lookahead, framed, wk, id) == Ok(msg) <==> IsEncoding(a, framed, msg, wk, id)
  {
    if DecodeBlob(a, Lookahead, framed, wk, id) == Ok(msg) {
      var header, body := framed[..HEADER_LEN], framed[HEADER_LEN..];
      var e := HeaderWasWritten(a, header, wk, id);
      SealOpened(a, StartBlob(a, wk, id, e).session.value, 0, body);
      assert framed == header + body;
      assert EncodeBlob(a, msg, wk, id, e).result == Ok(framed);
    }
    if IsEncoding(a, framed, msg, wk, id) {
      var e: Entropy :| EncodeBlob(a, msg, wk, id, e).result == Ok(framed);
      var records := EncodeBlob(a, msg, wk, id, e).records;
      EncodingFrom(a, msg, wk, id, e);
      OwnSealingsOpen(a, records, records);
      RoundTrip(a, a, Lookahead, msg, wk, id, e);
    }
  }

  /** What memory accepts beyond that is exactly the strings whose final full chunk is a
      last segment, which no encoder writes. */
  lemma {:induction false} SliceDecoderAccepts(a: Scheme, framed: Bytes, wk: Key, id: Bytes)
    requires a.Lawful()
    ensures DecodeBlob(a, Slices, framed, wk, id).Ok?
            <==> || (exists msg :: IsEncoding(a, framed, msg, wk, id))
                 || (Bindable(id) && EndsOnChunk(framed) && FullLastAccepted(a, framed, wk, id))
    ensures EndsOnChunk(framed) ==> forall msg :: !IsEncoding(a, framed, msg, wk, id)
  {
    LawRequiresTag(a);
    forall msg
      ensures DecodeBlob(a, Lookahead, framed, wk, id) == Ok(msg) <==> IsEncoding(a, framed, msg, wk, id)
    {
      FileDecoderInvertsEncoder(a, framed, msg, wk, id);
    }
    if Bindable(id) && |framed| >= HEADER_LEN {
      DecodersRelated(a, framed, wk, id);
    }
    var file := DecodeBlob(a, Lookahead, framed, wk, id);
    if file.Ok? {
      assert IsEncoding(a, framed, file.value, wk, id);
    }
  }
}
