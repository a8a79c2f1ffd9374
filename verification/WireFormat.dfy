/** What the encoders produce, byte by byte and in plain numbers. */
module WireFormat {
  import opened ByteStrings
  import opened Context
  import opened Gcm
  import opened Stream
  import opened Segments
  import opened Blob
  import opened CodecLaws
  import opened Metadata

  // ---------- blobs ----------

  /** The first sealing of a blob wraps the data key; its AAD is that of the header's fields. */
  lemma {:induction false} WrapFormat(a: Scheme, msg: Bytes, wk: Key, id: Bytes, e: Entropy)
    requires a.Lawful() && EncodeBlob(a, msg, wk, id, e).result.Ok?
    ensures var records, framed := EncodeBlob(a, msg, wk, id, e).records, EncodeBlob(a, msg, wk, id, e).result.value;
            && |records| == |msg| / 0x10_0000 + 2 && |framed| == 72 + |msg| + 16 * (|msg| / 0x10_0000 + 1)
            && framed[..72] == [2] + records[0].nonce + records[0].ct + e.prefix.value + [0, 16, 0, 0]
            && records[0].key == wk && records[0].msg == e.dataKey.value && records[0].nonce == e.wrapIv.value
            && IsWrapAad(records[0].aad, id, 2, e.prefix.value, [0, 16, 0, 0])
            && a.seal(records[0].key, records[0].nonce, records[0].aad, records[0].msg) == Some(records[0].ct)
            && framed[72..] == Cts(records[1..])
  {
    var start := StartBlob(a, wk, id, e);
    var records := start.records + SealBody(a, start.session.value, 0, msg).records;
    hide IsWrapAad, SealBody, Cts, Header, WrapAad, SegmentAad;
    FrameLayout(a, msg, wk, id, e);
    EncodedLength(a, msg, wk, id, e);
    Be32Bytes(CHUNK_SIZE);
    WrapAadBytes(id, 2, e.prefix.value, [0, 16, 0, 0]);
    var framed := EncodeBlob(a, msg, wk, id, e).result.value;
    FourParts(framed, e.wrapIv.value, records[0].ct, e.prefix.value);
  }

  lemma {:induction false} FourParts(framed: Bytes, iv: Nonce, ct: Bytes, prefix: Prefix)
    requires |framed| >= 72 && framed[0] == 2 && framed[1..13] == iv && framed[13..61] == ct
    requires framed[61..68] == prefix && framed[68..72] == [0, 16, 0, 0]
    ensures framed[..72] == [2] + iv + ct + prefix + [0, 16, 0, 0]
  {
    assert framed[..72] == framed[..1] + framed[1..13] + framed[13..61] + framed[61..68] + framed[68..72];
  }

  /** Segment `i`: chunk `i` of the message, sealed under the data key, the segment AAD, and a nonce of
      prefix, counter and last flag. */
  lemma {:induction false} SegmentFormat(a: Scheme, msg: Bytes, wk: Key, id: Bytes, e: Entropy, i: nat)
    requires a.Lawful() && EncodeBlob(a, msg, wk, id, e).result.Ok? && i <= |msg| / 0x10_0000
    ensures i < 0x1_0000_0000 && 1 + i < |EncodeBlob(a, msg, wk, id, e).records|
    ensures var r, last := EncodeBlob(a, msg, wk, id, e).records[1 + i], i == |msg| / 0x10_0000;
            && r.key == e.dataKey.value
            && r.nonce[..7] == e.prefix.value
            && r.nonce[7..11] == [i / 0x100_0000, i / 0x1_0000 % 256, i / 0x100 % 256, i % 256]
            && r.nonce[11] == (if last then 1 else 0)
            && IsSegmentAad(r.aad, id)
            && r.msg == msg[i * 0x10_0000..if last then |msg| else (i + 1) * 0x10_0000]
            && a.seal(r.key, r.nonce, r.aad, r.msg) == Some(r.ct)
  {
    hide IsSegmentAad, SegmentNonce, EncodeBlob, SegmentAad;
    EncodeSucceedsIff(a, msg, wk, id, e);
    SegmentsOfFrame(a, msg, wk, id, e, i);
    SegmentNonceBytes(e.prefix.value, i, i + 1 == SegmentCount(|msg|));
    SegmentAadBytes(id);
  }

  // ---------- decoding errors ----------

  /** An id that cannot be bound is reported first, whatever the bytes. */
  lemma {:induction false} UnusableId(a: Scheme, mode: Mode, framed: Bytes, wk: Key, id: Bytes)
    ensures DecodeBlob(a, mode, framed, wk, id) == Err(InvalidContext) <==> !(0 < |id| < 0x1_0000_0000)
    ensures var r := DecodeBlob(a, mode, framed, wk, id);
            r.Err? && 0 < |id| < 0x1_0000_0000 ==> r == Err(if mode == Lookahead && |framed| < 72 then Io else Aead)
  {
    hide OpenBody;
    SegmentAadBytes(id);
  }

  // ---------- metadata fields ----------

  /** A field: the ciphertext under the key, a drawn IV and the field AAD, and that IV; or the error, in
      the order of the checks. */
  lemma {:induction false} FieldFormat(a: Scheme, msg: Bytes, key: Key, record: Bytes, field: Bytes, iv: Option<Nonce>)
    returns (aad: Bytes)
    ensures var r := EncodeField(a, msg, key, record, field, iv).result;
            if !(0 < |record| < 0x1_0000_0000 && 0 < |field| < 0x1_0000_0000) then r == Err(InvalidContext)
            else if iv.None? then r == Err(Randomness)
            else
              && IsFieldAad(aad, record, field)
              && var ct := a.seal(key, iv.value, aad, msg);
                 r == if ct.Some? then Ok(EncryptedField(ct.value, iv.value)) else Err(Aead)
  {
    FieldAadBytes(record, field);
    aad := if FieldAad(record, field).Ok? then FieldAad(record, field).value else [];
  }

  /** Opening a field: the plaintext under the same key, IV and AAD, or the error. */
  lemma {:induction false} FieldOpening(a: Scheme, f: EncryptedField, key: Key, record: Bytes, field: Bytes)
    returns (aad: Bytes)
    ensures var r := DecodeField(a, f, key, record, field);
            if !(0 < |record| < 0x1_0000_0000 && 0 < |field| < 0x1_0000_0000) then r == Err(InvalidContext)
            else
              && IsFieldAad(aad, record, field)
              && var msg := a.open(key, f.iv, aad, f.ciphertext);
                 r == if msg.Some? then Ok(msg.value) else Err(Aead)
  {
    FieldAadBytes(record, field);
    aad := if FieldAad(record, field).Ok? then FieldAad(record, field).value else [];
  }
}
