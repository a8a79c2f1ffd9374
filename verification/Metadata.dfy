/** Field-level metadata encryption (`metadata.rs`). */
module Metadata {
  import opened ByteStrings
  import opened Context
  import opened Gcm

  datatype EncryptedField = EncryptedField(ciphertext: Bytes, iv: Nonce)

  datatype FieldEncoding = FieldEncoding(result: Result<EncryptedField>, records: seq<Sealed>)

  function EncodeField(a: Scheme, msg: Bytes, key: Key, record: Bytes, field: Bytes, iv: Option<Nonce>): FieldEncoding {
    match FieldAad(record, field)
    case Err(x) => FieldEncoding(Err(x), [])
    case Ok(aad) =>
      if iv.None? then FieldEncoding(Err(Randomness), [])
      else
        match a.seal(key, iv.value, aad, msg)
        case None => FieldEncoding(Err(Aead), [])
        case Some(ct) => FieldEncoding(Ok(EncryptedField(ct, iv.value)), [Sealed(key, iv.value, aad, msg, ct)])
  }

  function DecodeField(a: Scheme, f: EncryptedField, key: Key, record: Bytes, field: Bytes): Result<Bytes> {
    match FieldAad(record, field)
    case Err(x) => Err(x)
    case Ok(aad) =>
      match a.open(key, f.iv, aad, f.ciphertext)
      case None => Err(Aead)
      case Some(msg) => Ok(msg)
  }

  method EncryptField(cipher: Cipher, plaintext: Bytes, key: Key, recordId: Bytes, fieldName: Bytes, iv: Option<Nonce>)
    returns (r: Result<EncryptedField>)
    modifies cipher
    ensures r == EncodeField(cipher.aead, plaintext, key, recordId, fieldName, iv).result
    ensures cipher.log == old(cipher.log) + EncodeField(cipher.aead, plaintext, key, recordId, fieldName, iv).records
  {
    var aad := BuildFieldAad(recordId, fieldName);
    if aad.Err? {
      return Err(aad.error);
    }
    if iv.None? {
      return Err(Randomness);
    }
    var ct := cipher.Encrypt(key, iv.value, aad.value, plaintext);
    if ct.None? {
      return Err(Aead);
    }
    return Ok(EncryptedField(ct.value, iv.value));
  }

  method DecryptField(cipher: Cipher, field: EncryptedField, key: Key, recordId: Bytes, fieldName: Bytes)
    returns (r: Result<Bytes>)
    ensures r == DecodeField(cipher.Ideal(), field, key, recordId, fieldName)
  {
    var aad := BuildFieldAad(recordId, fieldName);
    if aad.Err? {
      return Err(aad.error);
    }
    var msg := cipher.Decrypt(key, field.iv, aad.value, field.ciphertext);
    if msg.None? {
      return Err(Aead);
    }
    return Ok(msg.value);
  }

  /** Field encryption fails for a bad identifier, without randomness, or past the cipher's limit. */
  lemma {:induction false} EncodeFieldSucceedsIff(a: Scheme, msg: Bytes, key: Key, record: Bytes, field: Bytes,
          iv: Option<Nonce>)
    requires a.Lawful()
    ensures EncodeField(a, msg, key, record, field, iv).result.Ok?
            <==> Bindable(record) && Bindable(field) && iv.Some? && |msg| <= a.limit
  {
  }
}
