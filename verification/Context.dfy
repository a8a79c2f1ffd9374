/** The canonical associated data of format v2 (`aad.rs`): every byte string that the AEAD
    authenticates beside a message is built here. Identifiers are given as their UTF-8 bytes. */
module Context {
  import opened ByteStrings

  type Prefix = p: Bytes | |p| == 7 witness [0, 0, 0, 0, 0, 0, 0]

  // "filum-crypto/v2/blob"
  const BLOB_DOMAIN: Bytes :=
    [102, 105, 108, 117, 109, 45, 99, 114, 121, 112, 116, 111, 47, 118, 50, 47, 98, 108, 111, 98]

  // "filum-crypto/v2/field"
  const FIELD_DOMAIN: Bytes :=
    [102, 105, 108, 117, 109, 45, 99, 114, 121, 112, 116, 111, 47, 118, 50, 47, 102, 105, 101, 108, 100]

  /** An identifier that can be bound: not empty, and its length fits a `u32`. */
  predicate Bindable(id: Bytes) {
    0 < |id| < U32_SIZE
  }

  function Prefixed(x: Bytes): Bytes
    requires |x| < U32_SIZE
  {
    Be32(|x|) + x
  }

  function SegmentAad(id: Bytes): Result<Bytes> {
    if Bindable(id) then Ok(BLOB_DOMAIN + Prefixed(id)) else Err(InvalidContext)
  }

  function WrapAad(id: Bytes, version: Byte, prefix: Prefix, chunkSize: Bytes): Result<Bytes> {
    match SegmentAad(id)
    case Err(e) => Err(e)
    case Ok(aad) => Ok(aad + [version] + prefix + chunkSize)
  }

  function FieldAad(record: Bytes, field: Bytes): Result<Bytes> {
    if Bindable(record) && Bindable(field)
    then Ok(FIELD_DOMAIN + Prefixed(record) + Prefixed(field))
    else Err(InvalidContext)
  }

  // ---------- the format, byte by byte ----------

  /** The domain, the length of the id in four bytes, the id. */
  predicate IsSegmentAad(aad: Bytes, id: Bytes) {
    && |aad| == 24 + |id| && Spells(aad[..20], "filum-crypto/v2/blob")
    && Holds32(aad[20..24], |id|) && aad[24..] == id
  }

  /** A segment AAD; version, nonce prefix and chunk size as they stand in the header. */
  predicate IsWrapAad(aad: Bytes, id: Bytes, version: Byte, prefix: Prefix, chunkSize: Bytes) {
    && |chunkSize| == 4 && |aad| == 36 + |id| && IsSegmentAad(aad[..24 + |id|], id)
    && aad[24 + |id|] == version && aad[25 + |id|..32 + |id|] == prefix && aad[32 + |id|..] == chunkSize
  }

  /** The domain, then record id and field name in this order, each behind its length in four bytes. */
  predicate IsFieldAad(aad: Bytes, record: Bytes, field: Bytes) {
    && |aad| == 29 + |record| + |field| && Spells(aad[..21], "filum-crypto/v2/field")
    && Holds32(aad[21..25], |record|) && aad[25..25 + |record|] == record
    && Holds32(aad[25 + |record|..29 + |record|], |field|) && aad[29 + |record|..] == field
  }

  lemma {:induction false} Domains()
    ensures Spells(BLOB_DOMAIN, "filum-crypto/v2/blob") && Spells(FIELD_DOMAIN, "filum-crypto/v2/field")
  {
  }

  lemma {:induction false} SegmentAadBytes(id: Bytes)
    ensures if 0 < |id| < 0x1_0000_0000 then SegmentAad(id).Ok? && IsSegmentAad(SegmentAad(id).value, id)
            else SegmentAad(id) == Err(InvalidContext)
  {
    if Bindable(id) {
      Domains();
      Be32Bytes(|id|);
      hide Spells, Be32;
      var aad := SegmentAad(id).value;
      assert aad == BLOB_DOMAIN + Be32(|id|) + id;
      assert aad[..20] == BLOB_DOMAIN && aad[20..24] == Be32(|id|) && aad[24..] == id;
    }
  }

  lemma {:induction false} WrapAadBytes(id: Bytes, version: Byte, prefix: Prefix, chunkSize: Bytes)
    requires |chunkSize| == 4
    ensures var aad := WrapAad(id, version, prefix, chunkSize);
            if 0 < |id| < 0x1_0000_0000 then aad.Ok? && IsWrapAad(aad.value, id, version, prefix, chunkSize)
            else aad == Err(InvalidContext)
  {
    hide IsSegmentAad, SegmentAad;
    SegmentAadBytes(id);
    if 0 < |id| < 0x1_0000_0000 {
      var front, aad := SegmentAad(id).value, WrapAad(id, version, prefix, chunkSize).value;
      assert |front| == 24 + |id| by { SegmentAadLength(front, id); }
      assert aad[..24 + |id|] == front;
    }
  }

  lemma {:induction false} SegmentAadLength(aad: Bytes, id: Bytes)
    requires IsSegmentAad(aad, id)
    ensures |aad| == 24 + |id|
  {
  }

  lemma {:induction false} FieldAadBytes(record: Bytes, field: Bytes)
    ensures if 0 < |record| < 0x1_0000_0000 && 0 < |field| < 0x1_0000_0000
            then FieldAad(record, field).Ok? && IsFieldAad(FieldAad(record, field).value, record, field)
            else FieldAad(record, field) == Err(InvalidContext)
  {
    if Bindable(record) && Bindable(field) {
      Domains();
      Be32Bytes(|record|);
      Be32Bytes(|field|);
      hide Spells, Be32;
      var aad, n := FieldAad(record, field).value, |record|;
      assert aad == FIELD_DOMAIN + Be32(n) + record + Be32(|field|) + field;
      assert aad[..21] == FIELD_DOMAIN && aad[21..25] == Be32(n) && aad[25..25 + n] == record;
      assert aad[25 + n..29 + n] == Be32(|field|) && aad[29 + n..] == field;
    }
  }

  // ---------- the builders ----------

  method BuildSegmentAad(blobId: Bytes) returns (r: Result<Bytes>)
    ensures r == SegmentAad(blobId)
    ensures if 0 < |blobId| < 0x1_0000_0000 then r.Ok? && IsSegmentAad(r.value, blobId) else r == Err(InvalidContext)
  {
    SegmentAadBytes(blobId);
    hide IsSegmentAad;
    if |blobId| == 0 {
      return Err(InvalidContext);
    }
    if |blobId| >= U32_SIZE {
      return Err(InvalidContext);
    }
    var aad: Bytes := [];
    aad := aad + BLOB_DOMAIN;
    aad := aad + Be32(|blobId|);
    aad := aad + blobId;
    assert aad == BLOB_DOMAIN + Prefixed(blobId);
    return Ok(aad);
  }

  method BuildFieldAad(recordId: Bytes, fieldName: Bytes) returns (r: Result<Bytes>)
    ensures r == FieldAad(recordId, fieldName)
    ensures if 0 < |recordId| < 0x1_0000_0000 && 0 < |fieldName| < 0x1_0000_0000
            then r.Ok? && IsFieldAad(r.value, recordId, fieldName) else r == Err(InvalidContext)
  {
    FieldAadBytes(recordId, fieldName);
    hide IsFieldAad;
    if |recordId| == 0 || |fieldName| == 0 {
      return Err(InvalidContext);
    }
    if |recordId| >= U32_SIZE {
      return Err(InvalidContext);
    }
    if |fieldName| >= U32_SIZE {
      return Err(InvalidContext);
    }
    var aad: Bytes := [];
    aad := aad + FIELD_DOMAIN;
    aad := aad + Be32(|recordId|);
    aad := aad + recordId;
    aad := aad + Be32(|fieldName|);
    aad := aad + fieldName;
    assert aad == FIELD_DOMAIN + Prefixed(recordId) + Prefixed(fieldName);
    return Ok(aad);
  }

  method BuildWrapAad(blobId: Bytes, version: Byte, noncePrefix: Prefix, chunkSizeBe: Bytes)
    returns (r: Result<Bytes>)
    requires |chunkSizeBe| == 4
    ensures r == WrapAad(blobId, version, noncePrefix, chunkSizeBe)
    ensures if 0 < |blobId| < 0x1_0000_0000
            then r.Ok? && IsWrapAad(r.value, blobId, version, noncePrefix, chunkSizeBe)
            else r == Err(InvalidContext)
  {
    WrapAadBytes(blobId, version, noncePrefix, chunkSizeBe);
    hide IsWrapAad, IsSegmentAad;
    r := BuildSegmentAad(blobId);
    if r.Ok? {
      var aad := r.value;
      aad := aad + [version];
      aad := aad + noncePrefix;
      aad := aad + chunkSizeBe;
      return Ok(aad);
    }
  }

  // ---------- the encodings are canonical ----------

  /** A length-prefixed string marks its own end. */
  lemma {:induction false} PrefixedMarksItsEnd(x: Bytes, y: Bytes, s: Bytes, t: Bytes)
    requires |x| < U32_SIZE && |y| < U32_SIZE
    requires Prefixed(x) + s == Prefixed(y) + t
    ensures x == y && s == t
  {
    assert Be32(|x|) + (x + s) == Be32(|y|) + (y + t) by {
      assert Prefixed(x) + s == Be32(|x|) + (x + s);
      assert Prefixed(y) + t == Be32(|y|) + (y + t);
    }
    SplitEqual(Be32(|x|), Be32(|y|), x + s, y + t);
    Be32Injective(|x|, |y|);
    SplitEqual(x, y, s, t);
  }

  /** Whatever follows it, a segment AAD determines its blob id; so it is injective, and
      no segment AAD is a proper prefix of another. */
  lemma {:induction false} SegmentAadMarksItsEnd(id: Bytes, id': Bytes, s: Bytes, t: Bytes)
    requires Bindable(id) && Bindable(id')
    requires SegmentAad(id).value + s == SegmentAad(id').value + t
    ensures id == id' && s == t
  {
    assert BLOB_DOMAIN + (Prefixed(id) + s) == BLOB_DOMAIN + (Prefixed(id') + t) by {
      assert SegmentAad(id).value + s == BLOB_DOMAIN + (Prefixed(id) + s);
      assert SegmentAad(id').value + t == BLOB_DOMAIN + (Prefixed(id') + t);
    }
    SplitEqual(BLOB_DOMAIN, BLOB_DOMAIN, Prefixed(id) + s, Prefixed(id') + t);
    PrefixedMarksItsEnd(id, id', s, t);
  }

  lemma {:induction false} FieldAadMarksItsEnd(r: Bytes, f: Bytes, r': Bytes, f': Bytes, s: Bytes, t: Bytes)
    requires Bindable(r) && Bindable(f) && Bindable(r') && Bindable(f')
    requires FieldAad(r, f).value + s == FieldAad(r', f').value + t
    ensures r == r' && f == f' && s == t
  {
    hide Prefixed;
    var x, y := Prefixed(f) + s, Prefixed(f') + t;
    assert FIELD_DOMAIN + (Prefixed(r) + x) == FIELD_DOMAIN + (Prefixed(r') + y) by {
      assert FieldAad(r, f).value + s == FIELD_DOMAIN + (Prefixed(r) + x);
      assert FieldAad(r', f').value + t == FIELD_DOMAIN + (Prefixed(r') + y);
    }
    SplitEqual(FIELD_DOMAIN, FIELD_DOMAIN, Prefixed(r) + x, Prefixed(r') + y);
    PrefixedMarksItsEnd(r, r', x, y);
    PrefixedMarksItsEnd(f, f', s, t);
  }

  lemma {:induction false} SegmentAadsArePrefixFree(id: Bytes, id': Bytes)
    requires SegmentAad(id).Ok? && SegmentAad(id').Ok?
    ensures SegmentAad(id).value <= SegmentAad(id').value <==> id == id'
  {
    var a, b := SegmentAad(id).value, SegmentAad(id').value;
    if a <= b {
      assert a + b[|a|..] == b + [];
      SegmentAadMarksItsEnd(id, id', b[|a|..], []);
    }
  }

  lemma {:induction false} FieldAadsArePrefixFree(r: Bytes, f: Bytes, r': Bytes, f': Bytes)
    requires FieldAad(r, f).Ok? && FieldAad(r', f').Ok?
    ensures FieldAad(r, f).value <= FieldAad(r', f').value <==> r == r' && f == f'
  {
    var a, b := FieldAad(r, f).value, FieldAad(r', f').value;
    if a <= b {
      assert a + b[|a|..] == b + [];
      FieldAadMarksItsEnd(r, f, r', f', b[|a|..], []);
    }
  }

  lemma {:induction false} WrapAadInjective(id: Bytes, v: Byte, p: Prefix, c: Bytes, id': Bytes, v': Byte,
          p': Prefix, c': Bytes)
    requires |c| == 4 && |c'| == 4
    requires WrapAad(id, v, p, c).Ok? && WrapAad(id', v', p', c').Ok?
    ensures WrapAad(id, v, p, c) == WrapAad(id', v', p', c')
            <==> id == id' && v == v' && p == p' && c == c'
  {
    if WrapAad(id, v, p, c) == WrapAad(id', v', p', c') {
      var a, b := SegmentAad(id).value, SegmentAad(id').value;
      assert a + ([v] + p + c) == a + [v] + p + c;
      assert b + ([v'] + p' + c') == b + [v'] + p' + c';
      SegmentAadMarksItsEnd(id, id', [v] + p + c, [v'] + p' + c');
      SplitEqual([v] + p, [v'] + p', c, c');
      SplitEqual([v], [v'], p, p');
    }
  }

  /** The three kinds of AAD never meet. */
  lemma {:induction false} KindsAreDisjoint(id: Bytes, id': Bytes, v: Byte, p: Prefix, c: Bytes, r: Bytes, f: Bytes)
    requires SegmentAad(id).Ok? && WrapAad(id', v, p, c).Ok? && FieldAad(r, f).Ok?
    ensures SegmentAad(id) != WrapAad(id', v, p, c)
    ensures SegmentAad(id) != FieldAad(r, f)
    ensures WrapAad(id', v, p, c) != FieldAad(r, f)
  {
    var seg, wrap, field := SegmentAad(id).value, WrapAad(id', v, p, c).value, FieldAad(r, f).value;
    assert seg[16] == 98 && wrap[16] == 98 && field[16] == 102;
    if seg == wrap {
      var b := SegmentAad(id').value;
      assert seg + [] == b + ([v] + p + c);
      SegmentAadMarksItsEnd(id, id', [], [v] + p + c);
    }
  }
}
