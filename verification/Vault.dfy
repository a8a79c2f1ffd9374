/** The vault (`vault.rs`), and all that vaults have done with one cipher. */
module Vault {
  import opened ByteStrings
  import opened Gcm
  import opened Segments
  import opened Blob
  import opened Metadata
  import opened WireFormat
  import opened History
  import opened Files
  import opened FileEncoder
  import opened Publish
  import opened Outcomes
  import opened Concurrency
  import opened SingleRun
  import opened FileDecoder
  import opened Kdf

  /** The cipher that all vaults use, and the encryptions made with it so far. */
  class World {
    const cipher: Cipher
    ghost var history: seq<Event>

    ghost predicate Valid()
      reads this, cipher
    {
      cipher.aead.Lawful() && cipher.log == LogOf(cipher.aead, history)
    }

    constructor (aead: Scheme)
      requires aead.Lawful()
      ensures Valid() && history == [] && fresh(cipher) && cipher.aead == aead
    {
      cipher := new Cipher(aead);
      history := [];
    }
  }

  datatype Keys = Keys(wrap: Key, metadata: Key, sign: Key)

  function Subkey(hkdf: Hkdf, secret: Key, info: Bytes): Key {
    hkdf(secret, info)[..32]
  }

  /** The keys of a vault are a function of its master secret. */
  function KeysOf(hkdf: Hkdf, secret: Key): Keys {
    Keys(Subkey(hkdf, secret, WRAP_CTX), Subkey(hkdf, secret, METADATA_CTX), Subkey(hkdf, secret, SIGN_CTX))
  }

  /** In the history a blob was completed for this key and id. */
  ghost predicate BlobWritten(w: World, framed: Bytes, msg: Bytes, wk: Key, id: Bytes)
    reads w
  {
    exists i :: 0 <= i < |w.history| && w.history[i].Wrote(w.cipher.aead, framed, msg, wk, id)
  }

  ghost predicate FieldWritten(w: World, f: EncryptedField, msg: Bytes, mk: Key, record: Bytes, field: Bytes)
    reads w
  {
    exists i :: 0 <= i < |w.history| && w.history[i].WroteField(w.cipher.aead, f, msg, mk, record, field)
  }

  lemma {:induction false} LogOfMore(a: Scheme, h: seq<Event>, ev: Event)
    ensures LogOf(a, h + [ev]) == LogOf(a, h) + ev.Records(a)
  {
    assert (h + [ev])[..|h|] == h;
  }

  class Vault {
    const world: World
    const wrapKey: Key
    const metadataKey: Key
    const signSeed: Key

    constructor (world: World, keys: Keys)
      ensures this.world == world && wrapKey == keys.wrap && metadataKey == keys.metadata && signSeed == keys.sign
    {
      this.world := world;
      wrapKey, metadataKey, signSeed := keys.wrap, keys.metadata, keys.sign;
    }

    ghost predicate Has(keys: Keys)
    {
      wrapKey == keys.wrap && metadataKey == keys.metadata && signSeed == keys.sign
    }

    static method Open(world: World, hkdf: Hkdf, masterSecret: Key) returns (r: Result<Vault>)
      ensures r.Ok? && fresh(r.value) && r.value.world == world && r.value.Has(KeysOf(hkdf, masterSecret))
      ensures r.value.wrapKey == hkdf(masterSecret, WRAP_CTX)[..32]
      ensures r.value.metadataKey == hkdf(masterSecret, METADATA_CTX)[..32]
      ensures r.value.signSeed == hkdf(masterSecret, SIGN_CTX)[..32]
    {
      var wrap := new Byte[32](_ => 0);
      var ok := DeriveSubkey(hkdf, masterSecret, WRAP_CTX, wrap);
      if ok.Err? {
        return Err(InvalidKeyLength);
      }
      var metadata := new Byte[32](_ => 0);
      ok := DeriveSubkey(hkdf, masterSecret, METADATA_CTX, metadata);
      if ok.Err? {
        return Err(InvalidKeyLength);
      }
      var seed := new Byte[32](_ => 0);
      ok := DeriveSubkey(hkdf, masterSecret, SIGN_CTX, seed);
      if ok.Err? {
        return Err(InvalidKeyLength);
      }
      var v := new Vault(world, Keys(wrap[..], metadata[..], seed[..]));
      return Ok(v);
    }

    method EncryptBlob(plaintext: Bytes, blobId: Bytes, e: Entropy) returns (r: Result<Bytes>)
      requires world.Valid()
      modifies world, world.cipher
      ensures world.Valid()
      ensures world.history == old(world.history) + [BlobEvent(wrapKey, blobId, plaintext, e,
                |EncodeBlob(world.cipher.aead, plaintext, wrapKey, blobId, e).records|)]
      ensures r == EncodeBlob(world.cipher.aead, plaintext, wrapKey, blobId, e).result
      ensures r.Ok? ==> BlobWritten(world, r.value, plaintext, wrapKey, blobId)
    {
      hide LogOf, EncodeBlob, Scheme.Lawful;
      r := EncryptChunked(world.cipher, plaintext, wrapKey, blobId, e);
      ghost var ev := BlobEvent(wrapKey, blobId, plaintext, e,
                                |EncodeBlob(world.cipher.aead, plaintext, wrapKey, blobId, e).records|);
      LogOfMore(world.cipher.aead, world.history, ev);
      world.history := world.history + [ev];
      assert world.history[|world.history| - 1] == ev;
    }

    /** After any history: the result is a plaintext iff the history completed just this blob, for this
        vault's key and this id, from that plaintext. */
    method DecryptBlob(framed: Bytes, blobId: Bytes) returns (r: Result<Bytes>)
      requires world.Valid()
      ensures forall msg :: BlobWritten(world, framed, msg, wrapKey, blobId) ==> r == Ok(msg)
      ensures FreshSessions(world.history) ==>
                forall msg :: r == Ok(msg) <==> BlobWritten(world, framed, msg, wrapKey, blobId)
      ensures r.Err? ==> r == Err(if 0 < |blobId| < 0x1_0000_0000 then Aead else InvalidContext)
    {
      UnusableId(world.cipher.Ideal(), Slices, framed, wrapKey, blobId);
      r := DecryptChunked(world.cipher, framed, wrapKey, blobId);
      ghost var a, h := world.cipher.aead, world.history;
      hide DecodeBlob, LogOf, Scheme.Guarded, Event.Wrote, FreshSessions;
      forall msg | BlobWritten(world, framed, msg, wrapKey, blobId)
        ensures r == Ok(msg)
      {
        var i :| 0 <= i < |h| && h[i].Wrote(a, framed, msg, wrapKey, blobId);
        WrittenIsAccepted(a, h, Slices, framed, msg, wrapKey, blobId, i);
      }
      if FreshSessions(h) && r.Ok? {
        BlobIntegrity(a, h, Slices, framed, r.value, wrapKey, blobId);
      }
    }

    method EncryptMetadataField(plaintext: Bytes, recordId: Bytes, fieldName: Bytes, iv: Option<Nonce>)
      returns (r: Result<EncryptedField>)
      requires world.Valid()
      modifies world, world.cipher
      ensures world.Valid()
      ensures world.history == old(world.history) + [FieldEvent(metadataKey, recordId, fieldName, plaintext, iv)]
      ensures r == EncodeField(world.cipher.aead, plaintext, metadataKey, recordId, fieldName, iv).result
      ensures r.Ok? ==> FieldWritten(world, r.value, plaintext, metadataKey, recordId, fieldName)
    {
      hide LogOf, EncodeField, Scheme.Lawful;
      r := EncryptField(world.cipher, plaintext, metadataKey, recordId, fieldName, iv);
      ghost var ev := FieldEvent(metadataKey, recordId, fieldName, plaintext, iv);
      LogOfMore(world.cipher.aead, world.history, ev);
      world.history := world.history + [ev];
      assert world.history[|world.history| - 1] == ev;
    }

    /** After any history: a field opens iff it was produced by this vault's key in this very context. */
    method DecryptMetadataField(field: EncryptedField, recordId: Bytes, fieldName: Bytes) returns (r: Result<Bytes>)
      requires world.Valid()
      ensures forall msg :: r == Ok(msg) <==> FieldWritten(world, field, msg, metadataKey, recordId, fieldName)
      ensures var bindable := 0 < |recordId| < 0x1_0000_0000 && 0 < |fieldName| < 0x1_0000_0000;
              r.Err? ==> r == Err(if bindable then Aead else InvalidContext)
    {
      var aad := FieldOpening(world.cipher.Ideal(), field, metadataKey, recordId, fieldName);
      r := DecryptField(world.cipher, field, metadataKey, recordId, fieldName);
      hide DecodeField, LogOf, Scheme.Guarded, Event.WroteField;
      forall msg
        ensures r == Ok(msg) <==> FieldWritten(world, field, msg, metadataKey, recordId, fieldName)
      {
        FieldIntegrity(world.cipher.aead, world.history, field, msg, metadataKey, recordId, fieldName);
      }
    }

    /** The history remembers a file encryption by what it sealed, also when it failed midway. */
    method EncryptFileToBlob(disk: Disk, inPath: Path, outPath: Path, blobId: Bytes, e: Entropy) returns (r: Result<()>)
      requires world.Valid() && disk.fs.WellFormed() && Apart(disk.fs, inPath, outPath)
      modifies world, world.cipher, disk
      ensures world.Valid()
      ensures |old(world.cipher.log)| <= |world.cipher.log|
      ensures world.history == old(world.history) + [BlobEvent(wrapKey, blobId, old(disk.fs).Content(inPath), e,
                |world.cipher.log| - |old(world.cipher.log)|)]
      ensures OthersKept(old(disk.fs), disk.fs, outPath) && disk.fs.WellFormed()
      ensures r.Ok? ==>
                && inPath in old(disk.fs).dir && outPath in disk.fs.dir
                && BlobWritten(world, disk.fs.Content(outPath), old(disk.fs).Content(inPath), wrapKey, blobId)
      ensures NoFailures(disk.schedule) && NoFailures(disk.readSchedule) && inPath in old(disk.fs).dir ==>
                var sealed := EncodeBlob(world.cipher.aead, old(disk.fs).Content(inPath), wrapKey, blobId, e).result;
                if sealed.Ok? then r.Ok? else r == Err(sealed.error)
      ensures var sealed := EncodeBlob(world.cipher.aead, old(disk.fs).Content(inPath), wrapKey, blobId, e).result;
              r.Err? ==> r == Err(Io) || sealed == Err(r.error)
      ensures inPath !in old(disk.fs).dir ==> r.Err? && disk.fs == old(disk.fs)
    {
      hide LogOf, EncodeBlob, Scheme.Lawful, OthersKept;
      ghost var a, log, content := world.cipher.aead, world.cipher.log, disk.fs.Content(inPath);
      ghost var records := EncodeBlob(a, content, wrapKey, blobId, e).records;
      r := EncryptFile(disk, world.cipher, inPath, outPath, wrapKey, blobId, e);
      ghost var ev := BlobEvent(wrapKey, blobId, content, e, |world.cipher.log| - |log|);
      GrownByPrefix(log, world.cipher.log, records);
      LogOfMore(a, world.history, ev);
      world.history := world.history + [ev];
      assert world.history[|world.history| - 1] == ev;
    }

    /** What a successful call publishes is the plaintext of a blob of the history; and a blob of the
        history is published when no I/O operation fails and a temp path can be made. */
    method DecryptBlobToFile(disk: Disk, inPath: Path, outPath: Path, blobId: Bytes, suffix: Option<Suffix>)
      returns (r: Result<()>)
      requires world.Valid()
      requires Layout([Config(world.cipher.Ideal(), wrapKey, blobId, inPath, outPath, suffix)], disk.fs)
      modifies disk
      ensures var c := Config(world.cipher.Ideal(), wrapKey, blobId, inPath, outPath, suffix);
              if r.Ok? then Succeeded(c, old(disk.fs), disk.fs)
              else LeftAlone(c, old(disk.fs), disk.fs) && (r == Err(Io) || Expected(c, old(disk.fs)) == Err(r.error))
      ensures r.Ok? && FreshSessions(world.history) ==>
                && outPath in disk.fs.dir
                && BlobWritten(world, old(disk.fs).Content(inPath), disk.fs.Content(outPath), wrapKey, blobId)
      ensures NoFailures(disk.schedule) && NoFailures(disk.readSchedule) && SiblingTemp(outPath, suffix).Ok? ==>
                forall msg :: BlobWritten(world, old(disk.fs).Content(inPath), msg, wrapKey, blobId) ==>
                  r.Ok? && outPath in disk.fs.dir && disk.fs.Content(outPath) == msg
    {
      ghost var c, fs0 := Config(world.cipher.Ideal(), wrapKey, blobId, inPath, outPath, suffix), disk.fs;
      forall msg | BlobWritten(world, fs0.Content(inPath), msg, wrapKey, blobId) && SiblingTemp(outPath, suffix).Ok?
        ensures Expected(c, fs0) == Ok(msg) && inPath in fs0.dir && c.Decode(fs0.Data(fs0.dir[inPath])) == Ok(msg)
      {
        WrittenIsExpected(world, c, fs0, msg);
      }
      ghost var ls;
      r, ls := DecryptFile(disk, world.cipher, inPath, outPath, wrapKey, blobId, suffix);
      hide DecodeBlob, LogOf, Scheme.Guarded, Event.Wrote, FreshSessions, Layout, Perform, LeftAlone;
      if r.Ok? && FreshSessions(world.history) {
        BlobIntegrity(world.cipher.aead, world.history, Lookahead, old(disk.fs).Content(inPath),
                      disk.fs.Content(outPath), wrapKey, blobId);
      }
    }
  }

  /** A call on a blob of the history that can make a temp path is expected to decode it. */
  lemma {:induction false} WrittenIsExpected(w: World, c: Config, fs: Fs, msg: Bytes)
    requires w.Valid() && c.a == w.cipher.Ideal() && c.Temp().Ok?
    requires BlobWritten(w, fs.Content(c.input), msg, c.wk, c.id)
    ensures c.input in fs.dir && c.Decode(fs.Data(fs.dir[c.input])) == Ok(msg) && Expected(c, fs) == Ok(msg)
  {
    hide LogOf, Scheme.Guarded, Event.Wrote, UnlockHeader, OpenBody;
    var a, h, framed := w.cipher.aead, w.history, fs.Content(c.input);
    var i :| 0 <= i < |h| && h[i].Wrote(a, framed, msg, c.wk, c.id);
    WrittenIsAccepted(a, h, Lookahead, framed, msg, c.wk, c.id, i);
  }

  lemma {:induction false} GrownByPrefix(before: seq<Sealed>, log: seq<Sealed>, records: seq<Sealed>)
    requires LogGrew(before, log, records)
    ensures |before| <= |log| && |log| - |before| <= |records|
    ensures log == before + records[..|log| - |before|]
  {
  }

  /** Two vaults opened from the same secret are interchangeable: what one encrypts the other decrypts,
      whatever has happened before. */
  method OtherVaultReads(world: World, hkdf: Hkdf, masterSecret: Key, plaintext: Bytes, blobId: Bytes, e: Entropy)
    returns (r: Result<Bytes>)
    requires world.Valid()
    modifies world, world.cipher
    ensures world.Valid()
    ensures var sealed := EncodeBlob(world.cipher.aead, plaintext, KeysOf(hkdf, masterSecret).wrap, blobId, e).result;
            r == if sealed.Ok? then Ok(plaintext) else Err(sealed.error)
  {
    var one := Vault.Open(world, hkdf, masterSecret);
    var other := Vault.Open(world, hkdf, masterSecret);
    var framed := one.value.EncryptBlob(plaintext, blobId, e);
    if framed.Err? {
      return Err(framed.error);
    }
    r := other.value.DecryptBlob(framed.value, blobId);
  }

  /** The same for metadata fields. */
  method OtherVaultReadsField(world: World, hkdf: Hkdf, masterSecret: Key, plaintext: Bytes, recordId: Bytes,
          fieldName: Bytes, iv: Option<Nonce>)
    returns (r: Result<Bytes>)
    requires world.Valid()
    modifies world, world.cipher
    ensures world.Valid()
    ensures var mk := KeysOf(hkdf, masterSecret).metadata;
            var sealed := EncodeField(world.cipher.aead, plaintext, mk, recordId, fieldName, iv).result;
            r == if sealed.Ok? then Ok(plaintext) else Err(sealed.error)
  {
    var one := Vault.Open(world, hkdf, masterSecret);
    var other := Vault.Open(world, hkdf, masterSecret);
    var field := one.value.EncryptMetadataField(plaintext, recordId, fieldName, iv);
    if field.Err? {
      return Err(field.error);
    }
    r := other.value.DecryptMetadataField(field.value, recordId, fieldName);
  }

  /** The same for files, when no I/O operation fails: the output is the input again. */
  method OtherVaultReadsFile(world: World, hkdf: Hkdf, masterSecret: Key, disk: Disk, inPath: Path, blobPath: Path,
          outPath: Path, blobId: Bytes, e: Entropy, suffix: Option<Suffix>)
    returns (r: Result<()>)
    requires world.Valid() && Apart(disk.fs, inPath, blobPath) && inPath in disk.fs.dir
    requires NoFailures(disk.schedule) && NoFailures(disk.readSchedule) && SiblingTemp(outPath, suffix).Ok?
    requires Layout([Config(world.cipher.Ideal(), KeysOf(hkdf, masterSecret).wrap, blobId, blobPath, outPath, suffix)],
                    disk.fs)
    modifies world, world.cipher, disk
    ensures world.Valid()
    ensures var content, wk := old(disk.fs).Content(inPath), KeysOf(hkdf, masterSecret).wrap;
            var sealed := EncodeBlob(world.cipher.aead, content, wk, blobId, e).result;
            if sealed.Ok? then r.Ok? && outPath in disk.fs.dir && disk.fs.Content(outPath) == content
            else r == Err(sealed.error)
  {
    hide EncodeBlob, Layout, OthersKept, BlobWritten, Succeeded, LeftAlone, World.Valid, FreshSessions;
    hide SiblingTemp, Subkey, Apart, Fs.WellFormed, Fs.Content, Scheme.Guarded;
    ghost var fs0 := disk.fs;
    var one := Vault.Open(world, hkdf, masterSecret);
    var other := Vault.Open(world, hkdf, masterSecret);
    ghost var c := Config(world.cipher.Ideal(), other.value.wrapKey, blobId, blobPath, outPath, suffix);
    SingleLayout(c, fs0);
    r := one.value.EncryptFileToBlob(disk, inPath, blobPath, blobId, e);
    if r.Err? {
      return;
    }
    ghost var c' := c.(a := world.cipher.Ideal());
    SingleLayout(c', disk.fs);
    TempStaysFree(fs0, disk.fs, blobPath, c.Temp().value);
    ghost var blob := disk.fs.Content(blobPath);
    r := other.value.DecryptBlobToFile(disk, blobPath, outPath, blobId, suffix);
    assert BlobWritten(world, blob, fs0.Content(inPath), other.value.wrapKey, blobId);
  }

  lemma {:induction false} TempStaysFree(fs0: Fs, fs: Fs, written: Path, temp: Path)
    requires OthersKept(fs0, fs, written) && temp !in fs0.dir && temp != written
    ensures temp !in fs.dir
  {
  }
}
