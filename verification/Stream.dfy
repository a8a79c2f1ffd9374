/** The STREAM construction with a 32-bit big-endian counter (`EncryptorBE32`, `DecryptorBE32`). */
module Stream {
  import opened ByteStrings
  import opened Context
  import opened Gcm

  /** The last counter value; the construction keeps it for a last segment. */
  const COUNTER_MAX: nat := U32_SIZE - 1

  /** Nonce of a segment: 7-byte prefix, 4-byte counter, 1-byte last flag. */
  function SegmentNonce(prefix: Prefix, position: nat, last: bool): Nonce
    requires position <= COUNTER_MAX
  {
    prefix + Be32(position) + [if last then 1 else 0]
  }

  /** What stands where in a nonce; the flag is 1 for a last segment. */
  lemma {:induction false} SegmentNonceBytes(prefix: Prefix, position: nat, last: bool)
    requires position <= COUNTER_MAX
    ensures var n := SegmentNonce(prefix, position, last);
            && n[..7] == prefix && Holds32(n[7..11], position) && n[11] == if last then 1 else 0
  {
    Be32Bytes(position);
    hide Be32;
    assert SegmentNonce(prefix, position, last)[7..11] == Be32(position);
  }

  lemma {:induction false} SegmentNonceInjective(p: Prefix, i: nat, l: bool, p': Prefix, i': nat, l': bool)
    requires i <= COUNTER_MAX && i' <= COUNTER_MAX
    ensures SegmentNonce(p, i, l) == SegmentNonce(p', i', l') <==> p == p' && i == i' && l == l'
  {
    if SegmentNonce(p, i, l) == SegmentNonce(p', i', l') {
      var f: Bytes, f': Bytes := [if l then 1 else 0], [if l' then 1 else 0];
      SplitEqual(p + Be32(i), p' + Be32(i'), f, f');
      assert f[0] == f'[0];
      SplitEqual(p, p', Be32(i), Be32(i'));
      Be32Injective(i, i');
    }
  }

  /** What fixes every segment of one blob besides position and content. */
  datatype Session = Session(key: Key, prefix: Prefix, aad: Bytes) {

    /** Sealing at a position: a segment that is not the last is refused at the last counter value. */
    function SealAt(a: Scheme, position: nat, last: bool, msg: Bytes): Option<Bytes>
      requires position <= COUNTER_MAX
    {
      if !last && position == COUNTER_MAX then None
      else a.seal(key, SegmentNonce(prefix, position, last), aad, msg)
    }

    function OpenAt(a: Scheme, position: nat, last: bool, ct: Bytes): Option<Bytes>
      requires position <= COUNTER_MAX
    {
      if !last && position == COUNTER_MAX then None
      else a.open(key, SegmentNonce(prefix, position, last), aad, ct)
    }

    function Record(position: nat, last: bool, msg: Bytes, ct: Bytes): Sealed
      requires position <= COUNTER_MAX
    {
      Sealed(key, SegmentNonce(prefix, position, last), aad, msg, ct)
    }
  }

  class Encryptor {
    const cipher: Cipher
    const key: Key
    const prefix: Prefix
    var position: nat
    /** False once `EncryptLast` has consumed the object. */
    var live: bool

    ghost predicate Valid()
      reads this
    {
      live && position <= COUNTER_MAX
    }

    constructor (cipher: Cipher, key: Key, prefix: Prefix)
      ensures Valid() && position == 0
      ensures this.cipher == cipher && this.key == key && this.prefix == prefix
    {
      this.cipher := cipher;
      this.key := key;
      this.prefix := prefix;
      position := 0;
      live := true;
    }

    method EncryptNext(msg: Bytes, aad: Bytes) returns (ct: Option<Bytes>)
      requires Valid()
      modifies this`position, cipher
      ensures Valid()
      ensures ct == Session(key, prefix, aad).SealAt(cipher.aead, old(position), false, msg)
      ensures position == old(position) + if ct.Some? then 1 else 0
      ensures cipher.log == old(cipher.log)
              + if ct.Some? then [Session(key, prefix, aad).Record(old(position), false, msg, ct.value)] else []
    {
      if position == COUNTER_MAX {
        return None;
      }
      ct := cipher.Encrypt(key, SegmentNonce(prefix, position, false), aad, msg);
      if ct.Some? {
        position := position + 1;
      }
    }

    method EncryptLast(msg: Bytes, aad: Bytes) returns (ct: Option<Bytes>)
      requires Valid()
      modifies this`live, cipher
      ensures !live
      ensures ct == Session(key, prefix, aad).SealAt(cipher.aead, old(position), true, msg)
      ensures cipher.log == old(cipher.log)
              + if ct.Some? then [Session(key, prefix, aad).Record(old(position), true, msg, ct.value)] else []
    {
      live := false;
      ct := cipher.Encrypt(key, SegmentNonce(prefix, position, true), aad, msg);
    }
  }

  class Decryptor {
    const cipher: Cipher
    const key: Key
    const prefix: Prefix
    var position: nat
    /** False once `DecryptLast` has consumed the object. */
    var live: bool

    ghost predicate Valid()
      reads this
    {
      live && position <= COUNTER_MAX
    }

    constructor (cipher: Cipher, key: Key, prefix: Prefix)
      ensures Valid() && position == 0
      ensures this.cipher == cipher && this.key == key && this.prefix == prefix
    {
      this.cipher := cipher;
      this.key := key;
      this.prefix := prefix;
      position := 0;
      live := true;
    }

    method DecryptNext(ct: Bytes, aad: Bytes) returns (msg: Option<Bytes>)
      requires Valid()
      modifies this`position
      ensures Valid()
      ensures msg == Session(key, prefix, aad).OpenAt(cipher.Ideal(), old(position), false, ct)
      ensures position == old(position) + if msg.Some? then 1 else 0
    {
      if position == COUNTER_MAX {
        return None;
      }
      msg := cipher.Decrypt(key, SegmentNonce(prefix, position, false), aad, ct);
      if msg.Some? {
        position := position + 1;
      }
    }

    method DecryptLast(ct: Bytes, aad: Bytes) returns (msg: Option<Bytes>)
      requires Valid()
      modifies this`live
      ensures !live
      ensures msg == Session(key, prefix, aad).OpenAt(cipher.Ideal(), position, true, ct)
    {
      live := false;
      msg := cipher.Decrypt(key, SegmentNonce(prefix, position, true), aad, ct);
    }
  }
}
