/** Subkey derivation (`kdf.rs`): HKDF as a deterministic source of up to 8160 octets
    (section 2.3 of RFC 5869: the output is the first L octets of T). */
module Kdf {
  import opened ByteStrings

  const MAX_LENGTH: nat := 8160

  type Octets = b: Bytes | |b| == MAX_LENGTH witness seq(MAX_LENGTH, _ => 0)

  /** For a secret and an info string, all octets that may be asked for. */
  type Hkdf = (Bytes, Bytes) -> Octets

  // "filer-crypto/v1/wrap", "filer-crypto/v1/metadata", "filer-crypto/v1/sign"
  const WRAP_CTX: Bytes :=
    [102, 105, 108, 101, 114, 45, 99, 114, 121, 112, 116, 111, 47, 118, 49, 47, 119, 114, 97, 112]
  const METADATA_CTX: Bytes :=
    [102, 105, 108, 101, 114, 45, 99, 114, 121, 112, 116, 111, 47, 118, 49, 47,
     109, 101, 116, 97, 100, 97, 116, 97]
  const SIGN_CTX: Bytes :=
    [102, 105, 108, 101, 114, 45, 99, 114, 121, 112, 116, 111, 47, 118, 49, 47, 115, 105, 103, 110]

  lemma {:induction false} ContextStrings()
    ensures Spells(WRAP_CTX, "filer-crypto/v1/wrap") && Spells(METADATA_CTX, "filer-crypto/v1/metadata")
    ensures Spells(SIGN_CTX, "filer-crypto/v1/sign")
  {
  }

  method DeriveSubkey(hkdf: Hkdf, secret: Bytes, info: Bytes, out: array<Byte>) returns (r: Result<()>)
    modifies out
    ensures out.Length <= 8160 ==> r.Ok? && out[..] == hkdf(secret, info)[..out.Length]
    ensures out.Length > 8160 ==> r == Err(InvalidKeyLength) && out[..] == old(out[..])
  {
    if out.Length > MAX_LENGTH {
      return Err(InvalidKeyLength);
    }
    forall i | 0 <= i < out.Length {
      out[i] := hkdf(secret, info)[i];
    }
    return Ok(());
  }
}
