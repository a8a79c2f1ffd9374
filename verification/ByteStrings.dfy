/** Bytes, fixed-length byte strings, big-endian words and the crate's error type. */
module ByteStrings {

  datatype Option<+T> = None | Some(value: T)

  /** `FilumCryptoError`, without the variants of the recovery phrase. */
  datatype Error = Aead | InvalidContext | InvalidKeyLength | InvalidSignature | Randomness | Io

  datatype Result<+T> = Ok(value: T) | Err(error: Error)

  type Byte = b: int | 0 <= b < 256
  type Bytes = seq<Byte>

  const U32_SIZE: nat := 0x1_0000_0000

  function Power256(width: nat): (p: nat)
    ensures p > 0
  {
    if width == 0 then 1 else 256 * Power256(width - 1)
  }

  /** The `width` low-order bytes of `n`, most significant first. */
  function BigEndian(n: nat, width: nat): (r: Bytes)
    ensures |r| == width
  {
    if width == 0 then [] else BigEndian(n / 256, width - 1) + [n % 256]
  }

  function FromBigEndian(b: Bytes): nat {
    if b == [] then 0 else FromBigEndian(b[..|b| - 1]) * 256 + b[|b| - 1]
  }

  lemma {:induction false} FromBigEndianOfBigEndian(n: nat, width: nat)
    requires n < Power256(width)
    ensures FromBigEndian(BigEndian(n, width)) == n
  {
    if width > 0 {
      FromBigEndianOfBigEndian(n / 256, width - 1);
      assert BigEndian(n, width)[..width - 1] == BigEndian(n / 256, width - 1);
    }
  }

  lemma {:induction false} BigEndianOfFromBigEndian(b: Bytes)
    ensures FromBigEndian(b) < Power256(|b|)
    ensures BigEndian(FromBigEndian(b), |b|) == b
  {
    if b != [] {
      BigEndianOfFromBigEndian(b[..|b| - 1]);
    }
  }

  lemma {:induction false} Power256Of4()
    ensures Power256(4) == U32_SIZE
  {
    assert Power256(2) == 0x1_0000;
    assert Power256(4) == 256 * (256 * Power256(2));
  }

  /** `u32::to_be_bytes`. */
  function Be32(n: nat): (r: Bytes)
    requires n < U32_SIZE
  {
    BigEndian(n, 4)
  }

  /** The four bytes, most significant first. */
  lemma {:induction false} Be32Bytes(n: nat)
    requires n < U32_SIZE
    ensures Be32(n) == [n / 0x100_0000, n / 0x1_0000 % 256, n / 0x100 % 256, n % 256]
  {
    assert n / 256 / 256 == n / 0x1_0000 && n / 0x1_0000 / 256 == n / 0x100_0000 < 256;
    var b1 := BigEndian(n / 0x100_0000, 1);
    assert b1 == BigEndian(n / 0x100_0000 / 256, 0) + [n / 0x100_0000 % 256] == [n / 0x100_0000];
    assert BigEndian(n / 0x1_0000, 2) == b1 + [n / 0x1_0000 % 256];
    assert BigEndian(n / 256, 3) == BigEndian(n / 0x1_0000, 2) + [n / 256 % 256];
    assert BigEndian(n, 4) == BigEndian(n / 256, 3) + [n % 256];
  }

  /** The four bytes hold the number, most significant first. */
  predicate Holds32(b: Bytes, n: nat) {
    n < 0x1_0000_0000 && b == [n / 0x100_0000, n / 0x1_0000 % 256, n / 0x100 % 256, n % 256]
  }

  /** The bytes are the ASCII characters of the string. */
  predicate Spells(b: Bytes, s: string) {
    |b| == |s| && forall i :: 0 <= i < |s| ==> b[i] == s[i] as int
  }

  lemma {:induction false} Be32Injective(m: nat, n: nat)
    requires m < U32_SIZE && n < U32_SIZE
    requires Be32(m) == Be32(n)
    ensures m == n
  {
    Power256Of4();
    FromBigEndianOfBigEndian(m, 4);
    FromBigEndianOfBigEndian(n, 4);
  }

  /** Equal concatenations with first parts of equal length have equal parts. */
  lemma {:induction false} SplitEqual<T>(a: seq<T>, b: seq<T>, s: seq<T>, t: seq<T>)
    requires a + s == b + t
    requires |a| == |b|
    ensures a == b && s == t
  {
    assert a == (a + s)[..|a|] == (b + t)[..|b|] == b;
    assert s == (a + s)[|a|..] == (b + t)[|b|..] == t;
  }
}
