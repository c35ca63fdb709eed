/** AES-256 in CBC mode with PKCS#7 padding, as AesManaged with CipherMode.CBC and
    PaddingMode.PKCS7 computes it: the chaining of section 6.2 of NIST SP 800-38A over the
    uninterpreted block cipher of the suite, and the padding of section 6.3 of RFC 5652. */
module Cbc {
  import opened Wrappers
  import opened Bytes
  import opened Primitives

  /** The padding byte value for a plaintext of length n: 1 to 16. */
  function PadCount(n: nat): (k: nat)
    ensures 1 <= k <= BlockSize
    ensures (n + k) % BlockSize == 0
  {
    BlockSize - n % BlockSize
  }

  /** PKCS#7 padding: k copies of the byte k, where k makes the length a multiple of 16. */
  function Pad(p: Bytes): (r: Bytes)
    ensures |r| % BlockSize == 0 && |p| < |r| <= |p| + BlockSize
    ensures r[..|p|] == p
    ensures forall i :: |p| <= i < |r| ==> ToNat(r[i]) == |r| - |p|
  {
    var k := PadCount(|p|);
    p + seq(k, _ => ToByte(k))
  }

  /** Whether the last ToNat(last byte) bytes all carry the value of the last byte. */
  predicate WellPadded(b: Bytes) {
    && |b| > 0 && |b| % BlockSize == 0
    && 1 <= ToNat(b[|b| - 1]) <= BlockSize
    && forall i :: |b| - ToNat(b[|b| - 1]) <= i < |b| ==> b[i] == b[|b| - 1]
  }

  /** PKCS#7 padding removal; None where the decryptor raises CryptographicException. */
  function Unpad(b: Bytes): (r: Option<Bytes>)
    ensures r.Some? <==> WellPadded(b)
    ensures r.Some? ==> |r.value| < |b| && r.value == b[..|r.value|]
  {
    if WellPadded(b) then Some(b[..|b| - ToNat(b[|b| - 1])]) else None
  }

  /** Padding is removed exactly. */
  lemma UnpadPad(p: Bytes)
    ensures Unpad(Pad(p)) == Some(p)
  {
    var r := Pad(p);
    var k := |r| - |p|;
    assert ToNat(r[|r| - 1]) == k;
    forall i | |r| - k <= i < |r|
      ensures r[i] == r[|r| - 1]
    {
      ToByteToNat(r[i]);
      ToByteToNat(r[|r| - 1]);
    }
    assert r[..|r| - k] == p;
  }

  /** Every string Unpad accepts is the padding of what it returns: padding is canonical. */
  lemma PadUnpad(b: Bytes)
    requires Unpad(b).Some?
    ensures Pad(Unpad(b).value) == b
  {
    var p := Unpad(b).value;
    var k := ToNat(b[|b| - 1]);
    assert |p| == |b| - k;
    assert PadCount(|p|) == k by {
      assert (|p| + k) % BlockSize == 0;
    }
    var r := Pad(p);
    assert |r| == |b|;
    forall i | 0 <= i < |b|
      ensures r[i] == b[i]
    {
      if i >= |p| {
        assert ToNat(r[i]) == k;
        ToByteToNat(r[i]);
        ToByteToNat(b[i]);
      }
    }
  }

  /** CBC encryption of whole blocks, chaining from `prev`: each ciphertext block is the block
      cipher of the plaintext block xor the previous ciphertext block. */
  function Encrypt(s: Suite, key: Bytes, prev: Bytes, p: Bytes): (c: Bytes)
    requires |prev| == BlockSize && |p| % BlockSize == 0
    ensures |c| == |p|
    decreases |p|
  {
    if |p| == 0 then []
    else
      var block := s.encryptBlock(key, Xor(p[..BlockSize], prev));
      block + Encrypt(s, key, block, p[BlockSize..])
  }

  /** CBC decryption of whole blocks, chaining from `prev`. */
  function Decrypt(s: Suite, key: Bytes, prev: Bytes, c: Bytes): (p: Bytes)
    requires |prev| == BlockSize && |c| % BlockSize == 0
    ensures |p| == |c|
    decreases |c|
  {
    if |c| == 0 then []
    else
      var block := c[..BlockSize];
      Xor(s.decryptBlock(key, block), prev) + Decrypt(s, key, block, c[BlockSize..])
  }

  /** CBC decryption inverts CBC encryption under the same key and IV. */
  lemma {:induction false} DecryptEncrypt(s: Suite, key: Bytes, prev: Bytes, p: Bytes)
    requires |prev| == BlockSize && |p| % BlockSize == 0
    ensures Decrypt(s, key, prev, Encrypt(s, key, prev, p)) == p
    decreases |p|
  {
    if |p| > 0 {
      var c := Encrypt(s, key, prev, p);
      var block := s.encryptBlock(key, Xor(p[..BlockSize], prev));
      assert c[..BlockSize] == block;
      assert c[BlockSize..] == Encrypt(s, key, block, p[BlockSize..]);
      XorTwice(p[..BlockSize], prev);
      DecryptEncrypt(s, key, block, p[BlockSize..]);
      assert p == p[..BlockSize] + p[BlockSize..];
    }
  }

  /** The CryptoStream encryptor: pad, then chain from the IV. */
  function PaddedEncrypt(s: Suite, key: Bytes, iv: Bytes, p: Bytes): (c: Bytes)
    requires |iv| == BlockSize
    ensures |c| % BlockSize == 0 && |p| < |c| <= |p| + BlockSize
  {
    Encrypt(s, key, iv, Pad(p))
  }

  /** The CryptoStream decryptor on whole blocks: chain from the IV, then strip the padding;
      a bad padding raises CryptographicException. With no ciphertext written, the final
      block step holds nothing to decrypt and returns the empty array without depadding. */
  function PaddedDecrypt(s: Suite, key: Bytes, iv: Bytes, c: Bytes): (r: Result<Bytes>)
    requires |iv| == BlockSize && |c| % BlockSize == 0
    ensures |c| == 0 ==> r == Ok([])
    ensures |c| > 0 ==> (r.Ok? <==> Unpad(Decrypt(s, key, iv, c)).Some?)
    ensures r.Err? ==> r.error == Cryptographic
    ensures r.Ok? ==> |r.value| <= |c| && (|c| > 0 ==> |r.value| < |c|)
  {
    if |c| == 0 then Ok([])
    else
      match Unpad(Decrypt(s, key, iv, c))
      case None => Err(Cryptographic)
      case Some(p) => Ok(p)
  }

  /** Decrypting what was encrypted under the same key and IV gives back the plaintext. */
  lemma PaddedRoundTrip(s: Suite, key: Bytes, iv: Bytes, p: Bytes)
    requires |iv| == BlockSize
    ensures PaddedDecrypt(s, key, iv, PaddedEncrypt(s, key, iv, p)) == Ok(p)
  {
    DecryptEncrypt(s, key, iv, Pad(p));
    UnpadPad(p);
  }
}
