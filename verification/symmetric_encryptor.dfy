/** SymmetricEncryptor: AES-256-CBC with PKCS#7 padding under a fixed 32-byte key, together
    with the SHA-256 hash of that key for use as an HMAC key. */
module SymmetricEncryptor {
  import opened Wrappers
  import opened Bytes
  import opened Primitives
  import Cbc

  const KeySize: nat := 32
  const IvSize: nat := 16

  datatype Encryptor = Encryptor(key: Bytes, keyHash: Bytes)

  /** The constructor: a key of any length other than 32 raises CryptoParameterException. */
  function Create(s: Suite, key: Bytes): (r: Result<Encryptor>)
    ensures r.Err? <==> |key| != KeySize
    ensures r.Err? ==> r.error == CryptoParameter
    ensures r.Ok? ==> r.value.key == key && r.value.keyHash == s.hash(key) && |r.value.keyHash| == HashSize
  {
    if |key| != KeySize then Err(CryptoParameter) else Ok(Encryptor(key, s.hash(key)))
  }

  /** What the constructor establishes and nothing afterwards changes: a 32-byte key and its
      SHA-256 hash. */
  predicate Valid(s: Suite, e: Encryptor) {
    |e.key| == KeySize && e.keyHash == s.hash(e.key)
  }

  /** The KeyHash getter: a copy of the key's hash (the setter does nothing). */
  function KeyHash(s: Suite, e: Encryptor): (h: Bytes)
    ensures Valid(s, e) ==> h == s.hash(e.key) && |h| == HashSize
  {
    e.keyHash
  }

  /** The getter on a new encryptor gives the SHA-256 hash of the key it was built from. */
  lemma KeyHashOfCreate(s: Suite, key: Bytes)
    requires |key| == KeySize
    ensures Create(s, key).Ok? && Valid(s, Create(s, key).value)
    ensures KeyHash(s, Create(s, key).value) == s.hash(key)
  {
  }

  /** Encrypt: an IV of any length other than 16 raises CryptoParameterException; otherwise the
      padded CBC encryption, a whole number of blocks and at most one block longer. */
  function Encrypt(s: Suite, e: Encryptor, plain: Bytes, iv: Bytes): (r: Result<Bytes>)
    ensures r.Err? <==> |iv| != IvSize
    ensures r.Err? ==> r.error == CryptoParameter
    ensures r.Ok? ==> |r.value| % BlockSize == 0 && |plain| < |r.value| <= |plain| + BlockSize
  {
    if |iv| != IvSize then Err(CryptoParameter) else Ok(Cbc.PaddedEncrypt(s, e.key, iv, plain))
  }

  /** Decrypt: the IV is checked first, then the ciphertext length, then the padding. */
  function Decrypt(s: Suite, e: Encryptor, cipher: Bytes, iv: Bytes): (r: Result<Bytes>)
    ensures |iv| != IvSize ==> r == Err(CryptoParameter)
    ensures |iv| == IvSize && |cipher| % IvSize != 0 ==> r == Err(Format)
    ensures |iv| == IvSize && |cipher| % IvSize == 0 ==> r.Ok? || r == Err(Cryptographic)
    ensures |iv| == IvSize && |cipher| == 0 ==> r == Ok([])
    ensures r.Ok? ==> |r.value| <= |cipher| && (|cipher| > 0 ==> |r.value| < |cipher|)
  {
    if |iv| != IvSize then Err(CryptoParameter)
    else if |cipher| % IvSize != 0 then Err(Format)
    else Cbc.PaddedDecrypt(s, e.key, iv, cipher)
  }

  /** Decrypting with the IV used to encrypt returns the plaintext, the empty one included. */
  lemma RoundTrip(s: Suite, e: Encryptor, plain: Bytes, iv: Bytes)
    requires |iv| == IvSize
    ensures Encrypt(s, e, plain, iv).Ok?
    ensures Decrypt(s, e, Encrypt(s, e, plain, iv).value, iv) == Ok(plain)
  {
    Cbc.PaddedRoundTrip(s, e.key, iv, plain);
  }
}
