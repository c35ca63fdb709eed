/** AesCrypter: encrypt-then-MAC packages. A package is IV (16) || AES-256-CBC ciphertext ||
    HMAC-SHA256 of the first two parts under the key (32). */
module AesCrypter {
  import opened Wrappers
  import opened Bytes
  import opened Primitives
  import Cbc

  const KeySize: nat := 32
  const IvSize: nat := 16

  datatype Crypter = Crypter(key: Bytes, disposed: bool)

  /** The Key setter: refuses after disposal, then refuses any length other than 32. */
  function SetKey(c: Crypter, value: Bytes): (r: Result<Crypter>)
    ensures c.disposed ==> r == Err(ObjectDisposed)
    ensures !c.disposed && |value| != KeySize ==> r == Err(CryptoParameter)
    ensures !c.disposed && |value| == KeySize ==> r == Ok(c.(key := value))
  {
    if c.disposed then Err(ObjectDisposed)
    else if |value| != KeySize then Err(CryptoParameter)
    else Ok(c.(key := value))
  }

  /** The constructor: the given key, or 32 random bytes (a parameter here) when none is given. */
  function Create(key: Option<Bytes>, random: Bytes): (r: Result<Crypter>)
    requires |random| == KeySize
    ensures key.Some? && |key.value| != KeySize ==> r == Err(CryptoParameter)
    ensures key.Some? && |key.value| == KeySize ==> r == Ok(Crypter(key.value, false))
    ensures key.None? ==> r == Ok(Crypter(random, false))
  {
    SetKey(Crypter([], false), key.GetOr(random))
  }

  /** Encrypt: disposal first, then the IV length, then padded CBC encryption. */
  function Encrypt(s: Suite, c: Crypter, plain: Bytes, iv: Bytes): (r: Result<Bytes>)
    ensures c.disposed ==> r == Err(ObjectDisposed)
    ensures !c.disposed && |iv| != IvSize ==> r == Err(CryptoParameter)
    ensures r.Ok? ==> |r.value| % BlockSize == 0 && |plain| < |r.value| <= |plain| + BlockSize
  {
    if c.disposed then Err(ObjectDisposed)
    else if |iv| != IvSize then Err(CryptoParameter)
    else Ok(Cbc.PaddedEncrypt(s, c.key, iv, plain))
  }

  /** Decrypt: disposal, IV length, ciphertext length (FormatException), then the padding. */
  function Decrypt(s: Suite, c: Crypter, cipher: Bytes, iv: Bytes): (r: Result<Bytes>)
    ensures c.disposed ==> r == Err(ObjectDisposed)
    ensures !c.disposed && |iv| != IvSize ==> r == Err(CryptoParameter)
    ensures !c.disposed && |iv| == IvSize && |cipher| % IvSize != 0 ==> r == Err(Format)
    ensures !c.disposed && |iv| == IvSize && |cipher| == 0 ==> r == Ok([])
    ensures r.Ok? ==> |r.value| <= |cipher| && (|cipher| > 0 ==> |r.value| < |cipher|)
  {
    if c.disposed then Err(ObjectDisposed)
    else if |iv| != IvSize then Err(CryptoParameter)
    else if |cipher| % IvSize != 0 then Err(Format)
    else Cbc.PaddedDecrypt(s, c.key, iv, cipher)
  }

  /** Package with the random IV `iv`: IV, ciphertext, then the HMAC of both under the key. */
  function Package(s: Suite, c: Crypter, plain: Bytes, iv: Bytes): (r: Result<Bytes>)
    requires |iv| == IvSize
    ensures c.disposed ==> r == Err(ObjectDisposed)
    ensures !c.disposed ==> r.Ok? && |r.value| >= IvSize + BlockSize + HashSize
    ensures r.Ok? ==> r.value[..IvSize] == iv
    ensures r.Ok? ==> r.value[|r.value| - HashSize..] == s.hmac(r.value[..|r.value| - HashSize], c.key)
  {
    match Encrypt(s, c, plain, iv)
    case Err(e) => Err(e)
    case Ok(body) =>
      var headAndBody := iv + body;
      var package := headAndBody + s.hmac(headAndBody, c.key);
      assert package[..|package| - HashSize] == headAndBody;
      Ok(package)
  }

  /** Unpackage: a package shorter than the HMAC fails allocating the head (OverflowException);
      a tail that is not the HMAC of the rest under the key raises TamperedPackageException;
      an authenticated head shorter than an IV fails copying it (ArgumentException); the rest
      is Decrypt of the body under the head as IV. */
  function Unpackage(s: Suite, c: Crypter, package: Bytes): (r: Result<Bytes>)
    ensures |package| < HashSize ==> r == Err(Argument)
    ensures |package| >= HashSize && package[|package| - HashSize..] != s.hmac(package[..|package| - HashSize], c.key)
            ==> r == Err(TamperedPackage)
    ensures r.Ok? ==> |package| >= IvSize + HashSize && !c.disposed
    ensures r.Ok? ==> package[|package| - HashSize..] == s.hmac(package[..|package| - HashSize], c.key)
    ensures r.Ok? ==> r == Decrypt(s, c, package[IvSize..|package| - HashSize], package[..IvSize])
  {
    if |package| < HashSize then Err(Argument)
    else
      var headAndBody := package[..|package| - HashSize];
      var tail := package[|package| - HashSize..];
      if tail != s.hmac(headAndBody, c.key) then Err(TamperedPackage)
      else if |headAndBody| < IvSize then Err(Argument)
      else
        assert headAndBody[IvSize..] == package[IvSize..|package| - HashSize];
        assert headAndBody[..IvSize] == package[..IvSize];
        Decrypt(s, c, headAndBody[IvSize..], headAndBody[..IvSize])
  }

  /** Dispose: zeroes the key in place and sets the flag; a second call does nothing. */
  function Dispose(c: Crypter): (c': Crypter)
    ensures c'.disposed
    ensures !c.disposed ==> c'.key == Zeros(|c.key|)
    ensures c.disposed ==> c' == c
  {
    if c.disposed then c else Crypter(Zeros(|c.key|), true)
  }

  /** A package made by a live crypter unpackages to its plaintext, for every IV. */
  lemma PackageRoundTrip(s: Suite, c: Crypter, plain: Bytes, iv: Bytes)
    requires |iv| == IvSize && !c.disposed
    ensures Unpackage(s, c, Package(s, c, plain, iv).value) == Ok(plain)
  {
    var body := Cbc.PaddedEncrypt(s, c.key, iv, plain);
    var package := Package(s, c, plain, iv).value;
    assert package == iv + body + s.hmac(iv + body, c.key);
    assert package[..|package| - HashSize] == iv + body;
    assert package[IvSize..|package| - HashSize] == body;
    assert package[..IvSize] == iv;
    Cbc.PaddedRoundTrip(s, c.key, iv, plain);
  }

  /** Once disposed, nothing unpackages: the zeroed key either fails the HMAC or reaches
      Decrypt, which throws ObjectDisposedException; and the key setter refuses. */
  lemma DisposedRefuses(s: Suite, c: Crypter, plain: Bytes, iv: Bytes, package: Bytes, key: Bytes)
    requires |iv| == IvSize
    ensures Dispose(Dispose(c)) == Dispose(c)
    ensures Package(s, Dispose(c), plain, iv) == Err(ObjectDisposed)
    ensures Unpackage(s, Dispose(c), package).Err?
    ensures SetKey(Dispose(c), key) == Err(ObjectDisposed)
  {
  }
}
