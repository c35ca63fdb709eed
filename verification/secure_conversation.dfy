/** SecureConversation: IV || CBC ciphertext || HMAC-SHA256 packages over an established
    SymmetricEncryptor, the HMAC keyed with the hash of the AES key, and a set of tails already
    accepted, meant to reject replayed packages.

    As written, nothing is ever added to `usedHMACs` (SecureConversation.cs, line 31 declares
    it, line 141 only reads it), so the duplicate check can never fire and a replayed package
    is accepted again. `OpenAsWritten` models that code; `Open` records every authenticated
    tail, which is what the duplicate check evidently relies on, and `Receive` uses it. */
module SecureConversation {
  import opened Wrappers
  import opened Bytes
  import opened Primitives
  import SymmetricEncryptor

  const IvSize: nat := 16

  /** A conversation after Establish: the shared encryptor, the tails seen, the disposed flag. */
  datatype Conversation = Conversation(cryptor: SymmetricEncryptor.Encryptor, usedHmacs: set<Bytes>, disposed: bool)

  function Create(cryptor: SymmetricEncryptor.Encryptor): (c: Conversation)
    ensures c.cryptor == cryptor && c.usedHmacs == {} && !c.disposed
  {
    Conversation(cryptor, {}, false)
  }

  /** ConstructSecurePackage with the random IV `iv`. */
  function Construct(s: Suite, c: Conversation, plain: Bytes, iv: Bytes): (package: Bytes)
    requires |iv| == IvSize
    ensures |package| >= IvSize + BlockSize + HashSize
    ensures package[..IvSize] == iv
    ensures package[|package| - HashSize..]
            == s.hmac(package[..|package| - HashSize], SymmetricEncryptor.KeyHash(s, c.cryptor))
  {
    var body := SymmetricEncryptor.Encrypt(s, c.cryptor, plain, iv).value;
    var headAndBody := iv + body;
    var package := headAndBody + s.hmac(headAndBody, SymmetricEncryptor.KeyHash(s, c.cryptor));
    assert package[..|package| - HashSize] == headAndBody;
    package
  }

  /** The tail of a package: its last 32 bytes. */
  function Tail(package: Bytes): Bytes
    requires |package| >= HashSize
  {
    package[|package| - HashSize..]
  }

  /** Whether the tail is the HMAC of the rest under the key hash. */
  predicate Authentic(s: Suite, c: Conversation, package: Bytes)
    requires |package| >= HashSize
  {
    Tail(package) == s.hmac(package[..|package| - HashSize], SymmetricEncryptor.KeyHash(s, c.cryptor))
  }

  /** Everything OpenSecurePackage does after the duplicate check: the MAC, then the head and
      body copies, then Decrypt. */
  function OpenAuthentic(s: Suite, c: Conversation, package: Bytes): (r: Result<Bytes>)
    requires |package| >= HashSize
    ensures !Authentic(s, c, package) ==> r == Err(TamperedPackage)
    ensures r.Ok? ==> Authentic(s, c, package) && |package| >= IvSize + HashSize
  {
    if !Authentic(s, c, package) then Err(TamperedPackage)
    else if |package| - HashSize < IvSize then Err(Argument)
    else SymmetricEncryptor.Decrypt(s, c.cryptor, package[IvSize..|package| - HashSize], package[..IvSize])
  }

  /** OpenSecurePackage as written: a package shorter than the HMAC fails the allocation; a tail
      in `usedHMACs` is a duplicate, checked before the MAC; and the conversation comes back
      unchanged, because nothing is ever recorded. */
  function OpenAsWritten(s: Suite, c: Conversation, package: Bytes): (out: (Conversation, Result<Bytes>))
    ensures out.0 == c
    ensures |package| < HashSize ==> out.1 == Err(Argument)
    ensures |package| >= HashSize && Tail(package) in c.usedHmacs ==> out.1 == Err(DuplicatePackage)
    ensures |package| >= HashSize && Tail(package) !in c.usedHmacs ==> out.1 == OpenAuthentic(s, c, package)
  {
    if |package| < HashSize then (c, Err(Argument))
    else if Tail(package) in c.usedHmacs then (c, Err(DuplicatePackage))
    else (c, OpenAuthentic(s, c, package))
  }

  /** OpenSecurePackage with the record the duplicate check presupposes: the tail of every
      package that passes the MAC check is added to `usedHMACs`. */
  function Open(s: Suite, c: Conversation, package: Bytes): (out: (Conversation, Result<Bytes>))
    ensures |package| < HashSize ==> out == (c, Err(Argument))
    ensures |package| >= HashSize && Tail(package) in c.usedHmacs ==> out == (c, Err(DuplicatePackage))
    ensures |package| >= HashSize && Tail(package) !in c.usedHmacs ==> out.1 == OpenAuthentic(s, c, package)
    ensures out.0.cryptor == c.cryptor && out.0.disposed == c.disposed
    ensures |package| >= HashSize && !Authentic(s, c, package) ==> out.0 == c
    ensures |package| >= HashSize && Authentic(s, c, package) ==> out.0.usedHmacs == c.usedHmacs + {Tail(package)}
  {
    if |package| < HashSize then (c, Err(Argument))
    else if Tail(package) in c.usedHmacs then (c, Err(DuplicatePackage))
    else if !Authentic(s, c, package) then (c, Err(TamperedPackage))
    else (c.(usedHmacs := c.usedHmacs + {Tail(package)}), OpenAuthentic(s, c, package))
  }

  /** Send: refuses after disposal; otherwise the package handed to the insecure conversation. */
  function Send(s: Suite, c: Conversation, plain: Bytes, iv: Bytes): (r: Result<Bytes>)
    requires |iv| == IvSize
    ensures r.Err? <==> c.disposed
    ensures r.Err? ==> r.error == ObjectDisposed
    ensures r.Ok? ==> r == Ok(Construct(s, c, plain, iv))
  {
    if c.disposed then Err(ObjectDisposed) else Ok(Construct(s, c, plain, iv))
  }

  /** Receive: refuses after disposal; otherwise opens the package the insecure conversation
      delivered. */
  function Receive(s: Suite, c: Conversation, package: Bytes): (out: (Conversation, Result<Bytes>))
    ensures c.disposed ==> out == (c, Err(ObjectDisposed))
    ensures !c.disposed ==> out == Open(s, c, package)
  {
    if c.disposed then (c, Err(ObjectDisposed)) else Open(s, c, package)
  }

  /** Dispose: sets the flag; a second call does nothing. */
  function Dispose(c: Conversation): (c': Conversation)
    ensures c'.disposed && c'.cryptor == c.cryptor && c'.usedHmacs == c.usedHmacs
    ensures c.disposed ==> c' == c
  {
    c.(disposed := true)
  }

  lemma DisposeIdempotent(s: Suite, c: Conversation, plain: Bytes, iv: Bytes, package: Bytes)
    requires |iv| == IvSize
    ensures Dispose(Dispose(c)) == Dispose(c)
    ensures Send(s, Dispose(c), plain, iv) == Err(ObjectDisposed)
    ensures Receive(s, Dispose(c), package) == (Dispose(c), Err(ObjectDisposed))
  {
  }

  /** HmacComparer.Equals: equal lengths and equal bytes at every index. */
  method HmacEquals(a: Bytes, b: Bytes) returns (equal: bool)
    ensures equal <==> a == b
  {
    if |a| != |b| {
      return false;
    }
    var i := 0;
    while i < |a|
      invariant 0 <= i <= |a|
      invariant a[..i] == b[..i]
    {
      if a[i] != b[i] {
        return false;
      }
      assert a[..i + 1] == a[..i] + [a[i]];
      assert b[..i + 1] == b[..i] + [b[i]];
      i := i + 1;
    }
    assert a == a[..i] && b == b[..i];
    return true;
  }

  /** A package from the same cryptor opens to its plaintext while its tail is unused. */
  lemma RoundTrip(s: Suite, c: Conversation, plain: Bytes, iv: Bytes)
    requires |iv| == IvSize
    requires Tail(Construct(s, c, plain, iv)) !in c.usedHmacs
    ensures Open(s, c, Construct(s, c, plain, iv)).1 == Ok(plain)
    ensures OpenAsWritten(s, c, Construct(s, c, plain, iv)).1 == Ok(plain)
  {
    var body := SymmetricEncryptor.Encrypt(s, c.cryptor, plain, iv).value;
    var package := Construct(s, c, plain, iv);
    assert package[IvSize..|package| - HashSize] == body;
    SymmetricEncryptor.RoundTrip(s, c.cryptor, plain, iv);
  }

  /** As written, a fresh conversation accepts the same package twice: the duplicate check
      never fires because nothing was recorded. */
  lemma ReplayAcceptedAsWritten(s: Suite, cryptor: SymmetricEncryptor.Encryptor, plain: Bytes, iv: Bytes)
    requires |iv| == IvSize
    ensures var c := Create(cryptor);
            var package := Construct(s, c, plain, iv);
            var (c1, first) := OpenAsWritten(s, c, package);
            && first == Ok(plain)
            && OpenAsWritten(s, c1, package).1 == Ok(plain)
  {
    RoundTrip(s, Create(cryptor), plain, iv);
  }

  /** With the tail recorded, the first delivery of a package opens and a replay of it throws
      DuplicatePackageException. */
  lemma ReplayRejected(s: Suite, cryptor: SymmetricEncryptor.Encryptor, plain: Bytes, iv: Bytes)
    requires |iv| == IvSize
    ensures var c := Create(cryptor);
            var package := Construct(s, c, plain, iv);
            var (c1, first) := Open(s, c, package);
            && first == Ok(plain)
            && Open(s, c1, package) == (c1, Err(DuplicatePackage))
  {
    RoundTrip(s, Create(cryptor), plain, iv);
  }
}
