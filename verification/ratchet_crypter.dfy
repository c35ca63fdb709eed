/** RatchetCrypter: AES-GCM packages keyed by a pair of hash ratchets, one per direction.
    Package layout: tag (16) || nonce (12) || ciphertext (as long as the plaintext). */
module RatchetCrypter {
  import opened Wrappers
  import opened Bytes
  import opened Primitives
  import Blobs
  import HashRatchet

  const KeySize: nat := 32
  const BlockSize: nat := 16
  const NonceSize: nat := 12

  datatype Crypter = Crypter(encrypt: HashRatchet.Ratchet, decrypt: HashRatchet.Ratchet, disposed: bool)

  /** The constructor: both ratchets start from the all-zero secret; the encrypt ratchet's
      clicks are `encryptKey` and the decrypt ratchet's are `decryptKey`. */
  function Create(encryptKey: Bytes, decryptKey: Bytes): (c: Crypter)
    ensures c.encrypt == HashRatchet.Ratchet(Zeros(HashSize), Some(encryptKey))
    ensures c.decrypt == HashRatchet.Ratchet(Zeros(HashSize), Some(decryptKey))
    ensures !c.disposed
  {
    Crypter(HashRatchet.SetClicks(HashRatchet.Create(None), encryptKey),
            HashRatchet.SetClicks(HashRatchet.Create(None), decryptKey), false)
  }

  /** The EncryptClicks setter. */
  function SetEncryptClicks(c: Crypter, clicks: Bytes): (c': Crypter)
    ensures c'.encrypt.clicks == Some(clicks) && c'.encrypt.secret == c.encrypt.secret
    ensures c'.decrypt == c.decrypt && c'.disposed == c.disposed
  {
    c.(encrypt := HashRatchet.SetClicks(c.encrypt, clicks))
  }

  /** The DecryptClicks setter. */
  function SetDecryptClicks(c: Crypter, clicks: Bytes): (c': Crypter)
    ensures c'.decrypt.clicks == Some(clicks) && c'.decrypt.secret == c.decrypt.secret
    ensures c'.encrypt == c.encrypt && c'.disposed == c.disposed
  {
    c.(decrypt := HashRatchet.SetClicks(c.decrypt, clicks))
  }

  /** The static Combine: concatenation. */
  function Combine(sources: seq<Bytes>): (r: Bytes)
    ensures |r| == Blobs.Sum(Blobs.Lengths(sources))
  {
    Blobs.Combine(sources)
  }

  /** The static Split: as Blobs.Split, but the mismatch raises InvalidPackageException. */
  function Split(source: Bytes, lengths: seq<nat>): (r: Result<seq<Bytes>>)
    ensures r.Err? <==> Blobs.Sum(lengths) != |source|
    ensures r.Err? ==> r.error == InvalidPackage
    ensures r.Ok? ==> Blobs.Lengths(r.value) == lengths && Blobs.Combine(r.value) == source
  {
    match Blobs.Split(source, lengths)
    case Err(_) => Err(InvalidPackage)
    case Ok(parts) => Ok(parts)
  }

  /** Encrypt: turns the encrypt ratchet once, seals under its output with the given random
      nonce, and returns tag || nonce || ciphertext. */
  function Encrypt(s: Suite, c: Crypter, plain: Bytes, nonce: Bytes): (out: (Crypter, Result<Bytes>))
    requires |nonce| == NonceSize
    ensures c.disposed ==> out == (c, Err(ObjectDisposed))
    ensures !c.disposed && c.encrypt.clicks.None? ==> out == (c, Err(NullReference))
    ensures !c.disposed && c.encrypt.clicks.Some? ==>
      && out.1.Ok?
      && out.0 == c.(encrypt := HashRatchet.Turn(s, c.encrypt).value)
      && |out.1.value| == |plain| + BlockSize + NonceSize
      && out.1.value[BlockSize..BlockSize + NonceSize] == nonce
  {
    if c.disposed then (c, Err(ObjectDisposed))
    else
      match HashRatchet.Turn(s, c.encrypt)
      case Err(e) => (c, Err(e))
      case Ok(ratchet) =>
        var key := HashRatchet.Output(s, ratchet);
        var (cipher, tag) := s.gcmSeal(key, nonce, plain);
        Blobs.CombineThree(tag, nonce, cipher);
        (c.(encrypt := ratchet), Ok(Combine([tag, nonce, cipher])))
  }

  /** Decrypt: a package shorter than nonce plus tag is refused before the decrypt ratchet turns;
      otherwise the ratchet turns once and the package is split as Encrypt combined it. */
  function Decrypt(s: Suite, c: Crypter, package: Bytes): (out: (Crypter, Result<Bytes>))
    ensures c.disposed ==> out == (c, Err(ObjectDisposed))
    ensures !c.disposed && |package| < NonceSize + BlockSize ==> out == (c, Err(InvalidPackage))
    ensures !c.disposed && |package| >= NonceSize + BlockSize && c.decrypt.clicks.None? ==> out == (c, Err(NullReference))
    ensures !c.disposed && |package| >= NonceSize + BlockSize && c.decrypt.clicks.Some? ==>
      && out.0 == c.(decrypt := HashRatchet.Turn(s, c.decrypt).value)
      && out.1 == (match s.gcmOpen(HashRatchet.Output(s, out.0.decrypt), package[BlockSize..BlockSize + NonceSize],
                                   package[BlockSize + NonceSize..], package[..BlockSize])
                   case Some(p) => Ok(p)
                   case None => Err(Cryptographic))
  {
    if c.disposed then (c, Err(ObjectDisposed))
    else if |package| < NonceSize + BlockSize then (c, Err(InvalidPackage))
    else
      match HashRatchet.Turn(s, c.decrypt)
      case Err(e) => (c, Err(e))
      case Ok(ratchet) =>
        var key := HashRatchet.Output(s, ratchet);
        var lengths := [BlockSize, NonceSize, |package| - BlockSize - NonceSize];
        Blobs.SumThree(lengths[0], lengths[1], lengths[2]);
        match Split(package, lengths)
        case Err(e) => (c.(decrypt := ratchet), Err(e))
        case Ok(parts) =>
          PartsOfPackage(package, parts);
          var result := s.gcmOpen(key, parts[1], parts[2], parts[0]);
          if result.None? then (c.(decrypt := ratchet), Err(Cryptographic))
          else (c.(decrypt := ratchet), Ok(result.value))
  }

  lemma PartsOfPackage(package: Bytes, parts: seq<Bytes>)
    requires |package| >= NonceSize + BlockSize
    requires Blobs.Lengths(parts) == [BlockSize, NonceSize, |package| - BlockSize - NonceSize]
    requires Blobs.Combine(parts) == package
    ensures parts == [package[..BlockSize], package[BlockSize..BlockSize + NonceSize], package[BlockSize + NonceSize..]]
  {
    var parts' := [package[..BlockSize], package[BlockSize..BlockSize + NonceSize], package[BlockSize + NonceSize..]];
    Blobs.CombineThree(parts'[0], parts'[1], parts'[2]);
    assert Blobs.Combine(parts') == package;
    Blobs.CombineInjective(parts, parts');
  }

  /** Dispose: sets the disposed flag. */
  function Dispose(c: Crypter): (c': Crypter)
    ensures c'.disposed && c'.encrypt == c.encrypt && c'.decrypt == c.decrypt
  {
    c.(disposed := true)
  }

  /** Encrypt and Decrypt throw ObjectDisposedException after Dispose, and change nothing. */
  lemma DisposedRefuses(s: Suite, c: Crypter, plain: Bytes, nonce: Bytes, package: Bytes)
    requires |nonce| == NonceSize
    ensures Encrypt(s, Dispose(c), plain, nonce) == (Dispose(c), Err(ObjectDisposed))
    ensures Decrypt(s, Dispose(c), package) == (Dispose(c), Err(ObjectDisposed))
  {
  }

  /** `a` encrypts what `b` decrypts: a's encrypt ratchet is b's decrypt ratchet. */
  ghost predicate Feeds(a: Crypter, b: Crypter) {
    !a.disposed && !b.disposed && a.encrypt == b.decrypt && a.encrypt.clicks.Some?
  }

  /** Sends one message from `sender` to `receiver`: Encrypt, then Decrypt of the package. */
  function Deliver(s: Suite, sender: Crypter, receiver: Crypter, plain: Bytes, nonce: Bytes)
    : (Crypter, Crypter, Result<Bytes>)
    requires |nonce| == NonceSize
  {
    var (sender', package) := Encrypt(s, sender, plain, nonce);
    match package
    case Err(e) => (sender', receiver, Err(e))
    case Ok(p) =>
      var (receiver', r) := Decrypt(s, receiver, p);
      (sender', receiver', r)
  }

  /** One delivery returns the plaintext and keeps the pairing in both directions: the sender's
      encrypt ratchet and the receiver's decrypt ratchet both turn once; the other direction is
      untouched. */
  lemma DeliverRoundTrip(s: Suite, sender: Crypter, receiver: Crypter, plain: Bytes, nonce: Bytes)
    requires |nonce| == NonceSize
    requires Feeds(sender, receiver)
    ensures var (sender', receiver', r) := Deliver(s, sender, receiver, plain, nonce);
      && r == Ok(plain)
      && Feeds(sender', receiver')
      && sender'.decrypt == sender.decrypt && receiver'.encrypt == receiver.encrypt
  {
    var (sender', package) := Encrypt(s, sender, plain, nonce);
    var ratchet := HashRatchet.Turn(s, sender.encrypt).value;
    var key := HashRatchet.Output(s, ratchet);
    var (cipher, tag) := s.gcmSeal(key, nonce, plain);
    Blobs.CombineThree(tag, nonce, cipher);
    var p := package.value;
    assert p == tag + nonce + cipher;
    assert p[..BlockSize] == tag;
    assert p[BlockSize..BlockSize + NonceSize] == nonce;
    assert p[BlockSize + NonceSize..] == cipher;
  }

  datatype Message = Message(fromFirst: bool, plain: Bytes, nonce: Bytes)

  ghost predicate WellFormedScript(script: seq<Message>) {
    forall i :: 0 <= i < |script| ==> |script[i].nonce| == NonceSize
  }

  /** What each message of the script decrypts to, when every package is delivered to the other
      crypter as soon as it is made. */
  function Run(s: Suite, first: Crypter, second: Crypter, script: seq<Message>): (received: seq<Result<Bytes>>)
    requires WellFormedScript(script)
    ensures |received| == |script|
    decreases |script|
  {
    if |script| == 0 then []
    else
      var m := script[0];
      if m.fromFirst then
        var (first', second', r) := Deliver(s, first, second, m.plain, m.nonce);
        [r] + Run(s, first', second', script[1..])
      else
        var (second', first', r) := Deliver(s, second, first, m.plain, m.nonce);
        [r] + Run(s, first', second', script[1..])
  }

  lemma {:induction false} RunFromPaired(s: Suite, first: Crypter, second: Crypter, script: seq<Message>)
    requires WellFormedScript(script)
    requires Feeds(first, second) && Feeds(second, first)
    ensures forall i :: 0 <= i < |script| ==> Run(s, first, second, script)[i] == Ok(script[i].plain)
    decreases |script|
  {
    if |script| > 0 {
      var m := script[0];
      if m.fromFirst {
        DeliverRoundTrip(s, first, second, m.plain, m.nonce);
        var (first', second', r) := Deliver(s, first, second, m.plain, m.nonce);
        RunFromPaired(s, first', second', script[1..]);
      } else {
        DeliverRoundTrip(s, second, first, m.plain, m.nonce);
        var (second', first', r) := Deliver(s, second, first, m.plain, m.nonce);
        RunFromPaired(s, first', second', script[1..]);
      }
    }
  }

  /** Crypters built as (left, right) and (right, left) decrypt each other's packages, in both
      directions, for every sequence of messages, including empty plaintexts. */
  lemma PairedCryptersRoundTrip(s: Suite, left: Bytes, right: Bytes, script: seq<Message>)
    requires WellFormedScript(script)
    ensures forall i :: 0 <= i < |script| ==>
      Run(s, Create(left, right), Create(right, left), script)[i] == Ok(script[i].plain)
  {
    RunFromPaired(s, Create(left, right), Create(right, left), script);
  }

  /** Two successive encryptions of the same plaintext with different random nonces give
      different packages. */
  lemma SuccessivePackagesDiffer(s: Suite, c: Crypter, plain: Bytes, nonce1: Bytes, nonce2: Bytes)
    requires |nonce1| == NonceSize && |nonce2| == NonceSize && nonce1 != nonce2
    requires !c.disposed && c.encrypt.clicks.Some?
    ensures var (c1, p1) := Encrypt(s, c, plain, nonce1);
            var (c2, p2) := Encrypt(s, c1, plain, nonce2);
            p1.Ok? && p2.Ok? && p1.value != p2.value
  {
    var (c1, p1) := Encrypt(s, c, plain, nonce1);
    var (c2, p2) := Encrypt(s, c1, plain, nonce2);
    assert p1.value[BlockSize..BlockSize + NonceSize] != p2.value[BlockSize..BlockSize + NonceSize];
  }
}
