/** The cryptographic primitives the modelled code calls into, left uninterpreted.
    A `Suite` bundles one function per primitive; the subset type keeps only the laws the
    protocols rely on (output lengths, decryption inverts encryption, Diffie-Hellman
    agreement is symmetric). Nothing is assumed about secrecy or unforgeability. */
module Primitives {
  import opened Wrappers
  import opened Bytes

  /** Size of a SHA-256 digest and of an HMAC-SHA256 tag (Hasher.OUTPUT_SIZE). */
  const HashSize: nat := 32
  /** AES block size; also the CBC IV size. */
  const BlockSize: nat := 16
  /** Size of the ECDH derivation output (ECDHRatchet.OUTPUT_SIZE, a SHA-512 digest). */
  const AgreementSize: nat := 64
  /** AES-GCM tag size used by the package codec. */
  const TagSize: nat := 16

  /** An ECDH P-256 private key, as an opaque handle. */
  datatype KeyPair = KeyPair(handle: nat)

  datatype RawSuite = RawSuite(
    /** SHA-256 of the data. */
    hash: Bytes -> Bytes,
    /** HMAC-SHA256 (RFC 2104) with argument order (data, key), as in Hasher.HMAC. */
    hmac: (Bytes, Bytes) -> Bytes,
    /** The AES-256 block cipher and its inverse: (key, 16-byte block) -> 16-byte block. */
    encryptBlock: (Bytes, Bytes) -> Bytes,
    decryptBlock: (Bytes, Bytes) -> Bytes,
    /** AES-GCM (section 7 of NIST SP 800-38D): (key, nonce, plain) -> (cipher, tag), and the
        checked inverse (key, nonce, cipher, tag) -> plain. */
    gcmSeal: (Bytes, Bytes, Bytes) -> (Bytes, Bytes),
    gcmOpen: (Bytes, Bytes, Bytes, Bytes) -> Option<Bytes>,
    /** SubjectPublicKeyInfo export of a key pair's public half. */
    publicKey: KeyPair -> Bytes,
    /** Whether bytes import as a SubjectPublicKeyInfo public key. */
    isPublicKey: Bytes -> bool,
    /** The SubjectPublicKeyInfo export of the key that bytes import as. The import reads one
        encoded key and ignores whatever follows it, and the export is canonical, so this is
        not the identity on every input. */
    reexport: Bytes -> Bytes,
    /** ECDH agreement of a private key with an exported public key, hashed with SHA-512. */
    agree: (KeyPair, Bytes) -> Bytes,
    /** The package codec the double ratchet calls: (key, nonce, plain) -> package, and its
        checked inverse (key, package) -> plain. */
    seal: (Bytes, Bytes, Bytes) -> Bytes,
    open: (Bytes, Bytes) -> Option<Bytes>
  )

  ghost predicate Lawful(s: RawSuite) {
    && (forall d :: |s.hash(d)| == HashSize)
    && (forall d, k :: |s.hmac(d, k)| == HashSize)
    && (forall k, b :: |b| == BlockSize ==> |s.encryptBlock(k, b)| == BlockSize)
    && (forall k, b :: |b| == BlockSize ==> |s.decryptBlock(k, b)| == BlockSize)
    && (forall k, b :: |b| == BlockSize ==> s.decryptBlock(k, s.encryptBlock(k, b)) == b)
    && (forall k, n, p :: |s.gcmSeal(k, n, p).0| == |p| && |s.gcmSeal(k, n, p).1| == TagSize)
    && (forall k, n, p :: s.gcmOpen(k, n, s.gcmSeal(k, n, p).0, s.gcmSeal(k, n, p).1) == Some(p))
    && (forall kp :: s.isPublicKey(s.publicKey(kp)) && |s.publicKey(kp)| <= Int32Max)
    && (forall b :: s.isPublicKey(b) ==> s.isPublicKey(s.reexport(b)) && s.reexport(s.reexport(b)) == s.reexport(b))
    && (forall kp :: s.reexport(s.publicKey(kp)) == s.publicKey(kp))
    && (forall kp, t :: |s.agree(kp, t)| == AgreementSize)
    && (forall a, b :: s.agree(a, s.publicKey(b)) == s.agree(b, s.publicKey(a)))
    && (forall k, n, p :: s.open(k, s.seal(k, n, p)) == Some(p))
  }

  /** A degenerate suite that satisfies every law; it shows the laws are consistent. */
  function Degenerate(): RawSuite {
    RawSuite(
      d => Zeros(HashSize),
      (d, k) => Zeros(HashSize),
      (k, b) => b,
      (k, b) => b,
      (k, n, p) => (p, Zeros(TagSize)),
      (k, n, c, t) => Some(c),
      kp => [],
      b => true,
      b => b,
      (kp, t) => Zeros(AgreementSize),
      (k, n, p) => p,
      (k, c) => Some(c))
  }

  type Suite = s: RawSuite | Lawful(s) witness Degenerate()
}
