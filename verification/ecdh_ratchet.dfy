/** ECDHRatchet: an ephemeral ECDH key pair whose agreement with a foreign token gives a
    64-byte output; and its Token, an imported foreign public key. */
module EcdhRatchet {
  import opened Wrappers
  import opened Bytes
  import opened Primitives

  /** A foreign public key, kept as its SubjectPublicKeyInfo export. */
  datatype Token = Token(bytes: Bytes)

  /** new Token(exportedKey): the import throws unless the bytes hold a public key; what is
      kept is the key, so GetBytes later gives its canonical export, not the bytes given. */
  function ImportToken(s: Suite, exported: Bytes): (r: Result<Token>)
    ensures r.Ok? <==> s.isPublicKey(exported)
    ensures r.Ok? ==> GetBytes(r.value) == s.reexport(exported) && s.isPublicKey(GetBytes(r.value))
    ensures r.Ok? ==> ValidToken(s, r.value)
    ensures r.Err? ==> r.error == Cryptographic
  {
    if s.isPublicKey(exported) then Ok(Token(s.reexport(exported))) else Err(Cryptographic)
  }

  /** Token.GetBytes: the export of the imported key. */
  function GetBytes(t: Token): Bytes {
    t.bytes
  }

  /** A token as the constructor leaves it: its bytes are a public key in canonical form, so
      exporting it and importing the export again gives the same token. */
  predicate ValidToken(s: Suite, t: Token) {
    s.isPublicKey(GetBytes(t)) && s.reexport(GetBytes(t)) == GetBytes(t)
  }

  /** Every token the import or the PublicToken getter builds is valid; and a token is valid
      exactly when the bytes GetBytes gives import back to that very token. */
  lemma ValidTokens(s: Suite, exported: Bytes, kp: KeyPair, t: Token)
    ensures ImportToken(s, exported).Ok? ==> ValidToken(s, ImportToken(s, exported).value)
    ensures ValidToken(s, KeyToken(s, kp))
    ensures ValidToken(s, t) <==> ImportToken(s, GetBytes(t)) == Ok(t)
  {
  }

  /** The token of a key pair's public half, as PublicToken builds it. */
  function KeyToken(s: Suite, kp: KeyPair): Token {
    Token(s.publicKey(kp))
  }

  /** Importing an exported public key gives that key's token, whose bytes are the export; and
      the bytes of an imported token import as the same token again. */
  lemma ImportExport(s: Suite, kp: KeyPair, b: Bytes)
    ensures ImportToken(s, s.publicKey(kp)) == Ok(KeyToken(s, kp))
    ensures GetBytes(KeyToken(s, kp)) == s.publicKey(kp)
    ensures ImportToken(s, b).Ok? ==> ImportToken(s, GetBytes(ImportToken(s, b).value)) == ImportToken(s, b)
  {
  }

  /** Token.IsDifferentTo: the exported byte strings differ in length or at some index. */
  method IsDifferentTo(a: Token, b: Token) returns (different: bool)
    ensures different <==> GetBytes(a) != GetBytes(b)
  {
    var x := GetBytes(a);
    var y := GetBytes(b);
    if |x| != |y| {
      return true;
    }
    var i := 0;
    while i < |x|
      invariant 0 <= i <= |x|
      invariant x[..i] == y[..i]
    {
      if x[i] != y[i] {
        return true;
      }
      i := i + 1;
    }
    assert x == x[..i] && y == y[..i];
    return false;
  }

  /** The relation IsDifferentTo decides, as a function for use inside other functions. */
  predicate Differ(a: Token, b: Token) {
    GetBytes(a) != GetBytes(b)
  }

  /** IsDifferentTo decides token inequality: two tokens differ exactly when they are not the
      same token. */
  lemma DifferIsInequality(a: Token, b: Token)
    ensures Differ(a, b) <==> a != b
  {
    if a != b {
      assert a == Token(GetBytes(a)) && b == Token(GetBytes(b));
    }
  }

  /** IsDifferentTo is irreflexive and symmetric. */
  lemma DifferIrreflexiveSymmetric(a: Token, b: Token)
    ensures !Differ(a, a)
    ensures Differ(a, b) <==> Differ(b, a)
  {
  }

  /** `output` is null until the first Turn. */
  datatype DhRatchet = DhRatchet(keyPair: KeyPair, output: Option<Bytes>, disposed: bool)

  /** The constructor, given the key pair ECDiffieHellman.Create generates. */
  function Create(generated: KeyPair): (r: DhRatchet)
    ensures r.keyPair == generated && r.output.None? && !r.disposed
  {
    DhRatchet(generated, None, false)
  }

  /** New: replaces the key pair with a freshly generated one, keeping the output. */
  function New(r: DhRatchet, generated: KeyPair): (res: Result<DhRatchet>)
    ensures res.Err? <==> r.disposed
    ensures res.Err? ==> res.error == ObjectDisposed
    ensures res.Ok? ==> res.value.keyPair == generated && res.value.output == r.output && !res.value.disposed
  {
    if r.disposed then Err(ObjectDisposed) else Ok(r.(keyPair := generated))
  }

  /** Turn: output := agreement of the current key pair with the token, hashed with SHA-512;
      the key pair is not replaced. */
  function Turn(s: Suite, r: DhRatchet, t: Token): (res: Result<DhRatchet>)
    ensures res.Err? <==> r.disposed
    ensures res.Err? ==> res.error == ObjectDisposed
    ensures res.Ok? ==> res.value.keyPair == r.keyPair && !res.value.disposed
    ensures res.Ok? ==> res.value.output.Some? && |res.value.output.value| == AgreementSize
    ensures res.Ok? ==> res.value.output.value == s.agree(r.keyPair, GetBytes(t))
  {
    if r.disposed then Err(ObjectDisposed) else Ok(r.(output := Some(s.agree(r.keyPair, t.bytes))))
  }

  /** The Output getter: a copy of the stored output; null before any Turn, so Clone throws. */
  function Output(r: DhRatchet): (res: Result<Bytes>)
    ensures res.Ok? <==> r.output.Some?
    ensures res.Ok? ==> res.value == r.output.value
    ensures res.Err? ==> res.error == NullReference
  {
    match r.output
    case None => Err(NullReference)
    case Some(o) => Ok(o)
  }

  /** The PublicToken getter: a Token built from the export of the current key, which throws
      ObjectDisposedException once Dispose has disposed the key. */
  function PublicToken(s: Suite, r: DhRatchet): (t: Result<Token>)
    ensures t.Err? <==> r.disposed
    ensures t.Err? ==> t.error == ObjectDisposed
    ensures t.Ok? ==> t.value == KeyToken(s, r.keyPair) && s.isPublicKey(GetBytes(t.value))
    ensures t.Ok? ==> ValidToken(s, t.value)
  {
    if r.disposed then Err(ObjectDisposed) else ImportToken(s, s.publicKey(r.keyPair))
  }

  /** Dispose: sets the disposed flag; disposing twice changes nothing more. */
  function Dispose(r: DhRatchet): (r': DhRatchet)
    ensures r'.disposed && r'.keyPair == r.keyPair && r'.output == r.output
  {
    r.(disposed := true)
  }

  /** After Dispose, New and Turn throw ObjectDisposedException. */
  lemma DisposedRefuses(s: Suite, r: DhRatchet, generated: KeyPair, t: Token)
    ensures New(Dispose(r), generated) == Err(ObjectDisposed)
    ensures Turn(s, Dispose(r), t) == Err(ObjectDisposed)
  {
  }

  /** New and Turn commute in what they leave behind: New only rotates the key, Turn only sets
      the output, so a Turn after New agrees with the new key. */
  lemma NewThenTurn(s: Suite, r: DhRatchet, generated: KeyPair, t: Token)
    requires !r.disposed
    ensures New(r, generated).Ok? && Turn(s, New(r, generated).value, t).Ok?
    ensures Turn(s, New(r, generated).value, t).value == DhRatchet(generated, Some(s.agree(generated, GetBytes(t))), false)
  {
  }
}
