/** DoubleRatchetCrypter: two hash ratchets (one per direction) whose clicks are re-seeded from
    an ECDH ratchet, the public keys travelling inside the encrypted packages.
    The package codec it calls (a one-key RatchetCrypter with Package/Unpackage) is the
    suite's `seal`/`open`; the random nonce it draws and the key pairs it generates are
    parameters. */
module DoubleRatchet {
  import opened Wrappers
  import opened Bytes
  import opened Primitives
  import HashRatchet
  import EcdhRatchet

  const SecretSize: nat := 32
  const LengthPrefix: nat := 4

  /** The standing of the local ECDH key relative to the foreign one. */
  datatype Standing = Behind | Equal | Ahead

  datatype Crypter = Crypter(
    encrypt: HashRatchet.Ratchet,
    decrypt: HashRatchet.Ratchet,
    dh: EcdhRatchet.DhRatchet,
    foreign: Option<EcdhRatchet.Token>,
    standing: Standing,
    isInitiator: bool,
    disposed: bool)

  /** The constructor: both hash ratchets start from 32 zero bytes with no clicks, a new ECDH
      key pair, standing Equal. */
  function Create(initiated: bool, generated: KeyPair): (c: Crypter)
    ensures c.encrypt == HashRatchet.Ratchet(Zeros(SecretSize), None) && c.decrypt == c.encrypt
    ensures c.dh == EcdhRatchet.Create(generated) && c.foreign.None?
    ensures c.standing == Equal && c.isInitiator == initiated && !c.disposed
  {
    Crypter(HashRatchet.Create(Some(Zeros(SecretSize))), HashRatchet.Create(Some(Zeros(SecretSize))),
            EcdhRatchet.Create(generated), None, Equal, initiated, false)
  }

  /** The LocalToken getter: the exported public key of the current ECDH key pair. */
  function LocalToken(s: Suite, c: Crypter): (r: Result<Bytes>)
    ensures r.Err? <==> c.disposed || c.dh.disposed
    ensures r.Err? ==> r.error == ObjectDisposed
    ensures r.Ok? ==> r.value == s.publicKey(c.dh.keyPair) && s.isPublicKey(r.value)
  {
    if c.disposed then Err(ObjectDisposed)
    else
      var t :- EcdhRatchet.PublicToken(s, c.dh);
      Ok(EcdhRatchet.GetBytes(t))
  }

  /** Where the 32 clicks for the encrypt ratchet start in the 64-byte ECDH output; the decrypt
      ratchet takes the other half. */
  function EncryptStart(isInitiator: bool): nat {
    if isInitiator then 0 else SecretSize
  }

  function DecryptStart(isInitiator: bool): nat {
    if isInitiator then SecretSize else 0
  }

  /** The 32 bytes of the ECDH output at `start`, copied out. */
  function OutputHalf(dh: EcdhRatchet.DhRatchet, start: nat): (r: Result<Bytes>)
    ensures dh.output.None? ==> r == Err(NullReference)
    ensures dh.output.Some? && |dh.output.value| < start + SecretSize ==> r == Err(Argument)
    ensures r.Ok? ==> dh.output.Some? && r.value == dh.output.value[start..start + SecretSize]
  {
    var raw :- EcdhRatchet.Output(dh);
    if |raw| < start + SecretSize then Err(Argument) else Ok(raw[start..start + SecretSize])
  }

  /** UpdateEncryptRatchetClicks: the encrypt ratchet's clicks become its half of the output. */
  function UpdateEncryptClicks(c: Crypter): (r: Result<Crypter>)
    ensures r.Ok? <==> OutputHalf(c.dh, EncryptStart(c.isInitiator)).Ok?
    ensures r.Ok? ==> r.value == c.(encrypt := HashRatchet.SetClicks(c.encrypt, OutputHalf(c.dh, EncryptStart(c.isInitiator)).value))
    ensures r.Err? ==> r.error == OutputHalf(c.dh, EncryptStart(c.isInitiator)).error
  {
    var clicks :- OutputHalf(c.dh, EncryptStart(c.isInitiator));
    Ok(c.(encrypt := HashRatchet.SetClicks(c.encrypt, clicks)))
  }

  /** UpdateDecryptRatchetClicks: the decrypt ratchet's clicks become the other half. */
  function UpdateDecryptClicks(c: Crypter): (r: Result<Crypter>)
    ensures r.Ok? <==> OutputHalf(c.dh, DecryptStart(c.isInitiator)).Ok?
    ensures r.Ok? ==> r.value == c.(decrypt := HashRatchet.SetClicks(c.decrypt, OutputHalf(c.dh, DecryptStart(c.isInitiator)).value))
    ensures r.Err? ==> r.error == OutputHalf(c.dh, DecryptStart(c.isInitiator)).error
  {
    var clicks :- OutputHalf(c.dh, DecryptStart(c.isInitiator));
    Ok(c.(decrypt := HashRatchet.SetClicks(c.decrypt, clicks)))
  }

  /** Establish: imports the foreign token, turns the ECDH ratchet with it (agreeing with the
      key imported, whose canonical export is what the token keeps) and seeds both hash
      ratchets. It has no handler: a failure leaves the crypter as it was. */
  function Establish(s: Suite, c: Crypter, foreignTokenBlob: Bytes): (r: Result<Crypter>)
    ensures c.disposed ==> r == Err(ObjectDisposed)
    ensures !c.disposed && !s.isPublicKey(foreignTokenBlob) ==> r == Err(Cryptographic)
    ensures !c.disposed && !c.dh.disposed && s.isPublicKey(foreignTokenBlob) ==>
      && r.Ok?
      && r.value.foreign == Some(EcdhRatchet.Token(s.reexport(foreignTokenBlob)))
      && r.value.dh.output == Some(s.agree(c.dh.keyPair, s.reexport(foreignTokenBlob)))
      && r.value.encrypt.secret == c.encrypt.secret && r.value.decrypt.secret == c.decrypt.secret
      && r.value.encrypt.clicks == Some(s.agree(c.dh.keyPair, s.reexport(foreignTokenBlob))[EncryptStart(c.isInitiator)..EncryptStart(c.isInitiator) + SecretSize])
      && r.value.decrypt.clicks == Some(s.agree(c.dh.keyPair, s.reexport(foreignTokenBlob))[DecryptStart(c.isInitiator)..DecryptStart(c.isInitiator) + SecretSize])
      && r.value.standing == c.standing && r.value.isInitiator == c.isInitiator && !r.value.disposed
  {
    if c.disposed then Err(ObjectDisposed)
    else
      var token :- EcdhRatchet.ImportToken(s, foreignTokenBlob);
      var dh :- EcdhRatchet.Turn(s, c.dh, token);
      match UpdateEncryptClicks(c.(foreign := Some(token), dh := dh))
      case Err(e) => Err(e)
      case Ok(c1) => UpdateDecryptClicks(c1)
  }

  /** The plaintext box: the token length as a little-endian Int32, the token, the plaintext. */
  function Envelope(token: Bytes, plain: Bytes): (box: Bytes)
    requires |token| <= Int32Max
    ensures |box| == LengthPrefix + |token| + |plain|
  {
    Int32Bytes(|token|) + token + plain
  }

  /** Reads a box back into (token, plaintext). A box shorter than the prefix fails the first
      copy, a negative length fails the allocation, a length past the end fails the second copy. */
  function ParseEnvelope(box: Bytes): (r: Result<(Bytes, Bytes)>)
    ensures r.Err? ==> r.error == Argument
    ensures r.Ok? <==> |box| >= LengthPrefix && 0 <= Int32Value(box[..LengthPrefix]) <= |box| - LengthPrefix
    ensures r.Ok? ==> |r.value.0| == Int32Value(box[..LengthPrefix])
    ensures r.Ok? ==> box == box[..LengthPrefix] + r.value.0 + r.value.1
  {
    if |box| < LengthPrefix then Err(Argument)
    else
      var n := Int32Value(box[..LengthPrefix]);
      if n < 0 || LengthPrefix + n > |box| then Err(Argument)
      else
        var token := box[LengthPrefix..LengthPrefix + n];
        var plain := box[LengthPrefix + n..];
        assert box == box[..LengthPrefix] + token + plain;
        Ok((token, plain))
  }

  /** Parsing undoes the envelope, for every token and plaintext. */
  lemma ParseEnvelopeRoundTrip(token: Bytes, plain: Bytes)
    requires |token| <= Int32Max
    ensures ParseEnvelope(Envelope(token, plain)) == Ok((token, plain))
  {
    var box := Envelope(token, plain);
    assert box[..LengthPrefix] == Int32Bytes(|token|);
    Int32RoundTrip(|token|);
    assert box[LengthPrefix..LengthPrefix + |token|] == token;
    assert box[LengthPrefix + |token|..] == plain;
  }

  /** Every box that parses is the envelope of what it parses to. */
  lemma EnvelopeOfParse(box: Bytes)
    requires ParseEnvelope(box).Ok?
    ensures |ParseEnvelope(box).value.0| <= Int32Max
    ensures Envelope(ParseEnvelope(box).value.0, ParseEnvelope(box).value.1) == box
  {
    var (token, plain) := ParseEnvelope(box).value;
    Int32Canonical(box[..LengthPrefix]);
  }

  function RequireForeign(c: Crypter): (r: Result<EcdhRatchet.Token>)
    ensures r.Ok? <==> c.foreign.Some?
    ensures r.Ok? ==> r.value == c.foreign.value
    ensures r.Err? ==> r.error == NullReference
  {
    if c.foreign.None? then Err(NullReference) else Ok(c.foreign.value)
  }

  /** The body of Package's try block: a new key pair unless Ahead, the envelope sealed under
      the turned encrypt ratchet, then the standing transition. */
  function PackageSteps(s: Suite, c: Crypter, plain: Bytes, generated: KeyPair, nonce: Bytes)
    : (r: Result<(Crypter, Bytes)>)
    ensures !c.dh.disposed && c.encrypt.clicks.None? ==> r == Err(NullReference)
    ensures r.Ok? ==> r.value.0.decrypt == c.decrypt && r.value.0.foreign == c.foreign
                      && r.value.0.isInitiator == c.isInitiator && r.value.0.disposed == c.disposed
    ensures r.Ok? ==> c.encrypt.clicks.Some? && r.value.0.encrypt.secret == HashRatchet.Turn(s, c.encrypt).value.secret
  {
    var dh :- if c.standing == Ahead then Ok(c.dh) else EcdhRatchet.New(c.dh, generated);
    var local :- EcdhRatchet.PublicToken(s, dh);
    var token := EcdhRatchet.GetBytes(local);
    var box := Envelope(token, plain);
    var encrypt :- HashRatchet.Turn(s, c.encrypt);
    var package := s.seal(HashRatchet.Output(s, encrypt), nonce, box);
    var c1 := c.(dh := dh, encrypt := encrypt);
    match c.standing
    case Behind =>
      var foreign :- RequireForeign(c1);
      (match EcdhRatchet.Turn(s, c1.dh, foreign)
       case Err(e) => Err(e)
       case Ok(turned) =>
         match UpdateEncryptClicks(c1.(dh := turned))
         case Err(e) => Err(e)
         case Ok(c2) => Ok((c2.(standing := Equal), package)))
    case Equal =>
      var c2 :- UpdateEncryptClicks(c1);
      Ok((c2.(standing := Ahead), package))
    case Ahead =>
      Ok((c1, package))
  }

  /** Package: refuses when disposed; any failure inside disposes the crypter and is rethrown. */
  function Package(s: Suite, c: Crypter, plain: Bytes, generated: KeyPair, nonce: Bytes)
    : (out: (Crypter, Result<Bytes>))
    ensures c.disposed ==> out == (c, Err(ObjectDisposed))
    ensures out.1.Err? ==> out.0.disposed
    ensures !c.disposed && c.encrypt.clicks.None? && !c.dh.disposed ==> out == (Dispose(c), Err(NullReference))
    ensures out.1.Ok? ==> !out.0.disposed && out.0.decrypt == c.decrypt && out.0.foreign == c.foreign
    ensures out.1.Ok? ==> out.0.isInitiator == c.isInitiator
    ensures out.1.Ok? ==> c.encrypt.clicks.Some? && out.0.encrypt.secret == HashRatchet.Turn(s, c.encrypt).value.secret
  {
    if c.disposed then (c, Err(ObjectDisposed))
    else
      match PackageSteps(s, c, plain, generated, nonce)
      case Ok((c', package)) => (c', Ok(package))
      case Err(e) => (Dispose(c), Err(e))
  }

  /** The body of Unpackage's try block: turn the decrypt ratchet, open, parse the box, import
      the token, and when it differs from the stored foreign token, the standing transition. */
  function UnpackageSteps(s: Suite, c: Crypter, package: Bytes): (r: Result<(Crypter, Bytes)>)
    ensures c.decrypt.clicks.None? ==> r == Err(NullReference)
    ensures r.Ok? ==> r.value.0.encrypt == c.encrypt && r.value.0.isInitiator == c.isInitiator
                      && r.value.0.disposed == c.disposed
    ensures r.Ok? ==> c.decrypt.clicks.Some? && r.value.0.decrypt.secret == HashRatchet.Turn(s, c.decrypt).value.secret
  {
    var decrypt :- HashRatchet.Turn(s, c.decrypt);
    var box :- match s.open(HashRatchet.Output(s, decrypt), package)
               case None => Err(TamperedPackage)
               case Some(b) => Ok(b);
    var parts :- ParseEnvelope(box);
    var token :- EcdhRatchet.ImportToken(s, parts.0);
    var c1 := c.(decrypt := decrypt);
    var foreign :- RequireForeign(c1);
    if !EcdhRatchet.Differ(token, foreign) then Ok((c1, parts.1))
    else
      var c2 := c1.(foreign := Some(token));
      match c.standing
      case Ahead =>
        var turned :- EcdhRatchet.Turn(s, c2.dh, token);
        (match UpdateDecryptClicks(c2.(dh := turned))
         case Err(e) => Err(e)
         case Ok(c3) => Ok((c3.(standing := Equal), parts.1)))
      case Equal =>
        var c3 :- UpdateDecryptClicks(c2);
        Ok((c3.(standing := Behind), parts.1))
      case Behind =>
        Ok((c2, parts.1))
  }

  /** Unpackage: refuses when disposed; any failure inside disposes the crypter and is rethrown. */
  function Unpackage(s: Suite, c: Crypter, package: Bytes): (out: (Crypter, Result<Bytes>))
    ensures c.disposed ==> out == (c, Err(ObjectDisposed))
    ensures out.1.Err? ==> out.0.disposed
    ensures !c.disposed && c.decrypt.clicks.None? ==> out == (Dispose(c), Err(NullReference))
    ensures !c.disposed && c.decrypt.clicks.Some?
            && s.open(HashRatchet.Output(s, HashRatchet.Turn(s, c.decrypt).value), package).None?
            ==> out == (Dispose(c), Err(TamperedPackage))
    ensures out.1.Ok? ==> !out.0.disposed && out.0.encrypt == c.encrypt && out.0.isInitiator == c.isInitiator
    ensures out.1.Ok? ==> c.decrypt.clicks.Some? && out.0.decrypt.secret == HashRatchet.Turn(s, c.decrypt).value.secret
  {
    if c.disposed then (c, Err(ObjectDisposed))
    else
      match UnpackageSteps(s, c, package)
      case Ok((c', plain)) => (c', Ok(plain))
      case Err(e) => (Dispose(c), Err(e))
  }

  /** Package on every live crypter whose ratchets are ready: it succeeds, calls New exactly
      when the standing is Behind or Equal (before the local token is read), seals the envelope
      of that token and the plaintext under the once-turned encrypt ratchet, and then makes the
      transition of its standing: Behind turns the ECDH ratchet with the foreign token and
      reseeds the encrypt clicks, becoming Equal; Equal reseeds the encrypt clicks from the
      current output, becoming Ahead; Ahead changes nothing more. */
  lemma PackageTransition(s: Suite, c: Crypter, plain: Bytes, generated: KeyPair, nonce: Bytes)
    requires !c.disposed && !c.dh.disposed && c.encrypt.clicks.Some?
    requires c.standing == Equal ==> c.dh.output.Some? && |c.dh.output.value| == AgreementSize
    requires c.standing == Behind ==> c.foreign.Some?
    ensures var (c', r) := Package(s, c, plain, generated, nonce);
            var turned := HashRatchet.Turn(s, c.encrypt).value;
            var keyPair := if c.standing == Ahead then c.dh.keyPair else generated;
            && r == Ok(s.seal(HashRatchet.Output(s, turned), nonce, Envelope(s.publicKey(keyPair), plain)))
            && c'.dh.keyPair == keyPair && c'.decrypt == c.decrypt && c'.foreign == c.foreign
            && (c.standing == Ahead ==> c' == c.(encrypt := turned))
            && (c.standing == Equal ==>
                  c' == c.(dh := c.dh.(keyPair := generated), standing := Ahead,
                           encrypt := HashRatchet.SetClicks(turned, c.dh.output.value[EncryptStart(c.isInitiator)..EncryptStart(c.isInitiator) + SecretSize])))
            && (c.standing == Behind ==>
                  var output := s.agree(generated, c.foreign.value.bytes);
                  c' == c.(dh := c.dh.(keyPair := generated, output := Some(output)), standing := Equal,
                           encrypt := HashRatchet.SetClicks(turned, output[EncryptStart(c.isInitiator)..EncryptStart(c.isInitiator) + SecretSize])))
  {
  }

  /** Unpackage of a package that opens under the once-turned decrypt ratchet to the envelope
      of a public key and a plaintext: it returns the plaintext; a token whose import equals the
      stored foreign token changes nothing else; a new token is adopted and the standing moves: Ahead
      turns the ECDH ratchet with it and reseeds the decrypt clicks, becoming Equal; Equal
      reseeds the decrypt clicks from the current output, becoming Behind; Behind stays. */
  lemma UnpackageTransition(s: Suite, c: Crypter, package: Bytes, token: Bytes, plain: Bytes)
    requires !c.disposed && !c.dh.disposed && c.decrypt.clicks.Some? && c.foreign.Some?
    requires |token| <= Int32Max && s.isPublicKey(token)
    requires s.open(HashRatchet.Output(s, HashRatchet.Turn(s, c.decrypt).value), package) == Some(Envelope(token, plain))
    requires c.standing == Equal ==> c.dh.output.Some? && |c.dh.output.value| == AgreementSize
    ensures var (c', r) := Unpackage(s, c, package);
            var turned := HashRatchet.Turn(s, c.decrypt).value;
            var imported := s.reexport(token);
            && r == Ok(plain)
            && c'.encrypt == c.encrypt && c'.dh.keyPair == c.dh.keyPair
            && (imported == c.foreign.value.bytes ==> c' == c.(decrypt := turned))
            && (imported != c.foreign.value.bytes && c.standing == Behind ==>
                  c' == c.(decrypt := turned, foreign := Some(EcdhRatchet.Token(imported))))
            && (imported != c.foreign.value.bytes && c.standing == Equal ==>
                  c' == c.(foreign := Some(EcdhRatchet.Token(imported)), standing := Behind,
                           decrypt := HashRatchet.SetClicks(turned, c.dh.output.value[DecryptStart(c.isInitiator)..DecryptStart(c.isInitiator) + SecretSize])))
            && (imported != c.foreign.value.bytes && c.standing == Ahead ==>
                  var output := s.agree(c.dh.keyPair, imported);
                  c' == c.(dh := c.dh.(output := Some(output)), foreign := Some(EcdhRatchet.Token(imported)), standing := Equal,
                           decrypt := HashRatchet.SetClicks(turned, output[DecryptStart(c.isInitiator)..DecryptStart(c.isInitiator) + SecretSize])))
  {
    ParseEnvelopeRoundTrip(token, plain);
  }

  /** Dispose: sets the flag; the ECDH ratchet is left alone, as in the source. */
  function Dispose(c: Crypter): (c': Crypter)
    ensures c'.disposed
    ensures c'.encrypt == c.encrypt && c'.decrypt == c.decrypt && c'.dh == c.dh && c'.foreign == c.foreign
  {
    c.(disposed := true)
  }

  /** After Dispose every public operation throws ObjectDisposedException and changes nothing. */
  lemma DisposedRefuses(s: Suite, c: Crypter, plain: Bytes, generated: KeyPair, nonce: Bytes, blob: Bytes)
    ensures LocalToken(s, Dispose(c)) == Err(ObjectDisposed)
    ensures Establish(s, Dispose(c), blob) == Err(ObjectDisposed)
    ensures Package(s, Dispose(c), plain, generated, nonce) == (Dispose(c), Err(ObjectDisposed))
    ensures Unpackage(s, Dispose(c), blob) == (Dispose(c), Err(ObjectDisposed))
  {
  }
}
