/** Two DoubleRatchetCrypters that completed the handshake stay in step while every package is
    delivered to the peer as soon as it is made: each delivery returns its plaintext. */
module DoubleRatchetSync {
  import opened Wrappers
  import opened Bytes
  import opened Primitives
  import HashRatchet
  import EcdhRatchet
  import opened DoubleRatchet

  /** The standings two peers can hold between deliveries. */
  ghost predicate Standings(a: Standing, b: Standing) {
    || (a == Equal && b == Equal)
    || (a == Ahead && b == Behind)
    || (a == Behind && b == Ahead)
  }

  /** `a` and `b` are in step: each one's encrypt ratchet is the other's decrypt ratchet, their
      ECDH outputs agree, and each holds the other's current public key as foreign token. */
  ghost predicate InSync(s: Suite, a: Crypter, b: Crypter) {
    && !a.disposed && !b.disposed && !a.dh.disposed && !b.dh.disposed
    && a.isInitiator != b.isInitiator
    && a.encrypt == b.decrypt && a.decrypt == b.encrypt
    && a.encrypt.clicks.Some? && a.decrypt.clicks.Some?
    && a.dh.output.Some? && a.dh.output == b.dh.output && |a.dh.output.value| == AgreementSize
    && a.foreign == Some(EcdhRatchet.KeyToken(s, b.dh.keyPair))
    && b.foreign == Some(EcdhRatchet.KeyToken(s, a.dh.keyPair))
    && Standings(a.standing, b.standing)
  }

  lemma InSyncSymmetric(s: Suite, a: Crypter, b: Crypter)
    requires InSync(s, a, b)
    ensures InSync(s, b, a)
  {
  }

  /** Two crypters, one initiating, each established with the other's LocalToken, are in step. */
  lemma HandshakeInSync(s: Suite, keyA: KeyPair, keyB: KeyPair)
    ensures var a := Create(true, keyA);
            var b := Create(false, keyB);
            && Establish(s, a, LocalToken(s, b).value).Ok?
            && Establish(s, b, LocalToken(s, a).value).Ok?
            && InSync(s, Establish(s, a, LocalToken(s, b).value).value, Establish(s, b, LocalToken(s, a).value).value)
  {
    var a := Create(true, keyA);
    var b := Create(false, keyB);
    assert s.agree(keyA, s.publicKey(keyB)) == s.agree(keyB, s.publicKey(keyA));
  }

  /** Sends one message: Package at the sender, then Unpackage of the package at the receiver. */
  function Deliver(s: Suite, sender: Crypter, receiver: Crypter, plain: Bytes, generated: KeyPair, nonce: Bytes)
    : (Crypter, Crypter, Result<Bytes>)
  {
    var (sender', package) := Package(s, sender, plain, generated, nonce);
    match package
    case Err(e) => (sender', receiver, Err(e))
    case Ok(p) =>
      var (receiver', r) := Unpackage(s, receiver, p);
      (sender', receiver', r)
  }

  /** The package the sender makes, as the receiver sees it: the key both turned ratchets
      output, and the box inside. */
  lemma PackageOpens(s: Suite, a: Crypter, b: Crypter, plain: Bytes, generated: KeyPair, nonce: Bytes)
    requires InSync(s, a, b)
    ensures Package(s, a, plain, generated, nonce).1.Ok?
    ensures
      var key := HashRatchet.Output(s, HashRatchet.Turn(s, b.decrypt).value);
      var sent := if a.standing == Ahead then a.dh.keyPair else generated;
      s.open(key, Package(s, a, plain, generated, nonce).1.value) == Some(Envelope(s.publicKey(sent), plain))
  {
    var dh := if a.standing == Ahead then a.dh else EcdhRatchet.New(a.dh, generated).value;
    var token := s.publicKey(dh.keyPair);
    var encrypt := HashRatchet.Turn(s, a.encrypt).value;
    var key := HashRatchet.Output(s, encrypt);
    var package := s.seal(key, nonce, Envelope(token, plain));
    assert PackageSteps(s, a, plain, generated, nonce).Ok?;
    assert PackageSteps(s, a, plain, generated, nonce).value.1 == package;
  }

  /** One immediate delivery returns the plaintext and leaves the pair in step, provided a new
      key pair, when one is drawn, has a public key other than the sender's current one. */
  lemma {:induction false} DeliverInSync(s: Suite, a: Crypter, b: Crypter, plain: Bytes, generated: KeyPair, nonce: Bytes)
    requires InSync(s, a, b)
    requires s.publicKey(generated) != s.publicKey(a.dh.keyPair)
    ensures var (a', b', r) := Deliver(s, a, b, plain, generated, nonce);
      && r == Ok(plain)
      && InSync(s, a', b')
      && (a'.dh.keyPair == a.dh.keyPair || a'.dh.keyPair == generated)
      && b'.dh.keyPair == b.dh.keyPair
  {
    if a.standing == Ahead {
      AheadStep(s, a, b, plain, generated, nonce);
    } else if a.standing == Equal {
      EqualStep(s, a, b, plain, generated, nonce);
    } else {
      BehindStep(s, a, b, plain, generated, nonce);
    }
  }

  lemma AheadStep(s: Suite, a: Crypter, b: Crypter, plain: Bytes, generated: KeyPair, nonce: Bytes)
    requires InSync(s, a, b) && a.standing == Ahead
    ensures var (a', b', r) := Deliver(s, a, b, plain, generated, nonce);
      && r == Ok(plain) && InSync(s, a', b')
      && a'.dh.keyPair == a.dh.keyPair && b'.dh.keyPair == b.dh.keyPair
  {
    PackageOpens(s, a, b, plain, generated, nonce);
    var token := s.publicKey(a.dh.keyPair);
    ParseEnvelopeRoundTrip(token, plain);
    var encrypt := HashRatchet.Turn(s, a.encrypt).value;
    var a' := a.(encrypt := encrypt);
    assert Package(s, a, plain, generated, nonce).0 == a';
    var package := Package(s, a, plain, generated, nonce).1.value;
    var b' := b.(decrypt := encrypt);
    assert !EcdhRatchet.Differ(EcdhRatchet.Token(token), b.foreign.value);
    assert UnpackageSteps(s, b, package) == Ok((b', plain));
  }

  lemma EqualStep(s: Suite, a: Crypter, b: Crypter, plain: Bytes, generated: KeyPair, nonce: Bytes)
    requires InSync(s, a, b) && a.standing == Equal
    requires s.publicKey(generated) != s.publicKey(a.dh.keyPair)
    ensures var (a', b', r) := Deliver(s, a, b, plain, generated, nonce);
      && r == Ok(plain) && InSync(s, a', b')
      && a'.dh.keyPair == generated && b'.dh.keyPair == b.dh.keyPair
  {
    PackageOpens(s, a, b, plain, generated, nonce);
    var token := s.publicKey(generated);
    ParseEnvelopeRoundTrip(token, plain);
    var output := a.dh.output.value;
    var encrypt := HashRatchet.Turn(s, a.encrypt).value;
    var half := output[EncryptStart(a.isInitiator)..EncryptStart(a.isInitiator) + SecretSize];
    var a' := a.(dh := a.dh.(keyPair := generated), encrypt := HashRatchet.SetClicks(encrypt, half), standing := Ahead);
    assert Package(s, a, plain, generated, nonce).0 == a';
    var package := Package(s, a, plain, generated, nonce).1.value;
    assert DecryptStart(b.isInitiator) == EncryptStart(a.isInitiator);
    var b' := b.(decrypt := HashRatchet.SetClicks(encrypt, half), foreign := Some(EcdhRatchet.Token(token)), standing := Behind);
    assert EcdhRatchet.Differ(EcdhRatchet.Token(token), b.foreign.value);
    assert UnpackageSteps(s, b, package) == Ok((b', plain));
  }

  lemma BehindStep(s: Suite, a: Crypter, b: Crypter, plain: Bytes, generated: KeyPair, nonce: Bytes)
    requires InSync(s, a, b) && a.standing == Behind
    requires s.publicKey(generated) != s.publicKey(a.dh.keyPair)
    ensures var (a', b', r) := Deliver(s, a, b, plain, generated, nonce);
      && r == Ok(plain) && InSync(s, a', b')
      && a'.dh.keyPair == generated && b'.dh.keyPair == b.dh.keyPair
  {
    PackageOpens(s, a, b, plain, generated, nonce);
    var token := s.publicKey(generated);
    ParseEnvelopeRoundTrip(token, plain);
    var output := s.agree(generated, s.publicKey(b.dh.keyPair));
    assert output == s.agree(b.dh.keyPair, token);
    var encrypt := HashRatchet.Turn(s, a.encrypt).value;
    var half := output[EncryptStart(a.isInitiator)..EncryptStart(a.isInitiator) + SecretSize];
    var a' := a.(dh := EcdhRatchet.DhRatchet(generated, Some(output), false),
                 encrypt := HashRatchet.SetClicks(encrypt, half), standing := Equal);
    assert Package(s, a, plain, generated, nonce).0 == a';
    var package := Package(s, a, plain, generated, nonce).1.value;
    assert DecryptStart(b.isInitiator) == EncryptStart(a.isInitiator);
    var b' := b.(decrypt := HashRatchet.SetClicks(encrypt, half), foreign := Some(EcdhRatchet.Token(token)),
                 dh := EcdhRatchet.DhRatchet(b.dh.keyPair, Some(output), false), standing := Equal);
    assert EcdhRatchet.Differ(EcdhRatchet.Token(token), b.foreign.value);
    assert UnpackageSteps(s, b, package) == Ok((b', plain));
  }

  datatype Message = Message(fromFirst: bool, plain: Bytes, generated: KeyPair, nonce: Bytes)

  /** One message of a script, delivered at once from the side it names; the crypters come
      back in (first, second) order. */
  function Exchange(s: Suite, first: Crypter, second: Crypter, m: Message): (Crypter, Crypter, Result<Bytes>)
  {
    if m.fromFirst then Deliver(s, first, second, m.plain, m.generated, m.nonce)
    else
      var (second', first', r) := Deliver(s, second, first, m.plain, m.generated, m.nonce);
      (first', second', r)
  }

  /** What each message of the script unpackages to when it is delivered as soon as it is
      packaged; `generated` is the key pair the sender draws if it needs a new one. */
  function Run(s: Suite, first: Crypter, second: Crypter, script: seq<Message>): (received: seq<Result<Bytes>>)
    ensures |received| == |script|
    decreases |script|
  {
    if |script| == 0 then []
    else
      var (first', second', r) := Exchange(s, first, second, script[0]);
      [r] + Run(s, first', second', script[1..])
  }

  /** One exchange between crypters in step, with a new key pair, delivers the plaintext and
      leaves them in step, each holding either its old key pair or the new one. */
  lemma ExchangeInSync(s: Suite, first: Crypter, second: Crypter, m: Message)
    requires InSync(s, first, second)
    requires s.publicKey(m.generated) != s.publicKey(first.dh.keyPair)
    requires s.publicKey(m.generated) != s.publicKey(second.dh.keyPair)
    ensures var (first', second', r) := Exchange(s, first, second, m);
      && r == Ok(m.plain) && InSync(s, first', second')
      && (first'.dh.keyPair == first.dh.keyPair || first'.dh.keyPair == m.generated)
      && (second'.dh.keyPair == second.dh.keyPair || second'.dh.keyPair == m.generated)
  {
    if m.fromFirst {
      DeliverInSync(s, first, second, m.plain, m.generated, m.nonce);
    } else {
      InSyncSymmetric(s, first, second);
      DeliverInSync(s, second, first, m.plain, m.generated, m.nonce);
      var (second', first', r) := Deliver(s, second, first, m.plain, m.generated, m.nonce);
      InSyncSymmetric(s, second', first');
    }
  }

  /** Each key pair the script draws has a public key not seen before: not among `used`, nor
      drawn earlier in the script. */
  ghost predicate FreshKeys(s: Suite, used: set<Bytes>, script: seq<Message>)
    decreases |script|
  {
    |script| == 0 ||
    (s.publicKey(script[0].generated) !in used
     && FreshKeys(s, used + {s.publicKey(script[0].generated)}, script[1..]))
  }

  lemma {:induction false} RunInSync(s: Suite, first: Crypter, second: Crypter, script: seq<Message>, used: set<Bytes>)
    requires InSync(s, first, second)
    requires s.publicKey(first.dh.keyPair) in used && s.publicKey(second.dh.keyPair) in used
    requires FreshKeys(s, used, script)
    ensures forall i :: 0 <= i < |script| ==> Run(s, first, second, script)[i] == Ok(script[i].plain)
    decreases |script|
  {
    if |script| > 0 {
      var m := script[0];
      var used' := used + {s.publicKey(m.generated)};
      ExchangeInSync(s, first, second, m);
      var (first', second', r) := Exchange(s, first, second, m);
      RunInSync(s, first', second', script[1..], used');
      forall i | 0 <= i < |script|
        ensures Run(s, first, second, script)[i] == Ok(script[i].plain)
      {
        if i > 0 {
          assert script[i] == script[1..][i - 1];
        }
      }
    }
  }

  /** After the handshake, an initiator and a responder exchanging any sequence of messages in
      either direction, each delivered at once, unpackage every plaintext, as long as every key
      pair drawn is new. */
  lemma ConversationDelivers(s: Suite, keyA: KeyPair, keyB: KeyPair, script: seq<Message>)
    requires FreshKeys(s, {s.publicKey(keyA), s.publicKey(keyB)}, script)
    ensures var a := Create(true, keyA);
            var b := Create(false, keyB);
            && Establish(s, a, LocalToken(s, b).value).Ok?
            && Establish(s, b, LocalToken(s, a).value).Ok?
            && var received := Run(s, Establish(s, a, LocalToken(s, b).value).value,
                                   Establish(s, b, LocalToken(s, a).value).value, script);
               forall i :: 0 <= i < |script| ==> received[i] == Ok(script[i].plain)
  {
    HandshakeInSync(s, keyA, keyB);
    var a := Establish(s, Create(true, keyA), LocalToken(s, Create(false, keyB)).value).value;
    var b := Establish(s, Create(false, keyB), LocalToken(s, Create(true, keyA)).value).value;
    RunInSync(s, a, b, script, {s.publicKey(keyA), s.publicKey(keyB)});
  }
}
