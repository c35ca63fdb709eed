/** HashRatchet: a one-way chain whose secret is advanced by an HMAC keyed with `clicks`. */
module HashRatchet {
  import opened Wrappers
  import opened Bytes
  import opened Primitives

  /** `clicks` is None until the Clicks setter has been called. */
  datatype Ratchet = Ratchet(secret: Bytes, clicks: Option<Bytes>)

  /** The constructor: the given bytes become the secret (32 zero bytes when none are given);
      clicks stay unset. */
  function Create(initial: Option<Bytes>): (r: Ratchet)
    ensures initial.None? ==> r.secret == Zeros(HashSize)
    ensures initial.Some? ==> r.secret == initial.value
    ensures r.clicks.None?
  {
    Ratchet(initial.GetOr(Zeros(HashSize)), None)
  }

  /** The Clicks setter. */
  function SetClicks(r: Ratchet, clicks: Bytes): (r': Ratchet)
    ensures r'.secret == r.secret && r'.clicks == Some(clicks)
  {
    r.(clicks := Some(clicks))
  }

  /** The Output getter: an HMAC of 32 zero bytes keyed with the secret, never the secret itself. */
  function Output(s: Suite, r: Ratchet): (out: Bytes)
    ensures |out| == HashSize
  {
    s.hmac(Zeros(HashSize), r.secret)
  }

  /** Turn: secret := HMAC(data = secret, key = clicks). With clicks unset the HMAC constructor
      receives null and throws. */
  function Turn(s: Suite, r: Ratchet): (res: Result<Ratchet>)
    ensures res.Err? <==> r.clicks.None?
    ensures res.Err? ==> res.error == NullReference
    ensures res.Ok? ==> res.value.clicks == r.clicks && |res.value.secret| == HashSize
  {
    match r.clicks
    case None => Err(NullReference)
    case Some(c) => Ok(Ratchet(s.hmac(r.secret, c), r.clicks))
  }

  /** Setting clicks leaves the current output untouched. */
  lemma SetClicksKeepsOutput(s: Suite, r: Ratchet, clicks: Bytes)
    ensures Output(s, SetClicks(r, clicks)) == Output(s, r)
  {
  }

  /** `n` successive turns. */
  function TurnTimes(s: Suite, r: Ratchet, n: nat): (res: Result<Ratchet>)
    ensures res.Ok? <==> (n == 0 || r.clicks.Some?)
    decreases n
  {
    if n == 0 then Ok(r)
    else
      match Turn(s, r)
      case Err(e) => Err(e)
      case Ok(r1) => TurnTimes(s, r1, n - 1)
  }

  /** The chain of secrets, as an independent reference: Chain(n + 1) = HMAC(Chain(n), clicks). */
  function Chain(s: Suite, secret: Bytes, clicks: Bytes, n: nat): Bytes
    decreases n
  {
    if n == 0 then secret else s.hmac(Chain(s, secret, clicks, n - 1), clicks)
  }

  lemma {:induction false} ChainStep(s: Suite, secret: Bytes, clicks: Bytes, n: nat)
    ensures Chain(s, s.hmac(secret, clicks), clicks, n) == Chain(s, secret, clicks, n + 1)
    decreases n
  {
    if n > 0 {
      ChainStep(s, secret, clicks, n - 1);
    }
  }

  /** Turning n times from (secret, clicks) lands on the n-th link of the chain, with clicks
      unchanged: the result depends on nothing but the initial secret, the clicks and n. */
  lemma {:induction false} TurnTimesIsChain(s: Suite, secret: Bytes, clicks: Bytes, n: nat)
    ensures TurnTimes(s, Ratchet(secret, Some(clicks)), n) == Ok(Ratchet(Chain(s, secret, clicks, n), Some(clicks)))
    decreases n
  {
    if n > 0 {
      TurnTimesIsChain(s, s.hmac(secret, clicks), clicks, n - 1);
      ChainStep(s, secret, clicks, n - 1);
    }
  }

  /** Determinism: two ratchets with equal secret and equal clicks have equal outputs after the
      same number of turns. */
  lemma Determinism(s: Suite, a: Ratchet, b: Ratchet, n: nat)
    requires a.secret == b.secret && a.clicks == b.clicks && a.clicks.Some?
    ensures TurnTimes(s, a, n).Ok? && TurnTimes(s, b, n).Ok?
    ensures Output(s, TurnTimes(s, a, n).value) == Output(s, TurnTimes(s, b, n).value)
    ensures Output(s, TurnTimes(s, a, n).value)
         == s.hmac(Zeros(HashSize), Chain(s, a.secret, a.clicks.value, n))
  {
    TurnTimesIsChain(s, a.secret, a.clicks.value, n);
  }
}
