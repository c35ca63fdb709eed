/** SecureMessenger: packages 16-byte IV || AES-256-CBC ciphertext || HMAC-SHA256 of all
    preceding bytes, under one shared key (the result of the handshake, a parameter here).
    One set of IVs both records the IVs sent and screens the IVs received.

    As written, the set is a HashSet<byte[]> without a comparer, so membership is reference
    identity (SecureMessenger.cs, line 17). Every array the code asks about is a fresh copy
    (the Aes IV property returns a clone; Open allocates its own IV buffer), so no query ever
    finds it: the sender never avoids an IV it already used, and a package carrying an IV this
    side sent is never screened out. `MessengerAsWritten` models the identity set;
    `Messenger` compares contents, as the SecureConversation comparer does, and is the model
    the round-trip and screening properties are stated on. */
module SecureMessenger {
  import opened Wrappers
  import opened Bytes
  import opened Primitives
  import Cbc

  const IvSize: nat := 16

  /** The bytes of a package sealed under `key` with IV `iv`. */
  function Seal(s: Suite, key: Bytes, iv: Bytes, plain: Bytes): (package: Bytes)
    requires |iv| == IvSize
    ensures |package| >= IvSize + BlockSize + HashSize
    ensures package[..IvSize] == iv
    ensures package[|package| - HashSize..] == s.hmac(package[..|package| - HashSize], key)
  {
    var headAndBody := iv + Cbc.PaddedEncrypt(s, key, iv, plain);
    var package := headAndBody + s.hmac(headAndBody, key);
    assert package[..|package| - HashSize] == headAndBody;
    package
  }

  /** OpenSecurePackage after the duplicate check: the HMAC over all but the last 32 bytes
      (a package shorter than that fails the hash call), compared byte by byte with the tail;
      then decryption of exactly package[16 .. |package| - 32), which fails on a negative count,
      on a partial block, or on bad padding. */
  function OpenChecked(s: Suite, key: Bytes, package: Bytes): (r: Result<Bytes>)
    requires |package| >= IvSize
    ensures |package| < HashSize ==> r == Err(Argument)
    ensures |package| >= HashSize && package[|package| - HashSize..] != s.hmac(package[..|package| - HashSize], key)
            ==> r == Err(TamperedPackage)
    ensures r.Ok? ==> |package| >= IvSize + HashSize
                      && package[|package| - HashSize..] == s.hmac(package[..|package| - HashSize], key)
                      && |package[IvSize..|package| - HashSize]| % BlockSize == 0
                      && r == Cbc.PaddedDecrypt(s, key, package[..IvSize], package[IvSize..|package| - HashSize])
  {
    if |package| < HashSize then Err(Argument)
    else if package[|package| - HashSize..] != s.hmac(package[..|package| - HashSize], key) then Err(TamperedPackage)
    else if |package| < IvSize + HashSize then Err(Argument)
    else
      var body := package[IvSize..|package| - HashSize];
      if |body| % BlockSize != 0 then Err(Cryptographic)
      else Cbc.PaddedDecrypt(s, key, package[..IvSize], body)
  }

  lemma SealOpens(s: Suite, key: Bytes, iv: Bytes, plain: Bytes)
    requires |iv| == IvSize
    ensures OpenChecked(s, key, Seal(s, key, iv, plain)) == Ok(plain)
  {
    var package := Seal(s, key, iv, plain);
    assert package[IvSize..|package| - HashSize] == Cbc.PaddedEncrypt(s, key, iv, plain);
    Cbc.PaddedRoundTrip(s, key, iv, plain);
  }

  // ---- The value set (the comparer the duplicate screening relies on) ----

  datatype Messenger = Messenger(key: Bytes, usedIvs: set<Bytes>)

  /** The index of the first candidate IV, from k on, that is not in the set: the loop that
      regenerates the IV while the set contains it. */
  function FirstUnused(used: set<Bytes>, candidates: seq<Bytes>, k: nat): (j: nat)
    requires k <= |candidates|
    requires exists i :: k <= i < |candidates| && candidates[i] !in used
    ensures k <= j < |candidates| && candidates[j] !in used
    ensures forall i :: k <= i < j ==> candidates[i] in used
    decreases |candidates| - k
  {
    if candidates[k] !in used then k else FirstUnused(used, candidates, k + 1)
  }

  /** ConstructSecurePackage: `candidates` is the IV the Aes object starts with, followed by the
      IVs GenerateIV would produce; the first unused one is sealed with and recorded. */
  function Construct(s: Suite, m: Messenger, plain: Bytes, candidates: seq<Bytes>): (out: (Messenger, Bytes))
    requires forall i :: 0 <= i < |candidates| ==> |candidates[i]| == IvSize
    requires exists i :: 0 <= i < |candidates| && candidates[i] !in m.usedIvs
    ensures |out.1| >= IvSize && out.1[..IvSize] !in m.usedIvs
    ensures out.0 == m.(usedIvs := m.usedIvs + {out.1[..IvSize]})
    ensures out.1 == Seal(s, m.key, out.1[..IvSize], plain)
  {
    var iv := candidates[FirstUnused(m.usedIvs, candidates, 0)];
    (m.(usedIvs := m.usedIvs + {iv}), Seal(s, m.key, iv, plain))
  }

  /** OpenSecurePackage: the IV copy fails on a package shorter than 16 bytes; an IV in the set
      throws DuplicatePackageException before any HMAC work. Opening records nothing. */
  function Open(s: Suite, m: Messenger, package: Bytes): (r: Result<Bytes>)
    ensures |package| < IvSize ==> r == Err(Argument)
    ensures |package| >= IvSize && package[..IvSize] in m.usedIvs ==> r == Err(DuplicatePackage)
    ensures |package| >= IvSize && package[..IvSize] !in m.usedIvs ==> r == OpenChecked(s, m.key, package)
  {
    if |package| < IvSize then Err(Argument)
    else if package[..IvSize] in m.usedIvs then Err(DuplicatePackage)
    else OpenChecked(s, m.key, package)
  }

  /** A package from a peer with the same key opens to its plaintext unless its IV is one
      this side has used. */
  lemma RoundTrip(s: Suite, sender: Messenger, receiver: Messenger, plain: Bytes, candidates: seq<Bytes>)
    requires forall i :: 0 <= i < |candidates| ==> |candidates[i]| == IvSize
    requires exists i :: 0 <= i < |candidates| && candidates[i] !in sender.usedIvs
    requires receiver.key == sender.key
    ensures var package := Construct(s, sender, plain, candidates).1;
            Open(s, receiver, package) == if package[..IvSize] in receiver.usedIvs then Err(DuplicatePackage) else Ok(plain)
  {
    var package := Construct(s, sender, plain, candidates).1;
    SealOpens(s, sender.key, package[..IvSize], plain);
  }

  /** Successive sends never reuse an IV, and a package this side sent, reflected back to it,
      throws DuplicatePackageException. */
  lemma IvsNotReused(s: Suite, m: Messenger, plain1: Bytes, plain2: Bytes, candidates1: seq<Bytes>, candidates2: seq<Bytes>)
    requires forall i :: 0 <= i < |candidates1| ==> |candidates1[i]| == IvSize
    requires forall i :: 0 <= i < |candidates2| ==> |candidates2[i]| == IvSize
    requires exists i :: 0 <= i < |candidates1| && candidates1[i] !in m.usedIvs
    requires exists i :: 0 <= i < |candidates2| && candidates2[i] !in m.usedIvs + {Construct(s, m, plain1, candidates1).1[..IvSize]}
    ensures var (m1, p1) := Construct(s, m, plain1, candidates1);
            var (m2, p2) := Construct(s, m1, plain2, candidates2);
            && p1[..IvSize] != p2[..IvSize]
            && Open(s, m2, p1) == Err(DuplicatePackage)
  {
  }

  // ---- The identity set, as written ----

  /** A byte[] object: its identity and its contents. */
  datatype ArrayRef = ArrayRef(id: nat, contents: Bytes)

  /** The messenger as written: `arrays` counts the arrays created so far, which gives each
      new array an identity no earlier array has. */
  datatype MessengerAsWritten = MessengerAsWritten(key: Bytes, usedIvs: set<ArrayRef>, arrays: nat)

  ghost predicate Valid(m: MessengerAsWritten) {
    forall r :: r in m.usedIvs ==> r.id < m.arrays
  }

  /** A new array holding `contents`. */
  function Allocate(m: MessengerAsWritten, contents: Bytes): (out: (MessengerAsWritten, ArrayRef))
    ensures out.0 == m.(arrays := m.arrays + 1)
    ensures out.1 == ArrayRef(m.arrays, contents)
  {
    (m.(arrays := m.arrays + 1), ArrayRef(m.arrays, contents))
  }

  /** The IV loop as written: each test of the condition reads the IV property, a new copy, and
      asks the set about that copy. */
  function PickAsWritten(m: MessengerAsWritten, candidates: seq<Bytes>, k: nat): (out: (MessengerAsWritten, nat))
    requires k < |candidates|
    ensures out.0.usedIvs == m.usedIvs && out.0.arrays > m.arrays && k <= out.1 < |candidates|
    decreases |candidates| - k
  {
    var (m1, probe) := Allocate(m, candidates[k]);
    if probe in m1.usedIvs && k + 1 < |candidates| then PickAsWritten(m1, candidates, k + 1)
    else (m1, k)
  }

  /** No copy is ever found in the set: the loop stops at its first test. */
  lemma FirstProbeMisses(m: MessengerAsWritten, candidates: seq<Bytes>)
    requires 0 < |candidates| && Valid(m)
    ensures PickAsWritten(m, candidates, 0) == (m.(arrays := m.arrays + 1), 0)
  {
  }

  /** ConstructSecurePackage as written: the first candidate is always used, and what is
      recorded is yet another copy. */
  function ConstructAsWritten(s: Suite, m: MessengerAsWritten, plain: Bytes, candidates: seq<Bytes>)
    : (out: (MessengerAsWritten, Bytes))
    requires forall i :: 0 <= i < |candidates| ==> |candidates[i]| == IvSize
    requires |candidates| > 0 && Valid(m)
    ensures Valid(out.0) && |out.0.usedIvs| <= |m.usedIvs| + 1
    ensures out.1 == Seal(s, m.key, candidates[0], plain)
  {
    FirstProbeMisses(m, candidates);
    var (m1, j) := PickAsWritten(m, candidates, 0);
    var iv := candidates[j];
    var (m2, copy) := Allocate(m1, iv);
    (m2.(usedIvs := m2.usedIvs + {copy}), Seal(s, m.key, iv, plain))
  }

  /** OpenSecurePackage as written: the IV buffer is a new array, so the duplicate test could
      only succeed on a set holding an array not yet created. */
  function OpenAsWritten(s: Suite, m: MessengerAsWritten, package: Bytes): (out: (MessengerAsWritten, Result<Bytes>))
    ensures out.0.usedIvs == m.usedIvs && (Valid(m) ==> Valid(out.0))
    ensures |package| < IvSize ==> out.1 == Err(Argument)
    ensures out.1 == Err(DuplicatePackage) ==> !Valid(m)
    ensures |package| >= IvSize && Valid(m) ==> out.1 == OpenChecked(s, m.key, package)
  {
    if |package| < IvSize then (m, Err(Argument))
    else
      var (m1, iv) := Allocate(m, package[..IvSize]);
      if iv in m1.usedIvs then (m1, Err(DuplicatePackage))
      else (m1, OpenChecked(s, m.key, package))
  }

  /** As written, two sends offered the same first IV both use it, and the messenger opens a
      package it sent itself: neither use of the set has any effect. */
  lemma IvsReusedAsWritten(s: Suite, m: MessengerAsWritten, plain: Bytes, iv: Bytes, other: Bytes)
    requires |iv| == IvSize && |other| == IvSize && Valid(m)
    ensures var (m1, p1) := ConstructAsWritten(s, m, plain, [iv, other]);
            var (m2, p2) := ConstructAsWritten(s, m1, plain, [iv, other]);
            && p1[..IvSize] == p2[..IvSize] == iv
            && OpenAsWritten(s, m2, p1).1 == Ok(plain)
  {
    SealOpens(s, m.key, iv, plain);
  }
}
