/** Byte strings and the little-endian 32-bit integer codec of System.BitConverter. */
module Bytes {

  /** An unsigned 8-bit value, as C#'s `byte`. */
  newtype Byte = x: int | 0 <= x < 256
  type Bytes = seq<Byte>

  const TwoTo32: int := 0x1_0000_0000
  const Int32Min: int := -0x8000_0000
  const Int32Max: int := 0x7FFF_FFFF

  predicate IsInt32(n: int) {
    Int32Min <= n <= Int32Max
  }

  /** `new byte[n]`: n zero bytes. */
  function Zeros(n: nat): (r: Bytes)
    ensures |r| == n
    ensures forall i :: 0 <= i < n ==> r[i] == 0
  {
    seq(n, _ => 0)
  }

  /** Exclusive or of the low `n` bits of `a` and `b`, bit by bit from the least significant. */
  function XorLow(a: nat, b: nat, n: nat): (r: nat)
    ensures r < Pow2(n)
    decreases n
  {
    if n == 0 then 0
    else (if a % 2 == b % 2 then 0 else 1) + 2 * XorLow(a / 2, b / 2, n - 1)
  }

  function Pow2(n: nat): (p: nat)
    ensures p > 0
  {
    if n == 0 then 1 else 2 * Pow2(n - 1)
  }

  /** The low `n` bits of `a`, masked with the same `b` twice, come back unchanged. */
  lemma {:induction false} XorLowTwice(a: nat, b: nat, n: nat)
    requires a < Pow2(n)
    ensures XorLow(XorLow(a, b, n), b, n) == a
    decreases n
  {
    if n > 0 {
      var c := XorLow(a, b, n);
      var rest := XorLow(a / 2, b / 2, n - 1);
      assert c % 2 == (if a % 2 == b % 2 then 0 else 1) && c / 2 == rest;
      XorLowTwice(a / 2, b / 2, n - 1);
    }
  }

  /** Bitwise exclusive or of two bytes, C#'s `^` on `byte`. */
  function XorByte(a: Byte, b: Byte): (r: Byte)
  {
    assert Pow2(8) == 256;
    XorLow(a as nat, b as nat, 8) as Byte
  }

  /** Byte-wise exclusive or of two strings of equal length. */
  function Xor(a: Bytes, b: Bytes): (r: Bytes)
    requires |a| == |b|
    ensures |r| == |a|
    ensures forall i :: 0 <= i < |a| ==> r[i] == XorByte(a[i], b[i])
  {
    seq(|a|, i requires 0 <= i < |a| => XorByte(a[i], b[i]))
  }

  /** Xor with the same mask twice is the identity. */
  lemma XorTwice(a: Bytes, b: Bytes)
    requires |a| == |b|
    ensures Xor(Xor(a, b), b) == a
  {
    var r := Xor(Xor(a, b), b);
    assert Pow2(8) == 256;
    forall i | 0 <= i < |a|
      ensures r[i] == a[i]
    {
      XorLowTwice(a[i] as nat, b[i] as nat, 8);
    }
  }

  /** Regrouping for conservation proofs: if a first step turns `start + head` into `done1 +
      mid` and the rest turns `mid + more` into `done2 + left`, the whole run turns
      `start + (head + more)` into `(done1 + done2) + left`. */
  lemma ConcatRegroup<T>(done1: seq<T>, done2: seq<T>, left: seq<T>, mid: seq<T>, start: seq<T>, head: seq<T>, more: seq<T>)
    requires done1 + mid == start + head
    requires done2 + left == mid + more
    ensures (done1 + done2) + left == start + (head + more)
  {
    calc {
      (done1 + done2) + left;
      done1 + (done2 + left);
      done1 + (mid + more);
      (done1 + mid) + more;
    }
  }

  /** The unsigned value of a byte. */
  function ToNat(x: Byte): (v: nat)
    ensures v < 256
  {
    x as int
  }

  /** The byte with a given unsigned value. */
  function ToByte(v: nat): (x: Byte)
    requires v < 256
    ensures ToNat(x) == v
  {
    v as Byte
  }

  lemma ToByteToNat(x: Byte)
    ensures ToByte(ToNat(x)) == x
  {
  }

  /** The four bytes of an unsigned 32-bit value, least significant first. */
  function UInt32Bytes(u: int): (r: Bytes)
    requires 0 <= u < TwoTo32
    ensures |r| == 4
  {
    var u1 := u / 256;
    var u2 := u1 / 256;
    [ToByte(u % 256), ToByte(u1 % 256), ToByte(u2 % 256), ToByte(u2 / 256)]
  }

  /** The unsigned value of four bytes, least significant first. */
  function UInt32Value(b: Bytes): (u: int)
    requires |b| == 4
    ensures 0 <= u < TwoTo32
  {
    var b0, b1, b2, b3 := ToNat(b[0]), ToNat(b[1]), ToNat(b[2]), ToNat(b[3]);
    b0 + 256 * (b1 + 256 * (b2 + 256 * b3))
  }

  /** BitConverter.GetBytes(int): two's complement, least significant byte first. */
  function Int32Bytes(n: int): (r: Bytes)
    requires IsInt32(n)
    ensures |r| == 4
  {
    UInt32Bytes(if n < 0 then n + TwoTo32 else n)
  }

  /** BitConverter.ToInt32(b, 0): reads four bytes back as a signed 32-bit integer. */
  function Int32Value(b: Bytes): (n: int)
    requires |b| == 4
    ensures IsInt32(n)
  {
    var u := UInt32Value(b);
    if u >= 0x8000_0000 then u - TwoTo32 else u
  }

  lemma DivModBase(u: int, q: int, r: int)
    requires 0 <= r < 256 && u == 256 * q + r
    ensures u / 256 == q && u % 256 == r
  {
  }

  lemma UInt32RoundTrip(u: int)
    requires 0 <= u < TwoTo32
    ensures UInt32Value(UInt32Bytes(u)) == u
  {
    var u1 := u / 256;
    var u2 := u1 / 256;
    var b := UInt32Bytes(u);
    assert ToNat(b[0]) == u % 256;
    assert ToNat(b[1]) == u1 % 256;
    assert ToNat(b[2]) == u2 % 256;
    assert ToNat(b[3]) == u2 / 256;
  }

  lemma UInt32BytesOfDigits(u0: int, u1: int, u2: int, b0: nat, b1: nat, b2: nat, b3: nat)
    requires b0 < 256 && b1 < 256 && b2 < 256 && b3 < 256
    requires u2 == b2 + 256 * b3 && u1 == b1 + 256 * u2 && u0 == b0 + 256 * u1
    ensures 0 <= u0 < TwoTo32
    ensures UInt32Bytes(u0) == [ToByte(b0), ToByte(b1), ToByte(b2), ToByte(b3)]
  {
    DivModBase(u0, u1, b0);
    DivModBase(u1, u2, b1);
    DivModBase(u2, b3, b2);
  }

  lemma UInt32Canonical(b: Bytes)
    requires |b| == 4
    ensures UInt32Bytes(UInt32Value(b)) == b
  {
    var b0, b1, b2, b3 := ToNat(b[0]), ToNat(b[1]), ToNat(b[2]), ToNat(b[3]);
    UInt32BytesOfDigits(UInt32Value(b), b1 + 256 * (b2 + 256 * b3), b2 + 256 * b3, b0, b1, b2, b3);
    ToByteToNat(b[0]);
    ToByteToNat(b[1]);
    ToByteToNat(b[2]);
    ToByteToNat(b[3]);
  }

  /** Decoding inverts encoding on every 32-bit integer. */
  lemma Int32RoundTrip(n: int)
    requires IsInt32(n)
    ensures Int32Value(Int32Bytes(n)) == n
  {
    UInt32RoundTrip(if n < 0 then n + TwoTo32 else n);
  }

  /** Encoding inverts decoding: every four-byte string is the encoding of exactly one integer. */
  lemma Int32Canonical(b: Bytes)
    requires |b| == 4
    ensures Int32Bytes(Int32Value(b)) == b
  {
    UInt32Canonical(b);
  }
}
