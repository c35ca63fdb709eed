/** The Kademlia-style routing table of the node-finding experiment (NodeFindingTest/Node.cs).

    A name is a 256-bit BitArray built from 32 bytes: bit i is bit (i % 8) of byte i / 8.
    The distance between two names is their exclusive or, copied back into 32 bytes and read
    as an unsigned big-endian integer. A table keeps 256 buckets; a reference goes to the
    bucket indexed by the first bit where its name differs from the table's own name.

    NodeReference.Equals compares names with BitArray.Equals, which .NET inherits from
    Object: two references are equal only when they hold the same BitArray object. Here names
    are values and references are equal when their bits and addresses are equal, so two
    references built from separate arrays with the same bits count as one. */
module Routing {
  import opened Wrappers

  const NameBits: nat := 256

  /** Bucket.SIZE: the bound on the main list and on the backup queue. */
  const BucketSize: nat := 16

  type Name = seq<bool>

  predicate ValidName(n: Name) {
    |n| == NameBits
  }

  datatype NodeRef = NodeRef(name: Name, address: string)

  // ---------------------------------------------------------------- distance

  function BitValue(b: bool): nat {
    if b then 1 else 0
  }

  /** The value of bits, least significant first (one byte's worth in CopyTo). */
  function LittleValue(bits: seq<bool>): nat
    decreases |bits|
  {
    if |bits| == 0 then 0 else BitValue(bits[0]) + 2 * LittleValue(bits[1..])
  }

  /** BitArray.CopyTo(byte[]): byte k holds bits 8k .. 8k + 7, least significant first. */
  function Pack(bits: seq<bool>): (bytes: seq<nat>)
    requires |bits| % 8 == 0
    ensures |bytes| == |bits| / 8
    decreases |bits|
  {
    if |bits| == 0 then [] else [LittleValue(bits[..8])] + Pack(bits[8..])
  }

  /** new BigInteger(bytes, isUnsigned: true, isBigEndian: true). */
  function BigEndian(bytes: seq<nat>): nat
    decreases |bytes|
  {
    if |bytes| == 0 then 0 else 256 * BigEndian(bytes[..|bytes| - 1]) + bytes[|bytes| - 1]
  }

  /** BitArray.Xor on a clone. */
  function XorBits(a: Name, b: Name): (r: Name)
    requires |a| == |b|
    ensures |r| == |a|
    ensures forall i :: 0 <= i < |a| ==> r[i] == (a[i] != b[i])
  {
    seq(|a|, i requires 0 <= i < |a| => a[i] != b[i])
  }

  /** The XOR distance between two names as Bucket.GetClosest computes it. */
  function Distance(a: Name, b: Name): nat
    requires ValidName(a) && ValidName(b)
  {
    BigEndian(Pack(XorBits(a, b)))
  }

  predicate AllFalse(bits: seq<bool>) {
    forall i :: 0 <= i < |bits| ==> !bits[i]
  }

  predicate AllZero(bytes: seq<nat>) {
    forall k :: 0 <= k < |bytes| ==> bytes[k] == 0
  }

  lemma {:induction false} LittleValueZero(bits: seq<bool>)
    ensures LittleValue(bits) == 0 <==> AllFalse(bits)
    decreases |bits|
  {
    if |bits| > 0 {
      LittleValueZero(bits[1..]);
      assert AllFalse(bits) <==> !bits[0] && AllFalse(bits[1..]) by {
        if !bits[0] && AllFalse(bits[1..]) {
          forall i | 0 <= i < |bits| ensures !bits[i] {
            if i > 0 { assert bits[i] == bits[1..][i - 1]; }
          }
        }
      }
    }
  }

  lemma {:induction false} BigEndianZero(bytes: seq<nat>)
    ensures BigEndian(bytes) == 0 <==> AllZero(bytes)
    decreases |bytes|
  {
    if |bytes| > 0 {
      var init := bytes[..|bytes| - 1];
      BigEndianZero(init);
      assert AllZero(bytes) <==> AllZero(init) && bytes[|bytes| - 1] == 0 by {
        if AllZero(init) && bytes[|bytes| - 1] == 0 {
          forall k | 0 <= k < |bytes| ensures bytes[k] == 0 {
            if k < |bytes| - 1 { assert bytes[k] == init[k]; }
          }
        }
      }
    }
  }

  lemma {:induction false} PackZero(bits: seq<bool>)
    requires |bits| % 8 == 0
    ensures AllZero(Pack(bits)) <==> AllFalse(bits)
    decreases |bits|
  {
    if |bits| > 0 {
      PackZero(bits[8..]);
      LittleValueZero(bits[..8]);
      var p := Pack(bits);
      assert p[1..] == Pack(bits[8..]);
      assert AllZero(p) <==> p[0] == 0 && AllZero(p[1..]) by {
        if p[0] == 0 && AllZero(p[1..]) {
          forall k | 0 <= k < |p| ensures p[k] == 0 {
            if k > 0 { assert p[k] == p[1..][k - 1]; }
          }
        }
      }
      assert AllFalse(bits) <==> AllFalse(bits[..8]) && AllFalse(bits[8..]) by {
        if AllFalse(bits[..8]) && AllFalse(bits[8..]) {
          forall i | 0 <= i < |bits| ensures !bits[i] {
            if i < 8 { assert bits[i] == bits[..8][i]; } else { assert bits[i] == bits[8..][i - 8]; }
          }
        }
      }
    }
  }

  /** The distance is a metric's first law: zero exactly between equal names. */
  lemma DistanceZero(a: Name, b: Name)
    requires ValidName(a) && ValidName(b)
    ensures Distance(a, b) == 0 <==> a == b
  {
    var x := XorBits(a, b);
    BigEndianZero(Pack(x));
    PackZero(x);
    if AllFalse(x) {
      assert forall i :: 0 <= i < |a| ==> a[i] == b[i] by {
        forall i | 0 <= i < |a| ensures a[i] == b[i] {
          assert !x[i];
        }
      }
    }
  }

  /** The distance is symmetric. */
  lemma DistanceSymmetric(a: Name, b: Name)
    requires ValidName(a) && ValidName(b)
    ensures Distance(a, b) == Distance(b, a)
  {
    assert XorBits(a, b) == XorBits(b, a);
  }

  // ---------------------------------------------------------------- buckets

  /** The main list, in insertion order, and the backup queue, oldest first. */
  datatype Bucket = Bucket(main: seq<NodeRef>, backup: seq<NodeRef>)

  predicate Distinct(refs: seq<NodeRef>) {
    forall j, k :: 0 <= j < k < |refs| ==> refs[j] != refs[k]
  }

  /** Both lists within BucketSize, without repeats, every name 256 bits long. */
  predicate ValidBucket(b: Bucket) {
    && |b.main| <= BucketSize && |b.backup| <= BucketSize
    && Distinct(b.main) && Distinct(b.backup)
    && (forall k :: 0 <= k < |b.main| ==> ValidName(b.main[k].name))
  }

  function EmptyBucket(): (b: Bucket)
    ensures ValidBucket(b) && b.main == [] && b.backup == []
  {
    Bucket([], [])
  }

  /** Bucket.Size. */
  function Size(b: Bucket): (n: nat)
    ensures ValidBucket(b) ==> n <= BucketSize
  {
    |b.main|
  }

  /** Bucket.AddReference: into the main list when it has room and does not hold the
      reference; otherwise to the back of the backup queue unless already queued there, and a
      queue grown past BucketSize loses its oldest entry. */
  function AddToBucket(b: Bucket, r: NodeRef): (b': Bucket)
    requires ValidBucket(b) && ValidName(r.name)
    ensures ValidBucket(b')
    ensures r in b'.main || r in b'.backup
    ensures (|b.main| < BucketSize && r !in b.main) <==> b'.main == b.main + [r]
    ensures !(|b.main| < BucketSize && r !in b.main) ==> b'.main == b.main
    ensures !(|b.main| < BucketSize && r !in b.main) && r in b.backup ==> b'.backup == b.backup
    ensures !(|b.main| < BucketSize && r !in b.main) && r !in b.backup ==>
              if |b.backup| < BucketSize then b'.backup == b.backup + [r]
              else b'.backup == b.backup[1..] + [r]
  {
    if |b.main| < BucketSize && r !in b.main then
      assert forall k :: 0 <= k < |b.main| ==> (b.main + [r])[k] == b.main[k];
      Bucket(b.main + [r], b.backup)
    else if r in b.backup then b
    else
      var queued := b.backup + [r];
      assert forall k :: 0 <= k < |b.backup| ==> queued[k] == b.backup[k];
      var backup := if |queued| > BucketSize then queued[1..] else queued;
      assert backup[|backup| - 1] == r;
      Bucket(b.main, backup)
  }

  /** Bucket.GetClosest: none for an empty main list; otherwise the main entry nearest to
      `target`, the earliest of several at the same distance. */
  method GetClosest(b: Bucket, target: Name) returns (closest: Option<NodeRef>)
    requires ValidBucket(b) && ValidName(target)
    ensures closest.None? <==> b.main == []
    ensures closest.Some? ==> exists k :: 0 <= k < |b.main| && b.main[k] == closest.value && Nearest(b.main, target, k)
  {
    if |b.main| == 0 {
      return None;
    }
    var best := 0;
    var smallest := Distance(b.main[0].name, target);
    var i := 1;
    while i < |b.main|
      invariant 1 <= i <= |b.main| && 0 <= best < i
      invariant smallest == Distance(b.main[best].name, target)
      invariant forall j :: 0 <= j < i ==> Distance(b.main[j].name, target) >= smallest
      invariant forall j :: 0 <= j < best ==> Distance(b.main[j].name, target) > smallest
    {
      var size := Distance(b.main[i].name, target);
      if size < smallest {
        smallest := size;
        best := i;
      }
      i := i + 1;
    }
    return Some(b.main[best]);
  }

  /** Entry k of `refs` is at minimal distance from `target`, and every earlier entry is
      strictly farther. */
  predicate Nearest(refs: seq<NodeRef>, target: Name, k: nat)
    requires ValidName(target) && k < |refs|
    requires forall j :: 0 <= j < |refs| ==> ValidName(refs[j].name)
  {
    && (forall j :: 0 <= j < |refs| ==> Distance(refs[j].name, target) >= Distance(refs[k].name, target))
    && (forall j :: 0 <= j < k ==> Distance(refs[j].name, target) > Distance(refs[k].name, target))
  }

  // ---------------------------------------------------------------- table

  /** The index of the first bit where two names differ, scanning from `from`; none when
      they agree from there on. */
  function FirstDifference(a: Name, b: Name, from: nat): (level: Option<nat>)
    requires ValidName(a) && ValidName(b) && from <= NameBits
    ensures level.None? <==> a[from..] == b[from..]
    ensures level.Some? ==> from <= level.value < NameBits && a[from..level.value] == b[from..level.value]
                            && a[level.value] != b[level.value]
    decreases NameBits - from
  {
    if from == NameBits then None
    else if a[from] != b[from] then Some(from)
    else
      var rest := FirstDifference(a, b, from + 1);
      assert a[from..] == [a[from]] + a[from + 1..];
      assert b[from..] == [b[from]] + b[from + 1..];
      if rest.Some? then
        assert a[from..rest.value] == [a[from]] + a[from + 1..rest.value];
        assert b[from..rest.value] == [b[from]] + b[from + 1..rest.value];
        rest
      else rest
  }

  /** The bucket index the table uses for `name`: the first bit where it differs from the
      table's own name, or none for the own name. */
  function Level(self: Name, name: Name): (level: Option<nat>)
    requires ValidName(self) && ValidName(name)
    ensures level.None? <==> name == self
    ensures level.Some? ==> level.value < NameBits && self[..level.value] == name[..level.value]
                            && self[level.value] != name[level.value]
  {
    FirstDifference(self, name, 0)
  }

  datatype Table = Table(self: Name, buckets: seq<Bucket>)

  /** 256 valid buckets, and every reference filed in the bucket its name's level selects,
      whether in the main list or the backup queue. */
  predicate ValidTable(t: Table) {
    && ValidName(t.self) && |t.buckets| == NameBits
    && (forall l :: 0 <= l < NameBits ==> ValidBucket(t.buckets[l]))
    && (forall l :: 0 <= l < NameBits ==> Filed(t.buckets[l], t.self, l))
  }

  /** Every entry of the bucket, main or backup, has level `l` relative to `self`. */
  predicate Filed(b: Bucket, self: Name, l: nat)
    requires ValidName(self)
  {
    && (forall k :: 0 <= k < |b.main| ==> ValidName(b.main[k].name) && Level(self, b.main[k].name) == Some(l))
    && (forall k :: 0 <= k < |b.backup| ==> ValidName(b.backup[k].name) && Level(self, b.backup[k].name) == Some(l))
  }

  /** The constructor: 256 empty buckets. */
  function CreateTable(self: Name): (t: Table)
    requires ValidName(self)
    ensures ValidTable(t) && t.self == self
    ensures forall l :: 0 <= l < NameBits ==> t.buckets[l] == EmptyBucket()
  {
    Table(self, seq(NameBits, _ => EmptyBucket()))
  }

  /** RoutingTable.AddReference: a reference with the table's own name is ignored; any other
      goes to the bucket of its level, and no other bucket changes. */
  function AddReference(t: Table, r: NodeRef): (t': Table)
    requires ValidTable(t) && ValidName(r.name)
    ensures ValidTable(t') && t'.self == t.self
    ensures r.name == t.self ==> t' == t
    ensures r.name != t.self ==>
      var l := Level(t.self, r.name).value;
      && t'.buckets == t.buckets[l := AddToBucket(t.buckets[l], r)]
      && (r in t'.buckets[l].main || r in t'.buckets[l].backup)
  {
    match Level(t.self, r.name)
    case None => t
    case Some(l) =>
      var b := AddToBucket(t.buckets[l], r);
      AddKeepsFiled(t.buckets[l], r, t.self, l);
      t.(buckets := t.buckets[l := b])
  }

  /** A reference of level `l` added to a bucket filed at level `l` keeps it filed there. */
  lemma AddKeepsFiled(b: Bucket, r: NodeRef, self: Name, l: nat)
    requires ValidBucket(b) && ValidName(r.name) && ValidName(self)
    requires Filed(b, self, l) && Level(self, r.name) == Some(l)
    ensures Filed(AddToBucket(b, r), self, l)
  {
    var b' := AddToBucket(b, r);
    forall k | 0 <= k < |b'.backup|
      ensures ValidName(b'.backup[k].name) && Level(self, b'.backup[k].name) == Some(l)
    {
      assert b'.backup[k] == r || b'.backup[k] in b.backup;
    }
  }

  /** RoutingTable.GetClosest: none for the table's own name; otherwise the closest entry of
      the bucket the target's level selects, which therefore shares that level. */
  method TableGetClosest(t: Table, target: Name) returns (closest: Option<NodeRef>)
    requires ValidTable(t) && ValidName(target)
    ensures target == t.self ==> closest.None?
    ensures target != t.self ==>
      var l := Level(t.self, target).value;
      && (closest.None? <==> t.buckets[l].main == [])
      && (closest.Some? ==> closest.value in t.buckets[l].main && Level(t.self, closest.value.name) == Some(l))
      && (closest.Some? ==> exists k :: 0 <= k < |t.buckets[l].main| && t.buckets[l].main[k] == closest.value
                                       && Nearest(t.buckets[l].main, target, k))
  {
    match Level(t.self, target)
    case None =>
      return None;
    case Some(l) =>
      closest := GetClosest(t.buckets[l], target);
  }

  /** The main lists of a sequence of buckets, concatenated in bucket order. */
  function AllMain(buckets: seq<Bucket>): (all: seq<NodeRef>)
    ensures forall r :: r in all <==> exists l :: 0 <= l < |buckets| && r in buckets[l].main
    decreases |buckets|
  {
    if |buckets| == 0 then []
    else
      var rest := AllMain(buckets[1..]);
      assert forall l :: 1 <= l < |buckets| ==> buckets[l] == buckets[1..][l - 1];
      buckets[0].main + rest
  }

  /** How many main entries the first l buckets hold together: where bucket l's entries start
      in the concatenation. */
  function MainOffset(buckets: seq<Bucket>, l: nat): nat
    requires l <= |buckets|
    decreases l
  {
    if l == 0 then 0 else |buckets[0].main| + MainOffset(buckets[1..], l - 1)
  }

  /** `all` holds every bucket's main list whole, in bucket order: bucket l's entries, in
      their own order, start after those of the buckets before it, and nothing else is in it. */
  predicate InBucketOrder(all: seq<NodeRef>, buckets: seq<Bucket>) {
    && |all| == MainOffset(buckets, |buckets|)
    && forall l :: 0 <= l < |buckets| ==>
         MainOffset(buckets, l) + |buckets[l].main| <= |all|
         && all[MainOffset(buckets, l)..MainOffset(buckets, l) + |buckets[l].main|] == buckets[l].main
  }

  /** The concatenation of the main lists keeps them whole and in bucket order. */
  lemma {:induction false} AllMainSlices(buckets: seq<Bucket>)
    ensures InBucketOrder(AllMain(buckets), buckets)
    decreases |buckets|
  {
    if |buckets| > 0 {
      var tail := buckets[1..];
      AllMainSlices(tail);
      var all := AllMain(buckets);
      assert all == buckets[0].main + AllMain(tail);
      forall l | 0 <= l < |buckets|
        ensures MainOffset(buckets, l) + |buckets[l].main| <= |all|
        ensures all[MainOffset(buckets, l)..MainOffset(buckets, l) + |buckets[l].main|] == buckets[l].main
      {
        if l > 0 {
          var off := MainOffset(tail, l - 1);
          assert MainOffset(buckets, l) == |buckets[0].main| + off;
          assert buckets[l] == tail[l - 1];
          assert all[MainOffset(buckets, l)..MainOffset(buckets, l) + |buckets[l].main|]
              == AllMain(tail)[off..off + |tail[l - 1].main|];
        }
      }
    }
  }

  /** RoutingTable.GetAllReferences: every main entry of every bucket, bucket 0 first; it
      never holds the table's own name, and at most BucketSize entries per bucket. */
  function GetAllReferences(t: Table): (all: seq<NodeRef>)
    requires ValidTable(t)
    ensures forall r :: r in all <==> exists l :: 0 <= l < NameBits && r in t.buckets[l].main
    ensures InBucketOrder(all, t.buckets)
    ensures forall r :: r in all ==> r.name != t.self
    ensures |all| <= NameBits * BucketSize
  {
    AllMainBound(t.buckets);
    AllMainSlices(t.buckets);
    AllMainOwnName(t);
    AllMain(t.buckets)
  }

  /** A valid table never files its own name, so the concatenation never holds it. */
  lemma AllMainOwnName(t: Table)
    requires ValidTable(t)
    ensures forall r :: r in AllMain(t.buckets) ==> r.name != t.self
  {
    forall r | r in AllMain(t.buckets)
      ensures r.name != t.self
    {
      var l :| 0 <= l < NameBits && r in t.buckets[l].main;
      assert Filed(t.buckets[l], t.self, l);
    }
  }

  lemma {:induction false} AllMainBound(buckets: seq<Bucket>)
    requires forall l :: 0 <= l < |buckets| ==> |buckets[l].main| <= BucketSize
    ensures |AllMain(buckets)| <= |buckets| * BucketSize
    decreases |buckets|
  {
    if |buckets| > 0 {
      AllMainBound(buckets[1..]);
    }
  }
}
