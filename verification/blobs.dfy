/** Blobs.Combine and Blobs.Split: the concatenate / slice codec under every package layout. */
module Blobs {
  import opened Wrappers
  import opened Bytes

  /** The sum of a sequence of lengths. */
  function Sum(lengths: seq<nat>): nat {
    if |lengths| == 0 then 0 else lengths[0] + Sum(lengths[1..])
  }

  /** The lengths of a sequence of blobs. */
  function Lengths(blobs: seq<Bytes>): (r: seq<nat>)
    ensures |r| == |blobs|
    ensures forall k :: 0 <= k < |blobs| ==> r[k] == |blobs[k]|
  {
    seq(|blobs|, k requires 0 <= k < |blobs| => |blobs[k]|)
  }

  /** Where blob k starts inside the combination of `blobs`. */
  function Offset(blobs: seq<Bytes>, k: nat): nat
    requires k <= |blobs|
  {
    Sum(Lengths(blobs[..k]))
  }

  /** Combine: the sources, concatenated in order. */
  function Combine(sources: seq<Bytes>): (r: Bytes)
    ensures |r| == Sum(Lengths(sources))
  {
    if |sources| == 0 then []
    else
      assert Lengths(sources[1..]) == Lengths(sources)[1..];
      sources[0] + Combine(sources[1..])
  }

  lemma {:induction false} OffsetStep(blobs: seq<Bytes>, k: nat)
    requires 0 < k <= |blobs|
    ensures Offset(blobs, k) == |blobs[0]| + Offset(blobs[1..], k - 1)
  {
    assert Lengths(blobs[..k])[1..] == Lengths(blobs[1..][..k - 1]);
  }

  /** Source k occupies bytes [Offset(k), Offset(k) + |source k|) of the combination. */
  lemma {:induction false} CombineSlices(sources: seq<Bytes>, k: nat)
    requires k < |sources|
    ensures Offset(sources, k) + |sources[k]| <= |Combine(sources)|
    ensures Combine(sources)[Offset(sources, k)..Offset(sources, k) + |sources[k]|] == sources[k]
  {
    var r := Combine(sources);
    assert r == sources[0] + Combine(sources[1..]);
    if k == 0 {
      assert Offset(sources, 0) == 0;
    } else {
      OffsetStep(sources, k);
      CombineSlices(sources[1..], k - 1);
      var o := Offset(sources[1..], k - 1);
      assert r[|sources[0]| + o..|sources[0]| + o + |sources[k]|]
          == Combine(sources[1..])[o..o + |sources[k]|];
    }
  }

  /** The parts `source` falls into when cut at the given lengths, which must sum to |source|. */
  function Cut(source: Bytes, lengths: seq<nat>): (parts: seq<Bytes>)
    requires Sum(lengths) == |source|
    ensures Lengths(parts) == lengths
    ensures Combine(parts) == source
  {
    if |lengths| == 0 then []
    else
      var parts := [source[..lengths[0]]] + Cut(source[lengths[0]..], lengths[1..]);
      assert parts[1..] == Cut(source[lengths[0]..], lengths[1..]);
      assert Lengths(parts)[1..] == Lengths(parts[1..]);
      parts
  }

  /** Split: fills destinations of the given lengths from `source`; the lengths must add up to
      exactly |source|, otherwise FormatException is thrown and nothing is written. */
  function Split(source: Bytes, lengths: seq<nat>): (r: Result<seq<Bytes>>)
    ensures r.Err? <==> Sum(lengths) != |source|
    ensures r.Err? ==> r.error == Format
    ensures r.Ok? ==> Lengths(r.value) == lengths && Combine(r.value) == source
  {
    if Sum(lengths) != |source| then Err(Format) else Ok(Cut(source, lengths))
  }

  /** On success destination k receives source[Offset(k) .. Offset(k) + lengths[k]). */
  lemma SplitSlices(source: Bytes, lengths: seq<nat>, k: nat)
    requires Split(source, lengths).Ok? && k < |lengths|
    ensures var parts := Split(source, lengths).value;
      Offset(parts, k) + lengths[k] <= |source|
      && parts[k] == source[Offset(parts, k)..Offset(parts, k) + lengths[k]]
  {
    CombineSlices(Split(source, lengths).value, k);
  }

  /** Only the total matters: the parts are determined by their lengths and their combination. */
  lemma {:induction false} CombineInjective(a: seq<Bytes>, b: seq<Bytes>)
    requires Lengths(a) == Lengths(b) && Combine(a) == Combine(b)
    ensures a == b
  {
    if |a| > 0 {
      var n := |a[0]|;
      assert |b[0]| == Lengths(b)[0] == n;
      assert Combine(a)[..n] == a[0];
      assert Combine(b)[..n] == b[0];
      assert Combine(a)[n..] == Combine(a[1..]);
      assert Combine(b)[n..] == Combine(b[1..]);
      assert Lengths(a[1..]) == Lengths(a)[1..];
      assert Lengths(b[1..]) == Lengths(b)[1..];
      CombineInjective(a[1..], b[1..]);
    }
  }

  /** Round trip: splitting a combination at its sources' lengths gives the sources back. */
  lemma SplitCombine(sources: seq<Bytes>)
    ensures Split(Combine(sources), Lengths(sources)) == Ok(sources)
  {
    CombineInjective(Split(Combine(sources), Lengths(sources)).value, sources);
  }

  lemma SumThree(x: nat, y: nat, z: nat)
    ensures Sum([x, y, z]) == x + y + z
  {
    assert [x, y, z][1..] == [y, z];
    assert [y, z][1..] == [z];
    assert [z][1..] == [];
    assert Sum([z]) == z + Sum([]);
    assert Sum([y, z]) == y + Sum([z]);
  }

  /** The three-part layouts used by the package codecs. */
  lemma CombineThree(a: Bytes, b: Bytes, c: Bytes)
    ensures Combine([a, b, c]) == a + b + c
    ensures Lengths([a, b, c]) == [|a|, |b|, |c|]
  {
    assert [a, b, c][1..] == [b, c];
    assert [b, c][1..] == [c];
    assert [c][1..] == [];
    assert Combine([c]) == c + Combine([]);
    assert Combine([b, c]) == b + Combine([c]);
  }
}
