// Wire-format primitives: little-endian words, and the size of an encoded value from its header.
module Wire {
  import opened RecordFile

  const T_NULL: Byte := 0x00
  const T_FALSE: Byte := 0x01
  const T_TRUE: Byte := 0x02
  const T_INT: Byte := 0x03
  const T_FLOAT: Byte := 0x04
  const T_STRING: Byte := 0x05
  const T_OID: Byte := 0x06
  const T_DATE: Byte := 0x07
  const T_POINTER: Byte := 0x08
  const T_BINARY: Byte := 0x09
  const T_ARRAY: Byte := 0x10
  const T_OBJECT: Byte := 0x11

  const TWO_32: nat := 0x1_0000_0000
  const TWO_64: nat := 0x1_0000_0000_0000_0000

  function Pow256(n: nat): (p: nat)
    ensures p > 0
  {
    if n == 0 then 1 else 256 * Pow256(n - 1)
  }

  /** The low `n` bytes of `v`, least significant first. */
  function LeBytes(v: nat, n: nat): (b: Bytes)
    ensures |b| == n
  {
    if n == 0 then [] else [v % 256] + LeBytes(v / 256, n - 1)
  }

  function LeValue(b: Bytes): nat {
    if b == [] then 0 else b[0] + 256 * LeValue(b[1..])
  }

  /** Written little-endian, a number that fits reads back as itself. */
  lemma {:induction false} LeRoundTrip(v: nat, n: nat)
    requires v < Pow256(n)
    ensures LeValue(LeBytes(v, n)) == v
  {
    if n > 0 {
      LeRoundTrip(v / 256, n - 1);
      assert LeBytes(v, n)[1..] == LeBytes(v / 256, n - 1);
    }
  }

  lemma {:induction false} LeBound(b: Bytes)
    ensures LeValue(b) < Pow256(|b|)
  {
    if b != [] {
      LeBound(b[1..]);
    }
  }

  lemma WordSizes()
    ensures Pow256(4) == TWO_32 && Pow256(8) == TWO_64
  {
    assert Pow256(4) == 256 * (256 * (256 * (256 * Pow256(0))));
    assert Pow256(8) == 256 * (256 * (256 * (256 * Pow256(4))));
  }

  function Wr32(v: nat): (b: Bytes)
    ensures |b| == 4
  {
    LeBytes(v, 4)
  }

  function Rd32(b: Bytes, pos: nat): nat
    requires pos + 4 <= |b|
  {
    LeValue(b[pos..pos + 4])
  }

  lemma Rd32Wr32(v: nat)
    requires v < TWO_32
    ensures Rd32(Wr32(v), 0) == v
  {
    WordSizes();
    LeRoundTrip(v, 4);
    assert Wr32(v)[0..4] == Wr32(v);
  }

  lemma SliceOfSlice(b: Bytes, p: nat, q: nat, i: nat, j: nat)
    requires p <= q <= |b| && i <= j <= q - p
    ensures b[p..q][i..j] == b[p + i..p + j]
  {
    var s, t := b[p..q][i..j], b[p + i..p + j];
    forall k | 0 <= k < |s| ensures s[k] == t[k] {
      assert b[p..q][i + k] == b[p + (i + k)];
    }
  }

  /** Size of the value at `pos` as its header tells it; None when the header is cut off or unknown. */
  function ValueSize(b: Bytes, pos: nat): (n: Option<nat>)
    ensures n.Some? ==> n.value > 0
  {
    if pos >= |b| then None
    else
      var t := b[pos];
      if t == T_NULL || t == T_FALSE || t == T_TRUE then Some(1)
      else if t == T_INT || t == T_FLOAT || t == T_DATE || t == T_POINTER then Some(9)
      else if t == T_OID then Some(13)
      else if t == T_STRING || t == T_BINARY || t == T_ARRAY || t == T_OBJECT then
        if pos + 5 > |b| then None else Some(5 + Rd32(b, pos + 1))
      else None
  }

  /** A byte string that is one whole encoded value by its own header. */
  ghost predicate IsRecord(r: Bytes) {
    r != [] && ValueSize(r, 0) == Some(|r|)
  }

  /** The size of a whole record does not depend on what stands around it. */
  lemma SizeInPlace(b: Bytes, pos: nat, r: Bytes)
    requires IsRecord(r) && pos + |r| <= |b| && b[pos..pos + |r|] == r
    ensures ValueSize(b, pos) == Some(|r|)
  {
    var w := b[pos..pos + |r|];
    assert b[pos] == w[0];
    if |r| >= 5 {
      SliceOfSlice(b, pos, pos + |r|, 1, 5);
    }
  }

  /** A record cut short is never mistaken for a whole one. */
  lemma TornRecord(b: Bytes, pos: nat, r: Bytes)
    requires IsRecord(r) && pos <= |b| && |b| - pos < |r| && b[pos..] == r[..|b| - pos]
    ensures ValueSize(b, pos) == None || pos + ValueSize(b, pos).value > |b|
  {
    if pos < |b| {
      var w := b[pos..];
      assert b[pos] == w[0] == r[0];
      if pos + 5 <= |b| {
        SliceOfSlice(b, pos, |b|, 1, 5);
        assert b[pos + 1..pos + 5] == w[1..5] == r[1..5];
      }
    }
  }
}
