// The keys of the text index: one chain of keys per term, told apart and ordered by their bytes.
module TermKeys {
  import opened RecordFile
  import opened Keys
  import opened KeyEncoding

  /** The corpus length, the header of a term's chain, and its numbered blocks. */
  datatype IKey = Stats | Head(term: Bytes) | Block(term: Bytes, i: nat)

  function Pow16(n: nat): (p: nat)
    ensures p > 0
  {
    if n == 0 then 1 else 16 * Pow16(n - 1)
  }

  function HexDigit(v: nat): Byte
    requires v < 16
  {
    if v < 10 then 48 + v else 87 + v
  }

  /** The low `n` digits, most significant first. */
  function Hex(i: nat, n: nat): (b: Bytes)
    ensures |b| == n && forall k :: 0 <= k < n ==> 48 <= b[k] <= 102
  {
    if n == 0 then [] else Hex(i / 16, n - 1) + [HexDigit(i % 16)]
  }

  /** Fixed-width hexadecimal keeps the order. */
  lemma {:induction false} HexOrder(i: nat, j: nat, n: nat)
    requires i < j < Pow16(n)
    ensures CompareBytes(Hex(i, n), Hex(j, n)) < 0
  {
    var a, b, x, y := Hex(i / 16, n - 1), Hex(j / 16, n - 1), [HexDigit(i % 16)], [HexDigit(j % 16)];
    CompareAfter(a, b, x, y);
    if i / 16 < j / 16 {
      HexOrder(i / 16, j / 16, n - 1);
    }
  }

  /** A digit's value; None for other characters. */
  function DigitValue(c: Byte): Option<nat> {
    if 48 <= c <= 57 then Some(c - 48) else if 97 <= c <= 102 then Some(c - 87) else None
  }

  /** Digit after digit, as the block number is read back from a key. */
  function ParseHex(b: Bytes): Option<nat> {
    if b == [] then Some(0)
    else
      var v, d := ParseHex(b[..|b| - 1]), DigitValue(b[|b| - 1]);
      if v.None? || d.None? then None else Some(v.value * 16 + d.value)
  }

  lemma {:induction false} ParseBack(i: nat, n: nat)
    requires i < Pow16(n)
    ensures ParseHex(Hex(i, n)) == Some(i)
  {
    if n > 0 {
      ParseBack(i / 16, n - 1);
      assert Hex(i, n)[..n - 1] == Hex(i / 16, n - 1);
    }
  }

  /** Stems hold word characters only. */
  predicate TermOk(t: Bytes) {
    t != [] && forall i :: 0 <= i < |t| ==> t[i] != 0
  }

  predicate KeyOk(k: IKey) {
    (k.Stats? || TermOk(k.term)) && (k.Block? ==> k.i < Pow16(8))
  }

  function KeyBytes(k: IKey): Bytes
    requires KeyOk(k)
  {
    match k
    case Stats => [0, 115, 117, 109]
    case Head(t) => t + [0]
    case Block(t, i) => t + [0] + Hex(i, 8)
  }

  function RangeMax(t: Bytes): Bytes {
    t + [0, 255]
  }

  /** What follows the term and its NUL. */
  function Suffix(k: IKey): Bytes
    requires KeyOk(k) && !k.Stats?
  {
    if k.Block? then Hex(k.i, 8) else []
  }

  lemma KeySplits(k: IKey)
    requires KeyOk(k) && !k.Stats?
    ensures KeyBytes(k) == k.term + ([0] + Suffix(k))
  {
  }

  lemma {:induction false} SamePrefix(t: Bytes, x: Bytes, y: Bytes)
    ensures CompareBytes(t + x, t + y) == CompareBytes(x, y)
  {
    if t == [] {
      assert [] + x == x && [] + y == y;
    } else {
      assert (t + x)[1..] == t[1..] + x && (t + y)[1..] == t[1..] + y;
      SamePrefix(t[1..], x, y);
    }
  }

  /** Another term's keys lie before the chain of `t` or behind it. */
  lemma {:induction false} Apart(t: Bytes, u: Bytes, z: Bytes)
    requires t != u && (forall i :: 0 <= i < |t| ==> t[i] != 0) && (forall i :: 0 <= i < |u| ==> u[i] != 0)
    ensures CompareBytes(t + [0], u + ([0] + z)) > 0 || CompareBytes(u + ([0] + z), t + [0, 255]) > 0
  {
    var k := u + ([0] + z);
    if t != [] && u != [] {
      assert (t + [0])[1..] == t[1..] + [0] && (t + [0, 255])[1..] == t[1..] + [0, 255] && k[1..] == u[1..] + ([0] + z);
      if t[0] == u[0] {
        assert t == [t[0]] + t[1..] && u == [u[0]] + u[1..];
        Apart(t[1..], u[1..], z);
      }
    }
  }

  predicate InChain(t: Bytes, k: IKey) {
    !k.Stats? && k.term == t
  }

  ghost predicate InTermRange(t: Bytes, k: IKey)
    requires KeyOk(k)
  {
    CompareBytes(t + [0], KeyBytes(k)) <= 0 && CompareBytes(KeyBytes(k), RangeMax(t)) <= 0
  }

  /** From its header to its upper bound, a term's range holds its own chain and nothing else. */
  lemma RangeIsChain(t: Bytes, k: IKey)
    requires TermOk(t) && KeyOk(k)
    ensures InTermRange(t, k) <==> InChain(t, k)
  {
    if k.Stats? {
      assert KeyBytes(k)[0] == 0 && (t + [0])[0] == t[0];
    } else {
      KeySplits(k);
      if k.term == t {
        SamePrefix(t, [0], [0] + Suffix(k));
        SamePrefix(t, [0] + Suffix(k), [0, 255]);
        SuffixInside(Suffix(k));
      } else {
        Apart(t, k.term, Suffix(k));
      }
    }
  }

  lemma SuffixInside(s: Bytes)
    ensures CompareBytes([0], [0] + s) <= 0
    ensures (s != [] ==> s[0] < 255) ==> CompareBytes([0] + s, [0, 255]) <= 0
  {
    assert [0][1..] == [] && ([0] + s)[1..] == s && [0, 255][1..] == [255];
  }

  /** Within a chain: the header first, then the blocks by number. */
  predicate Before(a: IKey, b: IKey) {
    b.Block? && (a.Head? || (a.Block? && a.i < b.i))
  }

  lemma ChainOrder(t: Bytes, a: IKey, b: IKey)
    requires KeyOk(a) && KeyOk(b) && InChain(t, a) && InChain(t, b) && Before(a, b)
    ensures CompareBytes(KeyBytes(a), KeyBytes(b)) < 0
  {
    KeySplits(a);
    KeySplits(b);
    SamePrefix(t, [0] + Suffix(a), [0] + Suffix(b));
    SamePrefix([0], Suffix(a), Suffix(b));
    if a.Block? {
      HexOrder(a.i, b.i, 8);
    }
  }

  /** Different keys have different bytes. */
  lemma BytesDiffer(a: IKey, b: IKey)
    requires KeyOk(a) && KeyOk(b) && a != b
    ensures KeyBytes(a) != KeyBytes(b)
  {
    if a.Stats? {
      assert KeyBytes(b)[0] == b.term[0];
    } else if b.Stats? {
      assert KeyBytes(a)[0] == a.term[0];
    } else if a.term != b.term {
      RangeIsChain(a.term, a);
      RangeIsChain(a.term, b);
    } else if Before(a, b) {
      ChainOrder(a.term, a, b);
      CompareBytesIsRankOrder(KeyBytes(a), KeyBytes(b));
    } else {
      ChainOrder(a.term, b, a);
      CompareBytesIsRankOrder(KeyBytes(b), KeyBytes(a));
    }
  }
}
