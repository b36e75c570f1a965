// Comparable keys: numbers and byte strings.  `Compare` follows the C code; `Rank` embeds the
// keys other than NaN into the reals in the same order, which is how the tree modules see a key.
module Keys {
  import opened RecordFile

  /** A double as far as ordering goes; both zeros are `Fin(0.0)`. */
  datatype Double = NaN | NegInf | Fin(r: real) | PosInf

  datatype Key = Num(d: Double) | Str(s: Bytes)

  /** `a < b` on doubles: false whenever NaN is involved. */
  predicate DoubleLess(a: Double, b: Double) {
    match (a, b)
    case (NaN, _) => false
    case (_, NaN) => false
    case (NegInf, _) => b != NegInf
    case (Fin(x), Fin(y)) => x < y
    case (Fin(_), _) => b == PosInf
    case (PosInf, _) => false
  }

  /** Bytes first, then length, as memcmp over the shorter length followed by the length test. */
  function CompareBytes(a: Bytes, b: Bytes): int {
    if a == [] && b == [] then 0
    else if a == [] then -1
    else if b == [] then 1
    else if a[0] < b[0] then -1
    else if a[0] > b[0] then 1
    else CompareBytes(a[1..], b[1..])
  }

  function Compare(a: Key, b: Key): int {
    if a.Str? != b.Str? then (if a.Str? then 1 else -1)
    else if a.Str? then CompareBytes(a.s, b.s)
    else if DoubleLess(a.d, b.d) then -1
    else if DoubleLess(b.d, a.d) then 1
    else 0
  }

  /** Keys that may be stored: byte strings and finite numbers. */
  predicate Storable(k: Key) {
    k.Str? || k.d.Fin?
  }

  /** Keys that may bound a range: anything but NaN. */
  predicate BoundValid(k: Key) {
    k.Str? || k.d != NaN
  }

  /** A byte string as a base-257 fraction with digits 1..256. */
  function BytesRank(s: Bytes): (r: real)
    ensures 0.0 <= r < 1.0
    ensures r == 0.0 <==> s == []
  {
    if s == [] then 0.0 else (s[0] as real + 1.0 + BytesRank(s[1..])) / 257.0
  }

  /** The real line squeezed into (-1, 1). */
  function NumberRank(x: real): real {
    if x >= 0.0 then x / (1.0 + x) else x / (1.0 - x)
  }

  function Rank(k: Key): real
    requires BoundValid(k)
  {
    match k
    case Num(NegInf) => -1.0
    case Num(Fin(x)) => NumberRank(x)
    case Num(PosInf) => 1.0
    case Str(s) => 2.0 + BytesRank(s)
    case Num(NaN) => assert false; 0.0
  }

  lemma {:induction false} CompareBytesIsRankOrder(a: Bytes, b: Bytes)
    ensures CompareBytes(a, b) < 0 <==> BytesRank(a) < BytesRank(b)
    ensures CompareBytes(a, b) == 0 <==> BytesRank(a) == BytesRank(b)
    ensures CompareBytes(a, b) == 0 <==> a == b
  {
    if a != [] && b != [] {
      CompareBytesIsRankOrder(a[1..], b[1..]);
      assert a == [a[0]] + a[1..] && b == [b[0]] + b[1..];
    }
  }

  lemma MulAtLeast(p: real, d: real)
    requires p >= 1.0 && d > 0.0
    ensures p * d >= d
  {
    assert (p - 1.0) * d >= 0.0;
    assert (p - 1.0) * d == p * d - d;
  }

  lemma NumberRankInside(x: real)
    ensures x >= 0.0 ==> 0.0 <= NumberRank(x) < 1.0 && NumberRank(x) * (1.0 + x) == x
    ensures x < 0.0 ==> -1.0 < NumberRank(x) < 0.0 && NumberRank(x) * (1.0 - x) == x
  {
    var p := NumberRank(x);
    if x >= 0.0 {
      assert p * (1.0 + x) == x;
      if p >= 1.0 {
        MulAtLeast(p, 1.0 + x);
      }
    } else {
      assert p * (1.0 - x) == x;
      if -p >= 1.0 {
        MulAtLeast(-p, 1.0 - x);
      }
    }
  }

  lemma PositiveProduct(a: real, b: real)
    requires a > 0.0 && b > 0.0
    ensures a * b > 0.0
  {
  }

  /** A fraction below one grows when numerator and denominator grow alike. */
  lemma FractionGrows(p: real, q: real, x: real, u: real, y: real, v: real)
    requires 0.0 < u < v && y - x == v - u && p * u == x && q * v == y && p < 1.0
    ensures p < q
  {
    PositiveProduct(1.0 - p, v - u);
    if q < p {
      PositiveProduct(p - q, v);
    }
  }

  lemma NumberRankMonotone(x: real, y: real)
    requires x < y
    ensures NumberRank(x) < NumberRank(y)
  {
    var p, q := NumberRank(x), NumberRank(y);
    NumberRankInside(x);
    NumberRankInside(y);
    if x >= 0.0 {
      FractionGrows(p, q, x, 1.0 + x, y, 1.0 + y);
    } else if y < 0.0 {
      FractionGrows(-q, -p, -y, 1.0 - y, -x, 1.0 - x);
    }
  }

  /** The C comparison is the order of the ranks, and equal keys are the same key. */
  lemma CompareIsRankOrder(a: Key, b: Key)
    requires BoundValid(a) && BoundValid(b)
    ensures Compare(a, b) < 0 <==> Rank(a) < Rank(b)
    ensures Compare(a, b) == 0 <==> Rank(a) == Rank(b)
    ensures Compare(a, b) == 0 <==> a == b
  {
    if a.Str? && b.Str? {
      CompareBytesIsRankOrder(a.s, b.s);
    }
    if a.Num? && a.d.Fin? {
      NumberRankInside(a.d.r);
    }
    if b.Num? && b.d.Fin? {
      NumberRankInside(b.d.r);
    }
    if a.Num? && b.Num? && a.d.Fin? && b.d.Fin? {
      if a.d.r < b.d.r {
        NumberRankMonotone(a.d.r, b.d.r);
      } else if b.d.r < a.d.r {
        NumberRankMonotone(b.d.r, a.d.r);
      }
    }
  }

  /** NaN compares equal to every number, so as a key it would match arbitrary entries. */
  lemma NaNMatchesEveryNumber(d: Double)
    ensures Compare(Num(NaN), Num(d)) == 0 && Compare(Num(d), Num(NaN)) == 0
  {
  }
}
