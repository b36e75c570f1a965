// Order-preserving composite keys: index field values and the document id as bytes whose bytewise
// order is the order of the values.
module KeyEncoding {
  import opened RecordFile
  import opened Wire
  import opened Keys

  const TWO_63: nat := 0x8000_0000_0000_0000
  const TWO_52: nat := 0x10_0000_0000_0000
  const EXP_MAX: nat := 2047

  const TAG_NUMBER: Byte := 0
  const TAG_STRING: Byte := 1
  const TAG_ID: Byte := 2
  const TAG_DATE: Byte := 3
  const UPPER: Byte := 0xff

  /** An index field: a number by the bits of its double, a date by its milliseconds, a string, or anything else. */
  datatype Field = NumberField(bits: nat) | DateField(millis: int) | StringField(s: Bytes) | OtherField

  predicate InRange(v: Field) {
    match v
    case NumberField(bits) => bits < TWO_64
    case DateField(m) => 0 - TWO_63 <= m < TWO_63
    case _ => true
  }

  // ---- doubles, section 3.4 of IEEE 754-2019 ----

  function Pow2(n: nat): (p: nat)
    ensures p > 0
  {
    if n == 0 then 1 else 2 * Pow2(n - 1)
  }

  function Exponent(mag: nat): nat {
    mag / TWO_52
  }

  function Fraction(mag: nat): nat {
    mag % TWO_52
  }

  predicate IsNaN(bits: nat) {
    var mag := bits % TWO_63;
    Exponent(mag) == EXP_MAX && Fraction(mag) != 0
  }

  /** The absolute value in units of 2^-1074; infinity lies above every finite value. */
  function Magnitude(mag: nat): nat {
    if Exponent(mag) == 0 then Fraction(mag) else (TWO_52 + Fraction(mag)) * Pow2(Exponent(mag) - 1)
  }

  /** The number a double that is not NaN stands for, in the same units. */
  function ValueOfBits(bits: nat): int {
    if bits < TWO_63 then Magnitude(bits) else 0 - Magnitude(bits - TWO_63)
  }

  lemma {:induction false} Pow2Grows(i: nat, k: nat)
    requires i <= k
    ensures Pow2(i) <= Pow2(k)
  {
    if i < k {
      Pow2Grows(i, k - 1);
    }
  }

  lemma MulLess(a: nat, b: nat, p: nat)
    requires a < b && p > 0
    ensures a * p < b * p
  {
  }

  lemma MulAtMost(a: nat, p: nat, q: nat)
    requires p <= q
    ensures a * p <= a * q
  {
  }

  /** Below the next power of two of its exponent. */
  lemma MagnitudeBelow(mag: nat)
    ensures Magnitude(mag) < TWO_52 * Pow2(Exponent(mag))
  {
    if Exponent(mag) > 0 {
      MulLess(TWO_52 + Fraction(mag), 2 * TWO_52, Pow2(Exponent(mag) - 1));
    }
  }

  lemma MagnitudeAbove(mag: nat)
    requires Exponent(mag) > 0
    ensures TWO_52 * Pow2(Exponent(mag) - 1) <= Magnitude(mag)
  {
  }

  /** Without the sign, doubles are ordered like their bits. */
  lemma MagnitudeMonotone(x: nat, y: nat)
    requires x < y
    ensures Magnitude(x) < Magnitude(y)
  {
    assert x == TWO_52 * Exponent(x) + Fraction(x) && y == TWO_52 * Exponent(y) + Fraction(y);
    if Exponent(x) == Exponent(y) {
      if Exponent(x) > 0 {
        MulLess(TWO_52 + Fraction(x), TWO_52 + Fraction(y), Pow2(Exponent(x) - 1));
      }
    } else {
      assert Exponent(x) < Exponent(y);
      MagnitudeBelow(x);
      MagnitudeAbove(y);
      Pow2Grows(Exponent(x), Exponent(y) - 1);
      MulAtMost(TWO_52, Pow2(Exponent(x)), Pow2(Exponent(y) - 1));
    }
  }

  // ---- big-endian words ----

  function BeBytes(v: nat, n: nat): (b: Bytes)
    ensures |b| == n
  {
    if n == 0 then [] else BeBytes(v / 256, n - 1) + [v % 256]
  }

  lemma DivDiv(v: nat, p: nat)
    requires p > 0
    ensures v / 256 / p == v / (256 * p)
  {
    var q, r := v / (256 * p), v % (256 * p);
    assert v == 256 * (p * q) + r;
    assert v / 256 == p * q + r / 256;
    assert r / 256 < p;
    DivUnique(p * q + r / 256, p, q, r / 256);
  }

  lemma DivUnique(x: nat, p: nat, q: nat, r: nat)
    requires p > 0 && x == p * q + r && r < p
    ensures x / p == q
  {
    if x / p < q {
      MulAtMost(p, x / p + 1, q);
    } else if x / p > q {
      MulAtMost(p, q + 1, x / p);
    }
  }

  /** The byte `k` places from the right. */
  lemma {:induction false} BeByte(v: nat, n: nat, k: nat)
    requires k < n
    ensures BeBytes(v, n)[n - 1 - k] == v / Pow256(k) % 256
    decreases k
  {
    if k > 0 {
      BeByte(v / 256, n - 1, k - 1);
      DivDiv(v, Pow256(k - 1));
    }
  }

  /** Flipping every bit. */
  lemma {:induction false} BeFlipped(v: nat, n: nat)
    requires v < Pow256(n)
    ensures |BeBytes(Pow256(n) - 1 - v, n)| == n
    ensures forall i :: 0 <= i < n ==> BeBytes(Pow256(n) - 1 - v, n)[i] == 255 - BeBytes(v, n)[i]
  {
    if n > 0 {
      BeFlipped(v / 256, n - 1);
      var w := Pow256(n) - 1 - v;
      assert w / 256 == Pow256(n - 1) - 1 - v / 256 && w % 256 == 255 - v % 256;
    }
  }

  /** Setting the top bit. */
  lemma {:induction false} BeTopBit(v: nat, n: nat)
    requires 1 <= n && v < 128 * Pow256(n - 1)
    ensures BeBytes(v, n)[0] < 128 && BeBytes(v + 128 * Pow256(n - 1), n)
            == [BeBytes(v, n)[0] + 128] + BeBytes(v, n)[1..]
  {
    if n > 1 {
      BeTopBit(v / 256, n - 1);
      var w := v + 128 * Pow256(n - 1);
      assert w == 256 * (128 * Pow256(n - 2)) + v;
      assert w / 256 == v / 256 + 128 * Pow256(n - 2) && w % 256 == v % 256;
    } else {
      assert BeBytes(v, 1) == [v] && BeBytes(v + 128, 1) == [v + 128];
    }
  }

  // ---- the encodings ----

  /** Bits of a number in unsigned order: flipped for negatives, shifted up for the others, one zero. */
  function Ordinal(bits: nat): (o: nat)
    requires bits < TWO_64
    ensures o < TWO_64
  {
    if bits == TWO_63 then TWO_63 else if bits >= TWO_63 then TWO_64 - 1 - bits else bits + TWO_63
  }

  predicate Encodable(v: Field) {
    match v
    case NumberField(bits) => !IsNaN(bits)
    case DateField(_) => true
    case StringField(s) => forall i :: 0 <= i < |s| ==> s[i] != 0
    case OtherField => false
  }

  function Encode(v: Field): Bytes
    requires InRange(v) && Encodable(v)
  {
    match v
    case NumberField(bits) => [TAG_NUMBER] + BeBytes(Ordinal(bits), 8)
    case DateField(m) => [TAG_DATE] + BeBytes(m + TWO_63, 8)
    case StringField(s) => [TAG_STRING] + s + [0]
  }

  /** Eight bytes of a word, most significant first, after the tag. */
  method WriteBe(enc: array<Byte>, bits: nat)
    requires enc.Length == 9 && bits < TWO_64
    modifies enc
    ensures enc[0] == old(enc[0]) && enc[1..] == BeBytes(bits, 8)
  {
    var i := 0;
    while i < 8
      invariant 0 <= i <= 8 && enc[0] == old(enc[0])
      invariant forall k :: 1 <= k < 1 + i ==> enc[k] == BeBytes(bits, 8)[k - 1]
    {
      BeByte(bits, 8, 7 - i);
      enc[1 + i] := bits / Pow256(7 - i) % 256;
      i := i + 1;
    }
  }

  method FlipAll(enc: array<Byte>)
    requires enc.Length == 9
    modifies enc
    ensures enc[0] == old(enc[0]) && forall k :: 1 <= k < 9 ==> enc[k] == 255 - old(enc[k])
  {
    for i := 1 to 9
      invariant enc[0] == old(enc[0])
      invariant forall k :: 1 <= k < i ==> enc[k] == 255 - old(enc[k])
      invariant forall k :: i <= k < 9 ==> enc[k] == old(enc[k])
    {
      enc[i] := 255 - enc[i];
    }
  }

  /** The first byte of a word tells its top bit, and the word with that bit turned over. */
  lemma TopByte(bits: nat)
    requires bits < TWO_64
    ensures BeBytes(bits, 8)[0] >= 128 <==> bits >= TWO_63
    ensures bits < TWO_63 ==> BeBytes(bits + TWO_63, 8) == [BeBytes(bits, 8)[0] + 128] + BeBytes(bits, 8)[1..]
    ensures bits >= TWO_63 ==> BeBytes(bits - TWO_63, 8) == [BeBytes(bits, 8)[0] - 128] + BeBytes(bits, 8)[1..]
  {
    WordSizes();
    assert Pow256(8) == 256 * Pow256(7);
    if bits < TWO_63 {
      BeTopBit(bits, 8);
    } else {
      var low := bits - TWO_63;
      BeTopBit(low, 8);
      assert BeBytes(bits, 8)[0] == BeBytes(low, 8)[0] + 128 && BeBytes(bits, 8)[1..] == BeBytes(low, 8)[1..];
      assert BeBytes(low, 8) == [BeBytes(low, 8)[0]] + BeBytes(low, 8)[1..];
    }
  }

  /** Make the bits of a double, or the two's complement of a date, compare as unsigned bytes. */
  method ToTotalOrder(enc: array<Byte>, bits: nat, negatives: bool)
    requires enc.Length == 9 && bits < TWO_64 && enc[1..] == BeBytes(bits, 8)
    modifies enc
    ensures enc[0] == old(enc[0])
    ensures bits >= TWO_63 && negatives ==> enc[1..] == BeBytes(TWO_64 - 1 - bits, 8)
    ensures bits < TWO_63 ==> enc[1..] == BeBytes(bits + TWO_63, 8)
    ensures bits >= TWO_63 && !negatives ==> enc[1..] == BeBytes(bits - TWO_63, 8)
  {
    ghost var was := enc[1..];
    assert forall k :: 1 <= k < 9 ==> enc[k] == was[k - 1];
    TopByte(bits);
    if enc[1] >= 128 && negatives {
      WordSizes();
      BeFlipped(bits, 8);
      FlipAll(enc);
    } else {
      enc[1] := if enc[1] >= 128 then enc[1] - 128 else enc[1] + 128;
      assert enc[1..] == [enc[1]] + was[1..];
    }
  }

  method PutNumber(out: Bytes, bits0: nat) returns (r: Bytes)
    requires bits0 < TWO_64
    ensures r == out + ([TAG_NUMBER] + BeBytes(Ordinal(bits0), 8))
  {
    var bits := if bits0 == TWO_63 then 0 else bits0;
    var enc := new Byte[9](_ => TAG_NUMBER);
    WriteBe(enc, bits);
    ToTotalOrder(enc, bits, true);
    assert enc[..] == [enc[0]] + enc[1..];
    r := out + enc[..];
  }

  method PutDate(out: Bytes, millis: int) returns (r: Bytes)
    requires 0 - TWO_63 <= millis < TWO_63
    ensures r == out + ([TAG_DATE] + BeBytes(millis + TWO_63, 8))
  {
    var bits := if millis < 0 then millis + TWO_64 else millis;
    var enc := new Byte[9](_ => TAG_DATE);
    WriteBe(enc, bits);
    ToTotalOrder(enc, bits, false);
    assert enc[..] == [enc[0]] + enc[1..];
    r := out + enc[..];
  }

  method PutString(out: Bytes, s: Bytes) returns (e: Status, r: Bytes)
    ensures e == if (forall i :: 0 <= i < |s| ==> s[i] != 0) then Ok else State
    ensures r == if e == Ok then out + ([TAG_STRING] + s + [0]) else out
  {
    for i := 0 to |s|
      invariant forall k :: 0 <= k < i ==> s[k] != 0
    {
      if s[i] == 0 {
        return State, out;
      }
    }
    e, r := Ok, out + [TAG_STRING] + s + [0];
    assert r == out + ([TAG_STRING] + s + [0]);
  }

  /** Append the encoding of one field; NaN, strings with a zero byte and other types have none. */
  method PutValue(out: Bytes, v: Field) returns (e: Status, r: Bytes)
    requires InRange(v)
    ensures e == if Encodable(v) then Ok else State
    ensures r == if e == Ok then out + Encode(v) else out
  {
    e, r := State, out;
    match v
    case NumberField(bits) =>
      if !IsNaN(bits) {
        e := Ok;
        r := PutNumber(out, bits);
      }
    case DateField(m) =>
      e := Ok;
      r := PutDate(out, m);
    case StringField(s) =>
      e, r := PutString(out, s);
    case OtherField =>
  }

  // ---- order ----

  function Sign(x: int): int {
    if x < 0 then -1 else if x > 0 then 1 else 0
  }

  /** Fields of one type by value; different types by tag, numbers first, then strings, then dates. */
  function CompareFields(v: Field, w: Field): int
    requires Encodable(v) && Encodable(w)
  {
    match (v, w)
    case (NumberField(x), NumberField(y)) => Sign(ValueOfBits(x) - ValueOfBits(y))
    case (DateField(x), DateField(y)) => Sign(x - y)
    case (StringField(x), StringField(y)) => CompareBytes(x, y)
    case _ => Sign(Encode0(v) as int - Encode0(w) as int)
  }

  function Encode0(v: Field): Byte
    requires Encodable(v)
  {
    match v
    case NumberField(_) => TAG_NUMBER
    case DateField(_) => TAG_DATE
    case StringField(_) => TAG_STRING
  }

  lemma CompareHead(c: Byte, x: Bytes, y: Bytes)
    ensures CompareBytes([c] + x, [c] + y) == CompareBytes(x, y)
  {
    assert ([c] + x)[1..] == x && ([c] + y)[1..] == y;
  }

  /** Equally long words in front decide, unless they are equal. */
  lemma {:induction false} CompareAfter(a: Bytes, b: Bytes, x: Bytes, y: Bytes)
    requires |a| == |b|
    ensures CompareBytes(a + x, b + y) == if a == b then CompareBytes(x, y) else CompareBytes(a, b)
    ensures CompareBytes(a, b) == 0 <==> a == b
  {
    if a == [] {
      assert a + x == x && b + y == y;
    } else {
      assert (a + x)[1..] == a[1..] + x && (b + y)[1..] == b[1..] + y;
      assert a == [a[0]] + a[1..] && b == [b[0]] + b[1..];
      CompareAfter(a[1..], b[1..], x, y);
    }
  }

  /** Big-endian words compare like their values. */
  lemma {:induction false} CompareBe(v: nat, w: nat, n: nat)
    requires v < Pow256(n) && w < Pow256(n)
    ensures CompareBytes(BeBytes(v, n), BeBytes(w, n)) == Sign(v - w)
    ensures BeBytes(v, n) == BeBytes(w, n) <==> v == w
    decreases n
  {
    if n > 0 {
      CompareBe(v / 256, w / 256, n - 1);
      CompareAfter(BeBytes(v / 256, n - 1), BeBytes(w / 256, n - 1), [v % 256], [w % 256]);
      assert v == 256 * (v / 256) + v % 256 && w == 256 * (w / 256) + w % 256;
      if v == w {
      } else if v / 256 == w / 256 {
        assert BeBytes(v, n)[n - 1] != BeBytes(w, n)[n - 1];
      } else {
        assert BeBytes(v, n)[..n - 1] == BeBytes(v / 256, n - 1) && BeBytes(w, n)[..n - 1] == BeBytes(w / 256, n - 1);
      }
    }
  }

  lemma CompareWords(c: Byte, v: nat, w: nat, x: Bytes, y: Bytes)
    requires v < TWO_64 && w < TWO_64
    ensures CompareBytes([c] + BeBytes(v, 8) + x, [c] + BeBytes(w, 8) + y) == if v == w then CompareBytes(x, y)
            else Sign(v - w)
  {
    WordSizes();
    CompareBe(v, w, 8);
    CompareAfter([c] + BeBytes(v, 8), [c] + BeBytes(w, 8), x, y);
    CompareHead(c, BeBytes(v, 8), BeBytes(w, 8));
    if v != w {
      assert ([c] + BeBytes(v, 8))[1..] != ([c] + BeBytes(w, 8))[1..] by {
        assert ([c] + BeBytes(v, 8))[1..] == BeBytes(v, 8) && ([c] + BeBytes(w, 8))[1..] == BeBytes(w, 8);
      }
    }
  }

  /** Strings without zero bytes, closed by one. */
  lemma {:induction false} CompareStrings(s: Bytes, t: Bytes, x: Bytes, y: Bytes)
    requires (forall i :: 0 <= i < |s| ==> s[i] != 0) && (forall i :: 0 <= i < |t| ==> t[i] != 0)
    ensures CompareBytes(s + [0] + x, t + [0] + y) == if s == t then CompareBytes(x, y) else CompareBytes(s, t)
    ensures CompareBytes(s, t) == 0 <==> s == t
  {
    if s == [] && t == [] {
      assert s + [0] + x == [0] + x && t + [0] + y == [0] + y;
      CompareHead(0, x, y);
    } else if s != [] && t != [] {
      assert (s + [0] + x)[1..] == s[1..] + [0] + x && (t + [0] + y)[1..] == t[1..] + [0] + y;
      assert s == [s[0]] + s[1..] && t == [t[0]] + t[1..];
      CompareStrings(s[1..], t[1..], x, y);
    }
  }

  /** The unsigned order of the transformed bits is the numeric order; both zeros are one number. */
  lemma OrdinalOrder(x: nat, y: nat)
    requires x < TWO_64 && y < TWO_64
    ensures Sign(Ordinal(x) - Ordinal(y)) == Sign(ValueOfBits(x) - ValueOfBits(y))
  {
    var mx, my := x % TWO_63, y % TWO_63;
    assert x == mx || x == mx + TWO_63;
    assert y == my || y == my + TWO_63;
    if mx < my {
      MagnitudeMonotone(mx, my);
    } else if my < mx {
      MagnitudeMonotone(my, mx);
    }
    ZeroIsLeast(mx);
    ZeroIsLeast(my);
  }

  lemma ZeroIsLeast(m: nat)
    ensures Magnitude(m) >= 0 && (Magnitude(m) == 0 <==> m == 0)
  {
    if m > 0 {
      MagnitudeMonotone(0, m);
    }
  }

  lemma CompareStringFields(s: Bytes, t: Bytes, x: Bytes, y: Bytes)
    requires Encodable(StringField(s)) && Encodable(StringField(t))
    ensures CompareBytes([TAG_STRING] + s + [0] + x, [TAG_STRING] + t + [0] + y) == if s == t then CompareBytes(x, y)
            else CompareBytes(s, t)
    ensures [TAG_STRING] + s + [0] == [TAG_STRING] + t + [0] <==> s == t
    ensures CompareBytes(s, t) == 0 <==> s == t
  {
    CompareStrings(s, t, x, y);
    assert [TAG_STRING] + s + [0] + x == [TAG_STRING] + (s + [0] + x)
        && [TAG_STRING] + t + [0] + y == [TAG_STRING] + (t + [0] + y);
    CompareHead(TAG_STRING, s + [0] + x, t + [0] + y);
    Unwrap(TAG_STRING, s);
    Unwrap(TAG_STRING, t);
  }

  lemma Unwrap(c: Byte, s: Bytes)
    ensures ([c] + s + [0])[1..|s| + 1] == s && |[c] + s + [0]| == |s| + 2
  {
  }

  lemma CompareMixed(v: Field, w: Field, x: Bytes, y: Bytes)
    requires InRange(v) && Encodable(v) && InRange(w) && Encodable(w) && Encode0(v) != Encode0(w)
    ensures CompareBytes(Encode(v) + x, Encode(w) + y) == Sign(Encode0(v) as int - Encode0(w) as int)
    ensures Encode(v) != Encode(w)
  {
    FirstByte(v);
    FirstByte(w);
    FirstBytes(Encode(v), Encode(w), x, y);
  }

  lemma FirstByte(v: Field)
    requires InRange(v) && Encodable(v)
    ensures Encode(v) != [] && Encode(v)[0] == Encode0(v)
  {
  }

  lemma FirstBytes(a: Bytes, b: Bytes, x: Bytes, y: Bytes)
    requires a != [] && b != [] && a[0] != b[0]
    ensures CompareBytes(a + x, b + y) == Sign(a[0] as int - b[0] as int)
  {
  }

  /**
   * The encoding of one field in front of anything: it decides the comparison by the fields'
   * values, and leaves it to what follows exactly when they are equal.
   */
  lemma CompareOne(v: Field, w: Field, x: Bytes, y: Bytes)
    requires InRange(v) && Encodable(v) && InRange(w) && Encodable(w)
    ensures CompareBytes(Encode(v) + x, Encode(w) + y) == if CompareFields(v, w) == 0 then CompareBytes(x, y)
            else CompareFields(v, w)
    ensures Encode(v) == Encode(w) <==> CompareFields(v, w) == 0
  {
    match (v, w)
    case (NumberField(p), NumberField(q)) =>
      OrdinalOrder(p, q);
      CompareWords(TAG_NUMBER, Ordinal(p), Ordinal(q), x, y);
      SameWords(TAG_NUMBER, Ordinal(p), Ordinal(q));
    case (DateField(p), DateField(q)) =>
      CompareWords(TAG_DATE, p + TWO_63, q + TWO_63, x, y);
      SameWords(TAG_DATE, p + TWO_63, q + TWO_63);
    case (StringField(s), StringField(t)) =>
      CompareStringFields(s, t, x, y);
    case _ =>
      CompareMixed(v, w, x, y);
  }

  lemma SameWords(c: Byte, v: nat, w: nat)
    requires v < TWO_64 && w < TWO_64
    ensures [c] + BeBytes(v, 8) == [c] + BeBytes(w, 8) <==> v == w
  {
    WordSizes();
    CompareBe(v, w, 8);
    assert ([c] + BeBytes(v, 8))[1..] == BeBytes(v, 8) && ([c] + BeBytes(w, 8))[1..] == BeBytes(w, 8);
  }

  // ---- tuples ----

  predicate AllEncodable(vs: seq<Field>) {
    forall i :: 0 <= i < |vs| ==> InRange(vs[i]) && Encodable(vs[i])
  }

  function EncodeAll(vs: seq<Field>): Bytes
    requires AllEncodable(vs)
  {
    if vs == [] then [] else Encode(vs[0]) + EncodeAll(vs[1..])
  }

  /** Field by field, the first difference deciding. */
  function CompareTuples(vs: seq<Field>, ws: seq<Field>): int
    requires AllEncodable(vs) && AllEncodable(ws) && |vs| == |ws|
  {
    if vs == [] then 0
    else if CompareFields(vs[0], ws[0]) != 0 then CompareFields(vs[0], ws[0])
    else CompareTuples(vs[1..], ws[1..])
  }

  /**
   * Bytewise order of the concatenated encodings is tuple order, whatever follows; and equal
   * tuples have equal encodings and only they do, so no encoding is a proper prefix of another.
   */
  lemma {:induction false} TupleOrder(vs: seq<Field>, ws: seq<Field>, x: Bytes, y: Bytes)
    requires AllEncodable(vs) && AllEncodable(ws) && |vs| == |ws|
    ensures CompareBytes(EncodeAll(vs) + x, EncodeAll(ws) + y) == if CompareTuples(vs, ws) == 0 then CompareBytes(x, y)
            else CompareTuples(vs, ws)
    ensures CompareTuples(vs, ws) == 0 ==> EncodeAll(vs) == EncodeAll(ws)
  {
    if vs == [] {
      assert EncodeAll(vs) + x == x && EncodeAll(ws) + y == y;
    } else {
      var p, q := EncodeAll(vs[1..]), EncodeAll(ws[1..]);
      TupleOrder(vs[1..], ws[1..], x, y);
      CompareOne(vs[0], ws[0], p + x, q + y);
      Regroup(Encode(vs[0]), p, x);
      Regroup(Encode(ws[0]), q, y);
    }
  }

  lemma Regroup(a: Bytes, b: Bytes, c: Bytes)
    ensures (a + b) + c == a + (b + c)
  {
  }

  lemma {:induction false} CompareSelf(x: Bytes)
    ensures CompareBytes(x, x) == 0
  {
    if x != [] {
      CompareSelf(x[1..]);
    }
  }

  lemma {:induction false} FlipTuples(vs: seq<Field>, ws: seq<Field>)
    requires AllEncodable(vs) && AllEncodable(ws) && |vs| == |ws|
    ensures CompareTuples(ws, vs) == -CompareTuples(vs, ws)
  {
    if vs != [] {
      FlipFields(vs[0], ws[0]);
      FlipTuples(vs[1..], ws[1..]);
    }
  }

  lemma FlipFields(v: Field, w: Field)
    requires Encodable(v) && Encodable(w)
    ensures CompareFields(w, v) == -CompareFields(v, w)
  {
    if v.StringField? && w.StringField? {
      FlipBytes(v.s, w.s);
    }
  }

  lemma {:induction false} FlipBytes(a: Bytes, b: Bytes)
    ensures CompareBytes(b, a) == -CompareBytes(a, b)
  {
    if a != [] && b != [] {
      FlipBytes(a[1..], b[1..]);
    }
  }

  method PutId(out: Bytes, id: Bytes) returns (r: Bytes)
    requires |id| == 12
    ensures r == out + IdBytes(id)
  {
    r := out + [TAG_ID] + id;
    assert r == out + IdBytes(id);
  }

  function IdBytes(id: Bytes): Bytes {
    [TAG_ID] + id
  }

  /** The key of a document in an index: its field values, then its id. */
  function CompositeKey(vs: seq<Field>, id: Bytes): Bytes
    requires AllEncodable(vs)
  {
    EncodeAll(vs) + IdBytes(id)
  }

  /**
   * The range from a value prefix to the prefix closed by 0xff holds exactly the composite keys
   * with that value part.
   */
  lemma PrefixRange(vs: seq<Field>, ws: seq<Field>, id: Bytes)
    requires AllEncodable(vs) && AllEncodable(ws) && |vs| == |ws|
    ensures CompareBytes(EncodeAll(vs), CompositeKey(ws, id)) <= 0
            && CompareBytes(CompositeKey(ws, id), EncodeAll(vs) + [UPPER]) <= 0
       <==> EncodeAll(ws) == EncodeAll(vs)
  {
    TupleOrder(vs, ws, [], IdBytes(id));
    assert EncodeAll(vs) + [] == EncodeAll(vs);
    TupleOrder(ws, vs, IdBytes(id), [UPPER]);
    FlipTuples(vs, ws);
    if EncodeAll(ws) == EncodeAll(vs) {
      TupleOrder(vs, ws, [], []);
      CompareSelf(EncodeAll(vs));
      assert EncodeAll(ws) + [] == EncodeAll(ws);
    }
  }

  /** Composite keys are ordered by values, then by id; so two documents never share one. */
  lemma CompositeOrder(vs: seq<Field>, ws: seq<Field>, id: Bytes, jd: Bytes)
    requires AllEncodable(vs) && AllEncodable(ws) && |vs| == |ws| && |id| == |jd| == 12
    ensures CompareBytes(CompositeKey(vs, id), CompositeKey(ws, jd))
         == if CompareTuples(vs, ws) != 0 then CompareTuples(vs, ws) else CompareBytes(id, jd)
    ensures CompositeKey(vs, id) == CompositeKey(ws, jd) <==> CompareTuples(vs, ws) == 0 && id == jd
  {
    TupleOrder(vs, ws, IdBytes(id), IdBytes(jd));
    CompareHead(TAG_ID, id, jd);
    CompareAfter(id, jd, [], []);
    CompareSelf(CompositeKey(vs, id));
    if CompositeKey(vs, id) == CompositeKey(ws, jd) {
      assert CompareBytes(id, jd) == 0;
    }
  }
}
