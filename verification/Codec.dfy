// The value codec: the encoding of a value, a decoder over the bytes that are left, and the proof
// that decoding undoes encoding.
module Codec {
  import opened RecordFile
  import opened Wire

  const MAX_DEPTH: nat := 1000
  const MAX_SAFE: int := 9007199254740991
  const TWO_63: int := 0x8000_0000_0000_0000

  datatype Scalar =
    | Null
    | Bool(truthy: bool)
    | Int(v: int)
    | Float(bits: nat)
    | Text(s: Bytes)
    | Oid(id: Bytes)
    | Date(millis: int)
    | Pointer(off: nat)
    | Binary(s: Bytes)

  /** An element of an array (with no key) or an entry of an object. */
  datatype Member = Member(key: Bytes, value: Value)

  datatype Value =
    | Leaf(scalar: Scalar)
    | Container(isObject: bool, members: seq<Member>)

  datatype DecodeError = EndOfInput | UnknownType | IntRange | PointerRange | DepthExceeded

  // ---- encoding ----

  /** The low 64 bits of an integer, least significant byte first. */
  function Wr64(v: int): (b: Bytes)
    ensures |b| == 8
  {
    LeBytes(v % TWO_64, 8)
  }

  function Unsigned(d: Bytes, pos: nat): nat
    requires pos + 8 <= |d|
  {
    LeValue(d[pos..pos + 8])
  }

  function Signed(u: nat): int {
    if u >= TWO_63 then u - TWO_64 else u
  }

  function Prefixed(s: Bytes): Bytes {
    Wr32(|s|) + s
  }

  /** What the host can pass for a scalar. */
  predicate ScalarFits(s: Scalar) {
    match s
    case Int(v) => -TWO_63 <= v < TWO_63
    case Date(v) => -TWO_63 <= v < TWO_63
    case Float(bits) => bits < TWO_64
    case Pointer(off) => off < TWO_64
    case Text(s) => |s| < TWO_32
    case Binary(s) => |s| < TWO_32
    case Oid(id) => |id| == 12
    case _ => true
  }

  function EncodeScalar(s: Scalar): (b: Bytes)
    ensures b != []
  {
    match s
    case Null => [T_NULL]
    case Bool(t) => [if t then T_TRUE else T_FALSE]
    case Int(v) => [T_INT] + Wr64(v)
    case Float(bits) => [T_FLOAT] + Wr64(bits)
    case Text(s) => [T_STRING] + Prefixed(s)
    case Oid(id) => [T_OID] + id
    case Date(v) => [T_DATE] + Wr64(v)
    case Pointer(off) => [T_POINTER] + Wr64(off)
    case Binary(s) => [T_BINARY] + Prefixed(s)
  }

  function ContainerType(isObject: bool): Byte {
    if isObject then T_OBJECT else T_ARRAY
  }

  /** Scalars the host can pass, array elements without keys, containers whose content size fits 32 bits. */
  predicate Fits(v: Value)
    decreases v
  {
    match v
    case Leaf(s) => ScalarFits(s)
    case Container(o, ms) => MembersFit(o, ms) && 4 + |EncodeMembers(o, ms)| < TWO_32
  }

  predicate MembersFit(isObject: bool, ms: seq<Member>)
    decreases ms
  {
    ms == [] || (MemberFits(isObject, ms[0]) && MembersFit(isObject, ms[1..]))
  }

  predicate MemberFits(isObject: bool, m: Member)
    decreases m
  {
    Fits(m.value) && (if isObject then |m.key| < TWO_32 else m.key == [])
  }

  function Encode(v: Value): (b: Bytes)
    ensures b != []
    decreases v
  {
    match v
    case Leaf(s) => EncodeScalar(s)
    case Container(o, ms) => [ContainerType(o)] + Wr32(4 + |EncodeMembers(o, ms)|) + Wr32(|ms|) + EncodeMembers(o, ms)
  }

  function EncodeMembers(isObject: bool, ms: seq<Member>): (b: Bytes)
    ensures |b| >= |ms|
    decreases ms
  {
    if ms == [] then [] else EncodeMember(isObject, ms[0]) + EncodeMembers(isObject, ms[1..])
  }

  function EncodeMember(isObject: bool, m: Member): (b: Bytes)
    ensures b != []
    decreases m
  {
    KeyBytes(isObject, m.key) + Encode(m.value)
  }

  function KeyBytes(isObject: bool, key: Bytes): Bytes {
    if isObject then Prefixed(key) else []
  }

  /** Containers one inside the other. */
  function Depth(v: Value): nat {
    match v
    case Leaf(_) => 0
    case Container(_, ms) => 1 + MaxDepth(ms)
  }

  function MaxDepth(ms: seq<Member>): nat {
    if ms == [] then 0
    else
      var a, b := Depth(ms[0].value), MaxDepth(ms[1..]);
      if a > b then a else b
  }

  // ---- decoding ----

  datatype Parsed = Fail(e: DecodeError) | Got(v: Value, end: nat)
  datatype ParsedScalar = FailScalar(e: DecodeError) | GotScalar(s: Scalar, end: nat)
  datatype ParsedMembers = FailMembers(e: DecodeError) | GotMembers(ms: seq<Member>, end: nat)

  /** The payload of a scalar of type `t`. */
  function ParseScalar(t: Byte, d: Bytes, pos: nat): (p: ParsedScalar)
    requires pos <= |d|
    ensures p.GotScalar? ==> pos <= p.end <= |d|
  {
    var left := |d| - pos;
    if t == T_NULL then GotScalar(Null, pos)
    else if t == T_FALSE || t == T_TRUE then GotScalar(Bool(t == T_TRUE), pos)
    else if t == T_OID then
      if left < 12 then FailScalar(EndOfInput) else GotScalar(Oid(d[pos..pos + 12]), pos + 12)
    else if t == T_STRING || t == T_BINARY then
      if left < 4 || left - 4 < Rd32(d, pos) then FailScalar(EndOfInput)
      else
        var end := pos + 4 + Rd32(d, pos);
        GotScalar(if t == T_STRING then Text(d[pos + 4..end]) else Binary(d[pos + 4..end]), end)
    else if t == T_INT || t == T_FLOAT || t == T_DATE || t == T_POINTER then
      if left < 8 then FailScalar(EndOfInput) else ParseWord(t, Unsigned(d, pos), pos + 8)
    else FailScalar(UnknownType)
  }

  const TWO_52: nat := 0x10_0000_0000_0000
  const TWO_53: nat := 0x20_0000_0000_0000

  function TwoTo(k: nat): (p: nat)
    ensures p > 0
  {
    if k == 0 then 1 else 2 * TwoTo(k - 1)
  }

  /** A number as 53 leading bits, the weight of the last of them, and what is left over. */
  datatype Parts = Parts(q: nat, k: nat, r: nat)

  function Split(n: nat): (p: Parts)
    ensures p.q < TWO_53 && (p.k > 0 ==> p.q >= TWO_52)
    ensures p.r < TwoTo(p.k) && n == p.q * TwoTo(p.k) + p.r
  {
    if n < TWO_53 then Parts(n, 0, 0)
    else
      var p := Split(n / 2);
      assert p.q * (2 * TwoTo(p.k)) == 2 * (p.q * TwoTo(p.k));
      Parts(p.q, p.k + 1, 2 * p.r + n % 2)
  }

  /** The nearest double, the even one of two: how the decoder hands out the milliseconds of a date. */
  function ToDouble(v: int): int {
    var n := if v < 0 then -v else v;
    var p := Split(n);
    var u := TwoTo(p.k);
    var d := if 2 * p.r < u || (2 * p.r == u && p.q % 2 == 0) then p.q * u else (p.q + 1) * u;
    if v < 0 then -d else d
  }

  /** The magnitude has at most 53 significant bits. */
  ghost predicate IsDouble(v: int) {
    exists m: nat, k: nat :: m < TWO_53 && (v == Scaled(m, k) || v == -Scaled(m, k))
  }

  ghost function Scaled(m: nat, k: nat): int {
    m * TwoTo(k)
  }

  /** A date is handed out as it is exactly if it is a double. */
  lemma DoubleExactly(v: int)
    ensures ToDouble(v) == v <==> IsDouble(v)
  {
    var n := if v < 0 then -v else v;
    var p := Split(n);
    NoRestIsKept(p.q, p.r, TwoTo(p.k));
    if p.r == 0 {
      assert n == Scaled(p.q, p.k);
    } else if IsDouble(v) {
      var m: nat, k: nat :| m < TWO_53 && (v == Scaled(m, k) || v == -Scaled(m, k));
      ScaledSign(m, k);
      NoRest(n, m, k);
    }
  }

  lemma ScaledSign(m: nat, k: nat)
    ensures Scaled(m, k) >= 0
  {
  }

  /** Rounding keeps a number exactly if nothing is left over. */
  lemma NoRestIsKept(q: nat, r: nat, u: nat)
    requires r < u
    ensures (if 2 * r < u || (2 * r == u && q % 2 == 0) then q * u else (q + 1) * u) == q * u + r <==> r == 0
  {
    assert (q + 1) * u == q * u + u;
  }

  /** A number with few leading bits leaves no rest, whichever of the two last bits weighs more. */
  lemma NoRest(n: nat, m: nat, k: nat)
    requires m < TWO_53 && n == m * TwoTo(k)
    ensures Split(n).r == 0
  {
    var p := Split(n);
    if p.k <= k {
      WholeWeights(m, p.q, p.r, p.k, k);
    } else {
      HeavyWeight(p.q, m, k, p.k);
    }
  }

  lemma WholeWeights(m: nat, q: nat, r: nat, i: nat, k: nat)
    requires i <= k && r < TwoTo(i) && m * TwoTo(k) == q * TwoTo(i) + r
    ensures r == 0
  {
    TwoToAdds(i, k - i);
    MulSwap(m, TwoTo(i), TwoTo(k - i));
    Remainder(m * TwoTo(k - i), q, r, TwoTo(i));
  }

  lemma HeavyWeight(q: nat, m: nat, k: nat, i: nat)
    requires q >= TWO_52 && m < TWO_53 && k < i
    ensures m * TwoTo(k) < q * TwoTo(i)
  {
    TwoToAdds(k, i - k);
    assert TwoTo(i - k) == 2 * TwoTo(i - k - 1);
    TooLarge(q, m, TwoTo(i - k), TwoTo(k));
  }

  lemma MulSwap(a: nat, b: nat, c: nat)
    ensures a * (b * c) == (a * c) * b
  {
  }

  lemma {:induction false} MulLess(a: nat, b: nat, u: nat)
    requires a < b
    ensures a * u + u <= b * u
    decreases b
  {
    if a + 1 < b {
      MulLess(a, b - 1, u);
    }
    assert (b - 1) * u + u == b * u;
  }

  lemma TooLarge(q: nat, m: nat, c: nat, u: nat)
    requires q >= TWO_52 && m < TWO_53 && c >= 2 && u > 0
    ensures m * u < q * (u * c)
  {
    MulSwap(q, u, c);
    if c > 2 {
      MulLess(2, c, q);
    }
    assert q * c == c * q && q * c >= TWO_53;
    MulLess(m, q * c, u);
  }

  /** Quotient and remainder are determined. */
  lemma Remainder(a: nat, q: nat, r: nat, u: nat)
    requires r < u && a * u == q * u + r
    ensures r == 0
  {
    if a > q {
      MulLess(q, a, u);
    }
    if a < q {
      MulLess(a, q, u);
    }
  }

  lemma {:induction false} TwoToAdds(i: nat, j: nat)
    ensures TwoTo(i + j) == TwoTo(i) * TwoTo(j)
  {
    if i > 0 {
      TwoToAdds(i - 1, j);
    }
  }

  /** Eight bytes as a scalar; a number or pointer outside the safe range is an error. */
  function ParseWord(t: Byte, u: nat, end: nat): (p: ParsedScalar)
    ensures p.GotScalar? ==> p.end == end
  {
    if t == T_INT then (if -MAX_SAFE <= Signed(u) <= MAX_SAFE then GotScalar(Int(Signed(u)), end)
        else FailScalar(IntRange))
    else if t == T_FLOAT then GotScalar(Float(u), end)
    else if t == T_DATE then GotScalar(Date(ToDouble(Signed(u))), end)
    else if u <= MAX_SAFE then GotScalar(Pointer(u), end)
    else FailScalar(PointerRange)
  }

  /** The header after a container's type byte: content size within the buffer, then the count. */
  predicate HeaderFits(d: Bytes, pos: nat)
    requires pos <= |d|
  {
    && |d| - pos >= 4 && |d| - pos - 4 >= Rd32(d, pos) && |d| - pos - 4 >= 4
  }

  /** The value at `pos`. */
  function Parse(d: Bytes, pos: nat, depth: nat): (p: Parsed)
    requires pos <= |d|
    ensures p.Got? ==> pos < p.end <= |d|
    decreases |d| - pos, 0
  {
    if depth > MAX_DEPTH then Fail(DepthExceeded)
    else if pos == |d| then Fail(EndOfInput)
    else if d[pos] == T_ARRAY || d[pos] == T_OBJECT then
      if !HeaderFits(d, pos + 1) then Fail(EndOfInput)
      else ContainerOf(d[pos] == T_OBJECT, ParseMembers(d[pos] == T_OBJECT, Rd32(d, pos + 5), d, pos + 9, depth))
    else LeafOf(ParseScalar(d[pos], d, pos + 1))
  }

  function LeafOf(s: ParsedScalar): (p: Parsed)
    ensures p.Got? <==> s.GotScalar?
    ensures p.Got? ==> p.end == s.end
  {
    if s.FailScalar? then Fail(s.e) else Got(Leaf(s.s), s.end)
  }

  function ContainerOf(isObject: bool, m: ParsedMembers): (p: Parsed)
    ensures p.Got? <==> m.GotMembers?
    ensures p.Got? ==> p.end == m.end
  {
    if m.FailMembers? then Fail(m.e) else Got(Container(isObject, m.ms), m.end)
  }

  /** The next `count` members of a container. */
  function ParseMembers(isObject: bool, count: nat, d: Bytes, pos: nat, depth: nat): (p: ParsedMembers)
    requires pos <= |d|
    ensures p.GotMembers? ==> pos <= p.end <= |d| && |p.ms| == count
    decreases |d| - pos, 1, count
  {
    if count == 0 then GotMembers([], pos)
    else
      var k := KeyEnd(isObject, d, pos);
      if k.None? then FailMembers(EndOfInput)
      else
        var v := Parse(d, k.value, depth + 1);
        if v.Fail? then FailMembers(v.e)
        else Prepend(Member(KeyAt(isObject, d, pos, k.value), v.v), ParseMembers(isObject, count - 1, d, v.end, depth))
  }

  function Prepend(m: Member, more: ParsedMembers): (p: ParsedMembers)
    ensures p.GotMembers? <==> more.GotMembers?
    ensures p.GotMembers? ==> |p.ms| == 1 + |more.ms| && p.end == more.end
  {
    if more.FailMembers? then more else GotMembers([m] + more.ms, more.end)
  }

  /** Where the value of the next member starts, if its key is whole. */
  function KeyEnd(isObject: bool, d: Bytes, pos: nat): (k: Option<nat>)
    requires pos <= |d|
    ensures k.Some? ==> pos <= k.value <= |d| && (isObject ==> pos + 4 <= k.value)
  {
    if !isObject then Some(pos)
    else if |d| - pos < 4 || |d| - pos - 4 < Rd32(d, pos) then None
    else Some(pos + 4 + Rd32(d, pos))
  }

  function KeyAt(isObject: bool, d: Bytes, pos: nat, end: nat): Bytes
    requires end <= |d| && (isObject ==> pos + 4 <= end)
  {
    if isObject then d[pos + 4..end] else []
  }

  // ---- the round trip ----

  /** The decoder lets only numbers in the safe range through. */
  function ScalarError(s: Scalar): Option<DecodeError> {
    match s
    case Int(v) => if -MAX_SAFE <= v <= MAX_SAFE then None else Some(IntRange)
    case Pointer(off) => if off <= MAX_SAFE then None else Some(PointerRange)
    case _ => None
  }

  /** The error of the first number out of range. */
  function ValueError(v: Value): Option<DecodeError> {
    match v
    case Leaf(s) => ScalarError(s)
    case Container(_, ms) => MembersError(ms)
  }

  function MembersError(ms: seq<Member>): Option<DecodeError> {
    if ms == [] then None
    else
      var e := ValueError(ms[0].value);
      if e.Some? then e else MembersError(ms[1..])
  }

  /** What the decoder hands out: dates as doubles. */
  function DeliveredScalar(s: Scalar): Scalar {
    if s.Date? then Date(ToDouble(s.millis)) else s
  }

  function Delivered(v: Value): Value {
    match v
    case Leaf(s) => Leaf(DeliveredScalar(s))
    case Container(o, ms) => Container(o, DeliveredAll(ms))
  }

  function DeliveredAll(ms: seq<Member>): (r: seq<Member>)
    ensures |r| == |ms|
  {
    if ms == [] then [] else [Member(ms[0].key, Delivered(ms[0].value))] + DeliveredAll(ms[1..])
  }

  function ScalarOutcome(s: Scalar, end: nat): ParsedScalar {
    var e := ScalarError(s);
    if e.Some? then FailScalar(e.value) else GotScalar(DeliveredScalar(s), end)
  }

  function Outcome(v: Value, end: nat): Parsed {
    var e := ValueError(v);
    if e.Some? then Fail(e.value) else Got(Delivered(v), end)
  }

  function MembersOutcome(ms: seq<Member>, end: nat): ParsedMembers {
    var e := MembersError(ms);
    if e.Some? then FailMembers(e.value) else GotMembers(DeliveredAll(ms), end)
  }

  /** Every date in the value is a double. */
  ghost predicate DatesKept(v: Value) {
    match v
    case Leaf(s) => s.Date? ==> IsDouble(s.millis)
    case Container(_, ms) => AllDatesKept(ms)
  }

  ghost predicate AllDatesKept(ms: seq<Member>) {
    ms == [] || (DatesKept(ms[0].value) && AllDatesKept(ms[1..]))
  }

  /** A value is handed out as it is exactly if its dates are doubles. */
  lemma {:induction false} DeliveredExactly(v: Value)
    ensures Delivered(v) == v <==> DatesKept(v)
    decreases v, 0
  {
    match v
    case Leaf(s) =>
      if s.Date? {
        DoubleExactly(s.millis);
      }
    case Container(_, ms) => MembersExactly(ms);
  }

  lemma {:induction false} MembersExactly(ms: seq<Member>)
    ensures DeliveredAll(ms) == ms <==> AllDatesKept(ms)
    decreases ms, 1
  {
    if ms != [] {
      DeliveredExactly(ms[0].value);
      MembersExactly(ms[1..]);
      var m := Member(ms[0].key, Delivered(ms[0].value));
      assert ([m] + DeliveredAll(ms[1..]))[1..] == DeliveredAll(ms[1..]);
      assert ms == [ms[0]] + ms[1..];
      assert ms[0] == Member(ms[0].key, ms[0].value);
    }
  }

  /** The bytes `b` stand at `pos`. */
  ghost predicate At(d: Bytes, pos: nat, b: Bytes) {
    pos + |b| <= |d| && d[pos..pos + |b|] == b
  }

  lemma AtParts(d: Bytes, pos: nat, a: Bytes, b: Bytes)
    requires At(d, pos, a + b)
    ensures At(d, pos, a) && At(d, pos + |a|, b)
  {
    var w := d[pos..pos + |a + b|];
    assert w[..|a|] == a && w[|a|..] == b;
  }

  lemma AtByte(d: Bytes, pos: nat, t: Byte, b: Bytes)
    requires At(d, pos, [t] + b)
    ensures pos < |d| && d[pos] == t && At(d, pos + 1, b)
  {
    AtParts(d, pos, [t], b);
    assert d[pos..pos + 1][0] == t;
  }

  lemma AtWord(d: Bytes, pos: nat, v: nat)
    requires At(d, pos, Wr32(v)) && v < TWO_32
    ensures pos + 4 <= |d| && Rd32(d, pos) == v
  {
    Rd32Wr32(v);
    assert Wr32(v)[0..4] == Wr32(v);
  }

  lemma AtLong(d: Bytes, pos: nat, v: int)
    requires At(d, pos, Wr64(v)) && -TWO_63 <= v < TWO_64
    ensures pos + 8 <= |d| && Unsigned(d, pos) == if v < 0 then v + TWO_64 else v
    ensures v < TWO_63 ==> Signed(Unsigned(d, pos)) == v
  {
    WordSizes();
    LeRoundTrip(v % TWO_64, 8);
  }

  lemma AtPrefixed(d: Bytes, pos: nat, s: Bytes)
    requires At(d, pos, Prefixed(s)) && |s| < TWO_32
    ensures pos + 4 + |s| <= |d| && Rd32(d, pos) == |s| && d[pos + 4..pos + 4 + |s|] == s
  {
    AtParts(d, pos, Wr32(|s|), s);
    AtWord(d, pos, |s|);
  }

  lemma WordBack(s: Scalar, t: Byte, v: int, d: Bytes, pos: nat)
    requires ScalarFits(s) && -TWO_63 <= v < TWO_64 && At(d, pos, [t] + Wr64(v))
    requires match s
             case Int(w) => t == T_INT && v == w
             case Float(bits) => t == T_FLOAT && v == bits
             case Date(w) => t == T_DATE && v == w
             case Pointer(off) => t == T_POINTER && v == off
             case _ => false
    ensures pos < |d| && d[pos] == t && ParseScalar(t, d, pos + 1) == ScalarOutcome(s, pos + 9)
  {
    AtByte(d, pos, t, Wr64(v));
    AtLong(d, pos + 1, v);
  }

  lemma RunBack(t: Byte, b: Bytes, d: Bytes, pos: nat)
    requires (t == T_STRING || t == T_BINARY) && |b| < TWO_32 && At(d, pos, [t] + Prefixed(b))
    ensures pos < |d| && d[pos] == t
    ensures ParseScalar(t, d, pos + 1) == GotScalar(if t == T_STRING then Text(b) else Binary(b), pos + 5 + |b|)
  {
    AtByte(d, pos, t, Prefixed(b));
    AtPrefixed(d, pos + 1, b);
  }

  lemma ScalarBack(s: Scalar, d: Bytes, pos: nat)
    requires ScalarFits(s) && At(d, pos, EncodeScalar(s))
    ensures pos < |d| && d[pos] != T_ARRAY && d[pos] != T_OBJECT
    ensures ParseScalar(d[pos], d, pos + 1) == ScalarOutcome(s, pos + |EncodeScalar(s)|)
  {
    match s
    case Null => AtByte(d, pos, T_NULL, []);
    case Bool(t) => AtByte(d, pos, if t then T_TRUE else T_FALSE, []);
    case Int(v) => WordBack(s, T_INT, v, d, pos);
    case Float(bits) => WordBack(s, T_FLOAT, bits, d, pos);
    case Date(v) => WordBack(s, T_DATE, v, d, pos);
    case Pointer(off) => WordBack(s, T_POINTER, off, d, pos);
    case Oid(id) => AtByte(d, pos, T_OID, id);
    case Text(b) => RunBack(T_STRING, b, d, pos);
    case Binary(b) => RunBack(T_BINARY, b, d, pos);
  }

  lemma HeaderBack(o: bool, count: nat, content: Bytes, d: Bytes, pos: nat)
    requires 4 + |content| < TWO_32 && count < TWO_32
    requires At(d, pos, [ContainerType(o)] + Wr32(4 + |content|) + Wr32(count) + content)
    ensures pos < |d| && d[pos] == ContainerType(o) && HeaderFits(d, pos + 1)
    ensures Rd32(d, pos + 1) == 4 + |content| && Rd32(d, pos + 5) == count && At(d, pos + 9, content)
  {
    var t, size, n := [ContainerType(o)], Wr32(4 + |content|), Wr32(count);
    AtParts(d, pos, t + size + n, content);
    AtParts(d, pos, t + size, n);
    AtByte(d, pos, t[0], size);
    AtWord(d, pos + 1, 4 + |content|);
    AtWord(d, pos + 5, count);
  }

  lemma ParseContainer(o: bool, count: nat, content: Bytes, d: Bytes, pos: nat, depth: nat)
    requires 4 + |content| < TWO_32 && count < TWO_32 && depth <= MAX_DEPTH
    requires At(d, pos, [ContainerType(o)] + Wr32(4 + |content|) + Wr32(count) + content)
    ensures At(d, pos + 9, content) && Parse(d, pos, depth) == ContainerOf(o, ParseMembers(o, count, d, pos + 9, depth))
  {
    HeaderBack(o, count, content, d, pos);
  }

  /**
   * Decoding an encoded value, wherever it stands, gives the value and stops at its end; unless a
   * number in it is out of the safe range, which is then the error.  The value is the encoded one
   * exactly if all its integers and pointers are in the safe range and all its dates are doubles.
   */
  lemma ParseEncode(v: Value, d: Bytes, pos: nat, depth: nat)
    requires Fits(v) && depth + Depth(v) <= MAX_DEPTH && At(d, pos, Encode(v))
    ensures Parse(d, pos, depth) == Outcome(v, pos + |Encode(v)|)
    ensures Parse(d, pos, depth) == Got(v, pos + |Encode(v)|) <==> ValueError(v) == None && DatesKept(v)
  {
    ValueBack(v, Encode(v), d, pos, depth, Parse(d, pos, depth));
    DeliveredExactly(v);
  }

  /** The first date that does not come back. */
  lemma DateLost()
    ensures ToDouble(TWO_53 + 1) == TWO_53 && !IsDouble(TWO_53 + 1)
  {
    assert Split(TWO_52) == Parts(TWO_52, 0, 0) && Split(TWO_53 + 1) == Parts(TWO_52, 1, 1);
    assert TwoTo(1) == 2 * TwoTo(0);
    DoubleExactly(TWO_53 + 1);
  }

  lemma {:induction false} ValueBack(v: Value, enc: Bytes, d: Bytes, pos: nat, depth: nat, r: Parsed)
    requires Fits(v) && depth + Depth(v) <= MAX_DEPTH
    requires enc == Encode(v) && At(d, pos, enc) && r == Parse(d, pos, depth)
    ensures r == Outcome(v, pos + |enc|)
    decreases |enc|, 0
  {
    match v
    case Leaf(s) => ScalarBack(s, d, pos);
    case Container(o, ms) => ContainerBack(o, ms, EncodeMembers(o, ms), d, pos, depth);
  }

  lemma {:induction false} ContainerBack(o: bool, ms: seq<Member>, content: Bytes, d: Bytes, pos: nat, depth: nat)
    requires content == EncodeMembers(o, ms) && 4 + |content| < TWO_32
    requires MembersFit(o, ms) && depth + 1 + MaxDepth(ms) <= MAX_DEPTH
    requires At(d, pos, [ContainerType(o)] + Wr32(4 + |content|) + Wr32(|ms|) + content)
    ensures Parse(d, pos, depth) == Outcome(Container(o, ms), pos + 9 + |content|)
    decreases |content|, 3
  {
    ParseContainer(o, |ms|, content, d, pos, depth);
    MembersBack(o, ms, |ms|, content, d, pos + 9, depth, ParseMembers(o, |ms|, d, pos + 9, depth));
  }

  lemma {:induction false} MembersBack(o: bool, ms: seq<Member>, count: nat, enc: Bytes, d: Bytes, pos: nat, depth: nat,
                                       r: ParsedMembers)
    requires MembersFit(o, ms) && depth + 1 + MaxDepth(ms) <= MAX_DEPTH
    requires enc == EncodeMembers(o, ms) && At(d, pos, enc)
    requires count == |ms| && r == ParseMembers(o, count, d, pos, depth)
    ensures r == MembersOutcome(ms, pos + |enc|)
    decreases |enc|, 2
  {
    if ms == [] {
      NoMembers(o, d, pos, depth, r);
    } else {
      var next, tail, q := FirstBack(o, ms, count, enc, d, pos, depth, r);
      MembersBack(o, ms[1..], count - 1, tail, d, next, depth, q);
      PrependOutcome(ms, next + |tail|);
    }
  }

  /** The first member in front of what parsing the others gives; or its error. */
  function FirstThen(m: Member, more: ParsedMembers): ParsedMembers {
    var e := ValueError(m.value);
    if e.Some? then FailMembers(e.value) else Prepend(Member(m.key, Delivered(m.value)), more)
  }

  lemma PrependOutcome(ms: seq<Member>, end: nat)
    requires ms != []
    ensures FirstThen(ms[0], MembersOutcome(ms[1..], end)) == MembersOutcome(ms, end)
  {
  }

  /** The first member is read back, and parsing goes on behind it. */
  lemma {:induction false} FirstBack(o: bool, ms: seq<Member>, count: nat, enc: Bytes, d: Bytes, pos: nat, depth: nat,
                                     r: ParsedMembers)
    returns (next: nat, tail: Bytes, q: ParsedMembers)
    requires ms != [] && MembersFit(o, ms) && depth + 1 + MaxDepth(ms) <= MAX_DEPTH
    requires enc == EncodeMembers(o, ms) && At(d, pos, enc)
    requires count == |ms| && r == ParseMembers(o, count, d, pos, depth)
    ensures MembersFit(o, ms[1..]) && MaxDepth(ms[1..]) <= MaxDepth(ms)
    ensures tail == EncodeMembers(o, ms[1..]) && |tail| < |enc| && At(d, next, tail) && pos + |enc| == next + |tail|
    ensures q == ParseMembers(o, count - 1, d, next, depth) && r == FirstThen(ms[0], q)
    decreases |enc|, 1
  {
    var at, v;
    at, v, tail := MemberHead(o, ms, enc, d, pos);
    next := at + |v|;
    q := ParseMembers(o, count - 1, d, next, depth);
    var p := Parse(d, at, depth + 1);
    ValueBack(ms[0].value, v, d, at, depth + 1, p);
    FirstParsed(o, ms[0], count, d, pos, depth, at, next, p, q);
  }

  lemma FirstParsed(o: bool, m: Member, count: nat, d: Bytes, pos: nat, depth: nat, at: nat, end: nat, p: Parsed,
                    q: ParsedMembers)
    requires pos <= |d| && count > 0 && KeyEnd(o, d, pos) == Some(at) && m.key == KeyAt(o, d, pos, at)
    requires p == Parse(d, at, depth + 1) == Outcome(m.value, end)
    requires end <= |d| && q == ParseMembers(o, count - 1, d, end, depth)
    ensures ParseMembers(o, count, d, pos, depth) == FirstThen(m, q)
  {
    ParseOne(o, count, d, pos, depth, at, m.key, p, q);
  }

  lemma NoMembers(o: bool, d: Bytes, pos: nat, depth: nat, r: ParsedMembers)
    requires pos <= |d| && r == ParseMembers(o, 0, d, pos, depth)
    ensures r == MembersOutcome([], pos)
  {
  }

  /** Where the first member's value and the rest of the members stand. */
  lemma MemberHead(o: bool, ms: seq<Member>, enc: Bytes, d: Bytes, pos: nat) returns (at: nat, v: Bytes, tail: Bytes)
    requires ms != [] && MembersFit(o, ms) && enc == EncodeMembers(o, ms) && At(d, pos, enc)
    ensures Fits(ms[0].value) && MembersFit(o, ms[1..])
    ensures Depth(ms[0].value) <= MaxDepth(ms) && MaxDepth(ms[1..]) <= MaxDepth(ms)
    ensures v == Encode(ms[0].value) && tail == EncodeMembers(o, ms[1..])
    ensures At(d, at, v) && At(d, at + |v|, tail) && pos + |enc| == at + |v| + |tail|
    ensures KeyEnd(o, d, pos) == Some(at) && KeyAt(o, d, pos, at) == ms[0].key
  {
    v, tail := Encode(ms[0].value), EncodeMembers(o, ms[1..]);
    FirstFits(o, ms);
    MembersBytes(o, ms);
    at := HeadAt(o, ms[0].key, v, tail, enc, d, pos);
  }

  lemma HeadAt(o: bool, key: Bytes, v: Bytes, tail: Bytes, enc: Bytes, d: Bytes, pos: nat) returns (at: nat)
    requires (if o then |key| < TWO_32 else key == []) && enc == KeyBytes(o, key) + v + tail && At(d, pos, enc)
    ensures At(d, at, v) && At(d, at + |v|, tail) && pos + |enc| == at + |v| + |tail|
    ensures KeyEnd(o, d, pos) == Some(at) && KeyAt(o, d, pos, at) == key
  {
    var k := KeyBytes(o, key);
    AtThree(d, pos, k, v, tail);
    KeyBack(o, key, d, pos);
    at := pos + |k|;
  }

  lemma FirstFits(o: bool, ms: seq<Member>)
    requires ms != [] && MembersFit(o, ms)
    ensures MemberFits(o, ms[0]) && Fits(ms[0].value) && MembersFit(o, ms[1..])
    ensures Depth(ms[0].value) <= MaxDepth(ms) && MaxDepth(ms[1..]) <= MaxDepth(ms)
  {
  }

  lemma MembersBytes(o: bool, ms: seq<Member>)
    requires ms != []
    ensures EncodeMembers(o, ms) == KeyBytes(o, ms[0].key) + Encode(ms[0].value) + EncodeMembers(o, ms[1..])
  {
  }

  lemma AtThree(d: Bytes, pos: nat, a: Bytes, b: Bytes, c: Bytes)
    requires At(d, pos, a + b + c)
    ensures At(d, pos, a) && At(d, pos + |a|, b) && At(d, pos + |a| + |b|, c)
  {
    AtParts(d, pos, a + b, c);
    AtParts(d, pos, a, b);
  }

  /** Members are parsed one after the other. */
  lemma ParseOne(o: bool, count: nat, d: Bytes, pos: nat, depth: nat, at: nat, key: Bytes, p: Parsed, q: ParsedMembers)
    requires pos <= |d| && count > 0 && KeyEnd(o, d, pos) == Some(at) && key == KeyAt(o, d, pos, at)
    requires p == Parse(d, at, depth + 1)
    requires p.Got? ==> q == ParseMembers(o, count - 1, d, p.end, depth)
    ensures ParseMembers(o, count, d, pos, depth) == if p.Fail? then FailMembers(p.e) else Prepend(Member(key, p.v), q)
  {
  }

  lemma KeyBack(o: bool, key: Bytes, d: Bytes, pos: nat)
    requires if o then |key| < TWO_32 else key == []
    requires At(d, pos, KeyBytes(o, key))
    ensures KeyEnd(o, d, pos) == Some(pos + |KeyBytes(o, key)|) && KeyAt(o, d, pos, pos + |KeyBytes(o, key)|) == key
  {
    if o {
      AtPrefixed(d, pos, key);
    }
  }

  lemma RunSize(t: Byte, b: Bytes, d: Bytes, pos: nat)
    requires (t == T_STRING || t == T_BINARY) && |b| < TWO_32 && At(d, pos, [t] + Prefixed(b))
    ensures ValueSize(d, pos) == Some(5 + |b|)
  {
    AtByte(d, pos, t, Prefixed(b));
    AtPrefixed(d, pos + 1, b);
  }

  lemma ScalarSize(s: Scalar, d: Bytes, pos: nat)
    requires ScalarFits(s) && At(d, pos, EncodeScalar(s))
    ensures ValueSize(d, pos) == Some(|EncodeScalar(s)|)
  {
    if s.Text? || s.Binary? {
      RunSize(EncodeScalar(s)[0], s.s, d, pos);
    } else {
      var enc := EncodeScalar(s);
      assert enc == [enc[0]] + enc[1..];
      AtByte(d, pos, enc[0], enc[1..]);
    }
  }

  /** An encoded value says its own length, wherever it stands. */
  lemma SizeOfEncoded(v: Value, d: Bytes, pos: nat)
    requires Fits(v) && At(d, pos, Encode(v))
    ensures ValueSize(d, pos) == Some(|Encode(v)|)
  {
    match v
    case Leaf(s) => ScalarSize(s, d, pos);
    case Container(o, ms) => HeaderBack(o, |ms|, EncodeMembers(o, ms), d, pos);
  }
}
