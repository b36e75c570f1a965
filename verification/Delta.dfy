// Binary copy/insert deltas: creating one from a source to a target, and applying it.
module Delta {
  import opened RecordFile
  import opened Wire
  import opened ScanMachine

  const DELTA_K: nat := 16
  const MAX_SOURCE: nat := 0xffff_ffff
  const SIZE_LIMIT: nat := 0x8000_0000_0000_0000

  // ---- LEB128 ----

  function VarBytes(v: nat): (b: Bytes)
    ensures b != []
  {
    if v < 128 then [v] else [v % 128 + 128] + VarBytes(v / 128)
  }

  method PutVar(v: nat) returns (b: Bytes)
    ensures b == VarBytes(v)
  {
    b := [];
    var w := v;
    while w >= 128
      invariant VarBytes(v) == b + VarBytes(w)
    {
      b := b + [w % 128 + 128];
      w := w / 128;
    }
    b := b + [w];
  }

  function Pow128(k: nat): nat {
    if k == 0 then 1 else 128 * Pow128(k - 1)
  }

  /** A value and where the bytes after it start. */
  datatype Var = Var(value: nat, next: nat)

  /** Read on at `p`, `k` groups of seven bits having been read into `acc`; None when cut off or over 64 bits. */
  function VarFrom(b: Bytes, p: nat, k: nat, acc: nat): (r: Option<Var>)
    requires p <= |b|
    ensures r.Some? ==> p < r.value.next <= |b|
    decreases |b| - p
  {
    if p >= |b| then None
    else
      var v := acc + (b[p] % 128 * Pow128(k)) % TWO_64;
      if b[p] < 128 then Some(Var(v, p + 1))
      else if 7 * (k + 1) >= 64 then None
      else VarFrom(b, p + 1, k + 1, v)
  }

  method ReadVar(b: Bytes, p: nat) returns (r: Option<Var>)
    requires p <= |b|
    ensures r == VarFrom(b, p, 0, 0)
  {
    var v, shift, q, scale := 0, 0, p, 1;
    ghost var k := 0;
    while q < |b|
      invariant p <= q <= |b| && shift == 7 * k && scale == Pow128(k) && 0 <= v
      invariant VarFrom(b, p, 0, 0) == VarFrom(b, q, k, v)
    {
      var byte := b[q];
      v := v + (byte % 128 * scale) % TWO_64;
      q := q + 1;
      if byte < 128 {
        return Some(Var(v, q));
      }
      shift, scale, k := shift + 7, scale * 128, k + 1;
      if shift >= 64 {
        return None;
      }
    }
    r := None;
  }

  lemma {:induction false} Pow128Grows(i: nat, k: nat)
    requires i <= k
    ensures Pow128(i) <= Pow128(k)
  {
    if i < k {
      Pow128Grows(i, k - 1);
    }
  }

  lemma TenGroups()
    ensures TWO_64 < Pow128(10) && Pow128(5) > 0x4_0000_0000
  {
    assert Pow128(5) == 128 * (128 * (128 * (128 * (128 * Pow128(0)))));
    assert Pow128(10) == 128 * (128 * (128 * (128 * (128 * Pow128(5)))));
  }

  lemma MulGrows(w: nat, x: nat, s: nat)
    requires x <= w
    ensures x * s <= w * s
  {
  }

  lemma SplitGroup(w: nat, s: nat)
    ensures (w % 128) * s + (w / 128) * (128 * s) == w * s
  {
    assert w == 128 * (w / 128) + w % 128;
  }

  lemma OneGroup(w: nat, k: nat, acc: nat)
    requires acc + w * Pow128(k) < TWO_64
    ensures (w % 128 * Pow128(k)) % TWO_64 == w % 128 * Pow128(k)
    ensures acc + w % 128 * Pow128(k) + (w / 128) * Pow128(k + 1) == acc + w * Pow128(k)
    ensures w >= 128 ==> 7 * (k + 1) < 64
  {
    var s := Pow128(k);
    SplitGroup(w, s);
    MulGrows(w, w % 128, s);
    if w >= 128 && k + 1 >= 10 {
      MulGrows(w, 128, s);
      Pow128Grows(10, k + 1);
      TenGroups();
      assert false;
    }
  }

  /** The first group of seven bits read, and the others left. */
  lemma GroupRead(b: Bytes, p: nat, w: nat, k: nat, acc: nat)
    requires At(b, p, VarBytes(w)) && w >= 128
    requires (w % 128 * Pow128(k)) % TWO_64 == w % 128 * Pow128(k) && 7 * (k + 1) < 64
    ensures At(b, p + 1, VarBytes(w / 128)) && |VarBytes(w)| == 1 + |VarBytes(w / 128)|
    ensures VarFrom(b, p, k, acc) == VarFrom(b, p + 1, k + 1, acc + w % 128 * Pow128(k))
  {
    AtParts(b, p, [w % 128 + 128], VarBytes(w / 128));
    assert b[p] == b[p..p + 1][0] == w % 128 + 128;
  }

  /** A number below 2^64 reads back as itself, wherever it stands. */
  lemma {:induction false} VarRoundTrip(b: Bytes, p: nat, w: nat, k: nat, acc: nat)
    requires At(b, p, VarBytes(w)) && acc + w * Pow128(k) < TWO_64
    ensures VarFrom(b, p, k, acc) == Some(Var(acc + w * Pow128(k), p + |VarBytes(w)|))
    decreases w
  {
    OneGroup(w, k, acc);
    if w >= 128 {
      GroupRead(b, p, w, k, acc);
      VarRoundTrip(b, p + 1, w / 128, k + 1, acc + w % 128 * Pow128(k));
    } else {
      assert b[p] == b[p..p + 1][0] == w;
    }
  }

  lemma VarReads(b: Bytes, p: nat, w: nat)
    requires At(b, p, VarBytes(w)) && w < TWO_64
    ensures VarFrom(b, p, 0, 0) == Some(Var(w, p + |VarBytes(w)|))
  {
    VarRoundTrip(b, p, w, 0, 0);
  }

  lemma {:induction false} VarLength(w: nat, k: nat)
    requires 1 <= k && w < Pow128(k)
    ensures |VarBytes(w)| <= k
    decreases k
  {
    if w >= 128 {
      VarLength(w / 128, k - 1);
    }
  }

  /** What follows a number does not change how it is read. */
  lemma {:induction false} VarPrefix(b: Bytes, c: Bytes, p: nat, k: nat, acc: nat)
    requires p <= |b| && VarFrom(b, p, k, acc).Some?
    ensures VarFrom(b + c, p, k, acc) == VarFrom(b, p, k, acc)
    decreases |b| - p
  {
    assert (b + c)[p] == b[p];
    if b[p] >= 128 {
      VarPrefix(b, c, p + 1, k + 1, acc + (b[p] % 128 * Pow128(k)) % TWO_64);
    }
  }

  // ---- what a delta means ----

  /** The bytes one instruction yields, and where the next one starts. */
  datatype Instr = Instr(bytes: Bytes, next: nat)

  function InstrAt(src: Bytes, d: Bytes, p: nat): (r: Option<Instr>)
    requires p <= |d|
    ensures r.Some? ==> p < r.value.next <= |d|
  {
    match VarFrom(d, p, 0, 0)
    case None => None
    case Some(Var(ctrl, q)) =>
      var len := ctrl / 2;
      if ctrl % 2 == 0 then
        if |d| - q < len then None else Some(Instr(d[q..q + len], q + len))
      else
        match VarFrom(d, q, 0, 0)
        case None => None
        case Some(Var(off, q2)) =>
          if off > |src| || len > |src| - off then None else Some(Instr(src[off..off + len], q2))
  }

  /** The target that the instructions from `p` on build; None when one is malformed or does not fit the source. */
  function Target(src: Bytes, d: Bytes, p: nat): Option<Bytes>
    requires p <= |d|
    decreases |d| - p
  {
    if p >= |d| then Some([])
    else
      match InstrAt(src, d, p)
      case None => None
      case Some(Instr(x, q)) =>
        Prepend(x, Target(src, d, q))
  }

  function Prepend(x: Bytes, t: Option<Bytes>): Option<Bytes> {
    match t
    case None => None
    case Some(y) => Some(x + y)
  }

  /** Read one instruction; None when it is malformed or does not fit the source. */
  method ReadInstr(src: Bytes, d: Bytes, p: nat) returns (r: Option<Instr>)
    requires p <= |d|
    ensures r == InstrAt(src, d, p)
  {
    var c := ReadVar(d, p);
    if c == None {
      return None;
    }
    var q, len := c.value.next, c.value.value / 2;
    if c.value.value % 2 == 0 {
      return if |d| - q < len then None else Some(Instr(d[q..q + len], q + len));
    }
    var o := ReadVar(d, q);
    if o == None {
      return None;
    }
    var off := o.value.value;
    r := if off > |src| || len > |src| - off then None else Some(Instr(src[off..off + len], o.value.next));
  }

  method ApplyDelta(src: Bytes, d: Bytes) returns (r: Option<Bytes>)
    ensures r == Target(src, d, 0)
  {
    var out, p := [], 0;
    PrependNothing(Target(src, d, 0));
    while p < |d|
      invariant p <= |d|
      invariant Target(src, d, 0) == Prepend(out, Target(src, d, p))
      decreases |d| - p
    {
      var i := ReadInstr(src, d, p);
      if i == None {
        return None;
      }
      Regroup(out, i.value.bytes, Target(src, d, i.value.next));
      out := out + i.value.bytes;
      p := i.value.next;
    }
    assert out + [] == out;
    r := Some(out);
  }

  lemma PrependNothing(t: Option<Bytes>)
    ensures Prepend([], t) == t
  {
    if t.Some? {
      assert [] + t.value == t.value;
    }
  }

  lemma Regroup(a: Bytes, b: Bytes, c: Option<Bytes>)
    ensures Prepend(a, Prepend(b, c)) == Prepend(a + b, c)
  {
    if c.Some? {
      assert a + (b + c.value) == (a + b) + c.value;
    }
  }

  lemma InstrPrefix(src: Bytes, d: Bytes, e: Bytes, p: nat)
    requires p <= |d| && InstrAt(src, d, p).Some?
    ensures InstrAt(src, d + e, p) == InstrAt(src, d, p)
  {
    VarPrefix(d, e, p, 0, 0);
    var v := VarFrom(d, p, 0, 0).value;
    if v.value % 2 == 0 {
      assert (d + e)[v.next..v.next + v.value / 2] == d[v.next..v.next + v.value / 2];
    } else {
      VarPrefix(d, e, v.next, 0, 0);
    }
  }

  lemma TargetStep(src: Bytes, d: Bytes, p: nat)
    requires p < |d| && Target(src, d, p).Some?
    ensures InstrAt(src, d, p).Some?
    ensures var i := InstrAt(src, d, p).value; Target(src, d, p) == Prepend(i.bytes, Target(src, d, i.next))
  {
  }

  lemma TargetUnstep(src: Bytes, d: Bytes, p: nat, i: Instr, y: Bytes)
    requires p < |d| && InstrAt(src, d, p) == Some(i) && Target(src, d, i.next) == Some(y)
    ensures Target(src, d, p) == Some(i.bytes + y)
  {
  }

  /** One more instruction adds its bytes to the target. */
  lemma {:induction false} TargetSnoc(src: Bytes, d: Bytes, e: Bytes, p: nat, x: Bytes, y: Bytes)
    requires p <= |d| && Target(src, d, p) == Some(x) && Target(src, d + e, |d|) == Some(y)
    ensures Target(src, d + e, p) == Some(x + y)
    decreases |d| - p
  {
    if p == |d| {
      assert [] + y == y;
    } else {
      TargetStep(src, d, p);
      InstrPrefix(src, d, e, p);
      var i := InstrAt(src, d, p).value;
      var z := Target(src, d, i.next).value;
      TargetSnoc(src, d, e, i.next, z, y);
      TargetUnstep(src, d + e, p, i, z + y);
      assert i.bytes + (z + y) == (i.bytes + z) + y;
    }
  }

  // ---- short deltas ----

  /** A number of `n` groups is below 128^n. */
  lemma {:induction false} VarSmall(b: Bytes, p: nat, k: nat, acc: nat)
    requires p <= |b| && VarFrom(b, p, k, acc).Some? && acc < Pow128(k)
    ensures var r := VarFrom(b, p, k, acc).value; r.value < Pow128(k + (r.next - p))
    decreases |b| - p
  {
    var x := b[p] % 128 * Pow128(k);
    assert x % TWO_64 <= x;
    MulGrows(127, b[p] % 128, Pow128(k));
    assert acc + x % TWO_64 < Pow128(k + 1);
    if b[p] >= 128 {
      VarSmall(b, p + 1, k + 1, acc + x % TWO_64);
    }
  }

  /** An instruction in at most four bytes yields less than 128^4 bytes. */
  lemma ShortInstr(src: Bytes, d: Bytes, p: nat)
    requires p <= |d| <= p + 4 && InstrAt(src, d, p).Some?
    ensures |InstrAt(src, d, p).value.bytes| < Pow128(4)
  {
    VarSmall(d, p, 0, 0);
    var v := VarFrom(d, p, 0, 0).value;
    Pow128Grows(v.next - p, 4);
  }

  /** Four bytes of instructions cannot yield much, whatever the source. */
  lemma {:induction false} ShortTarget(src: Bytes, d: Bytes, p: nat)
    requires p <= |d| <= p + 4 && Target(src, d, p).Some?
    ensures |Target(src, d, p).value| <= (|d| - p) * Pow128(4)
    decreases |d| - p
  {
    if p < |d| {
      TargetStep(src, d, p);
      ShortInstr(src, d, p);
      var next := InstrAt(src, d, p).value.next;
      ShortTarget(src, d, next);
      MulGrows(|d| - p - 1, |d| - next, Pow128(4));
      assert (|d| - p - 1) * Pow128(4) + Pow128(4) == (|d| - p) * Pow128(4);
    }
  }

  // ---- creating a delta ----

  function InsertBytes(lit: Bytes): Bytes {
    VarBytes(2 * |lit|) + lit
  }

  function CopyBytes(off: nat, len: nat): Bytes {
    VarBytes(2 * len + 1) + VarBytes(off)
  }

  lemma InsertRead(src: Bytes, b: Bytes, p: nat, lit: Bytes)
    requires At(b, p, InsertBytes(lit)) && |lit| < SIZE_LIMIT
    ensures InstrAt(src, b, p) == Some(Instr(lit, p + |InsertBytes(lit)|))
  {
    AtParts(b, p, VarBytes(2 * |lit|), lit);
    VarReads(b, p, 2 * |lit|);
  }

  lemma CopyRead(src: Bytes, b: Bytes, p: nat, off: nat, len: nat)
    requires At(b, p, CopyBytes(off, len)) && off + len <= |src| < SIZE_LIMIT
    ensures InstrAt(src, b, p) == Some(Instr(src[off..off + len], p + |CopyBytes(off, len)|))
  {
    AtParts(b, p, VarBytes(2 * len + 1), VarBytes(off));
    VarReads(b, p, 2 * len + 1);
    VarReads(b, p + |VarBytes(2 * len + 1)|, off);
  }

  /** An instruction appended to a delta. */
  lemma Emitted(src: Bytes, d: Bytes, e: Bytes, x: Bytes, y: Bytes)
    requires Target(src, d, 0) == Some(x) && e != [] && InstrAt(src, d + e, |d|) == Some(Instr(y, |d + e|))
    ensures Target(src, d + e, 0) == Some(x + y)
  {
    TargetUnstep(src, d + e, |d|, Instr(y, |d + e|), []);
    assert y + [] == y;
    TargetSnoc(src, d, e, 0, x, y);
  }

  lemma AppendedAt(d: Bytes, e: Bytes)
    ensures At(d + e, |d|, e)
  {
  }

  method EmitInsert(src: Bytes, b0: Bytes, lit: Bytes, ghost x: Bytes) returns (b: Bytes)
    requires |lit| < SIZE_LIMIT && Target(src, b0, 0) == Some(x)
    ensures Target(src, b, 0) == Some(x + lit) && b == b0 + InsertBytes(lit)
  {
    var v := PutVar(2 * |lit|);
    b := b0 + v + lit;
    assert b == b0 + InsertBytes(lit);
    AppendedAt(b0, InsertBytes(lit));
    InsertRead(src, b, |b0|, lit);
    Emitted(src, b0, InsertBytes(lit), x, lit);
  }

  method EmitCopy(src: Bytes, b0: Bytes, off: nat, len: nat, ghost x: Bytes) returns (b: Bytes)
    requires off + len <= |src| < SIZE_LIMIT && Target(src, b0, 0) == Some(x)
    ensures Target(src, b, 0) == Some(x + src[off..off + len]) && b == b0 + CopyBytes(off, len)
  {
    var v := PutVar(2 * len + 1);
    var w := PutVar(off);
    b := b0 + v + w;
    assert b == b0 + CopyBytes(off, len);
    AppendedAt(b0, CopyBytes(off, len));
    CopyRead(src, b, |b0|, off, len);
    Emitted(src, b0, CopyBytes(off, len), x, src[off..off + len]);
  }

  /** Index of the source's 16-byte grams: the last start of each bucket, plus one; zero when empty. */
  method GramTable(src: Bytes, hash: Bytes -> nat) returns (table: array<nat>)
    requires DELTA_K <= |src|
    ensures fresh(table) && table.Length > 0
  {
    var cap := 16;
    while cap < 2 * |src|
      invariant cap >= 16
    {
      cap := 2 * cap;
    }
    table := new nat[cap](_ => 0);
    var i := 0;
    while i + DELTA_K <= |src|
      invariant i <= |src|
    {
      table[hash(src[i..i + DELTA_K]) % cap] := i + 1;
      i := i + 1;
    }
  }

  ghost predicate SameBytes(src: Bytes, tgt: Bytes, sp: nat, j: nat, n: nat) {
    sp + n <= |src| && j + n <= |tgt| && src[sp..sp + n] == tgt[j..j + n]
  }

  method GrowForward(src: Bytes, tgt: Bytes, sp: nat, j: nat, n: nat) returns (mlen: nat)
    requires SameBytes(src, tgt, sp, j, n)
    ensures n <= mlen && SameBytes(src, tgt, sp, j, mlen)
  {
    mlen := n;
    while sp + mlen < |src| && j + mlen < |tgt| && src[sp + mlen] == tgt[j + mlen]
      invariant n <= mlen && SameBytes(src, tgt, sp, j, mlen)
    {
      assert src[sp..sp + mlen + 1] == src[sp..sp + mlen] + [src[sp + mlen]];
      assert tgt[j..j + mlen + 1] == tgt[j..j + mlen] + [tgt[j + mlen]];
      mlen := mlen + 1;
    }
  }

  method GrowBackward(src: Bytes, tgt: Bytes, sp0: nat, j0: nat, n: nat, ins: nat) returns (sp: nat, j: nat, mlen: nat)
    requires SameBytes(src, tgt, sp0, j0, n) && ins <= j0
    ensures ins <= j <= j0 && n <= mlen && j + mlen == j0 + n && SameBytes(src, tgt, sp, j, mlen)
  {
    sp, j, mlen := sp0, j0, n;
    while sp > 0 && j > ins && src[sp - 1] == tgt[j - 1]
      invariant ins <= j <= j0 && n <= mlen && j + mlen == j0 + n && SameBytes(src, tgt, sp, j, mlen)
    {
      assert src[sp - 1..sp + mlen] == [src[sp - 1]] + src[sp..sp + mlen];
      assert tgt[j - 1..j + mlen] == [tgt[j - 1]] + tgt[j..j + mlen];
      sp, j, mlen := sp - 1, j - 1, mlen + 1;
    }
  }

  /** A match in the source stands for the bytes of the target that it matches. */
  lemma MatchCopied(src: Bytes, tgt: Bytes, sp: nat, j: nat, n: nat)
    requires SameBytes(src, tgt, sp, j, n)
    ensures tgt[..j] + src[sp..sp + n] == tgt[..j + n]
  {
    assert tgt[..j] + tgt[j..j + n] == tgt[..j + n];
  }

  lemma InsertLength(lit: Bytes)
    requires |lit| <= MAX_SOURCE
    ensures |InsertBytes(lit)| <= |lit| + 5
  {
    TenGroups();
    VarLength(2 * |lit|, 5);
  }

  lemma CopyLength(off: nat, len: nat)
    requires off <= MAX_SOURCE && len <= MAX_SOURCE
    ensures |CopyBytes(off, len)| <= 10
  {
    TenGroups();
    VarLength(2 * len + 1, 5);
    VarLength(off, 5);
  }

  /** Write the pending insert, if there is one. */
  method EmitPending(src: Bytes, tgt: Bytes, b0: Bytes, ins: nat, j: nat) returns (b: Bytes)
    requires |tgt| < SIZE_LIMIT && ins <= j <= |tgt| && Target(src, b0, 0) == Some(tgt[..ins])
    ensures Target(src, b, 0) == Some(tgt[..j])
    ensures |tgt| <= MAX_SOURCE && j > ins ==> |b| - |b0| <= j - ins + 5
    ensures j == ins ==> b == b0
  {
    b := b0;
    if j > ins {
      b := EmitInsert(src, b, tgt[ins..j], tgt[..ins]);
      assert tgt[..ins] + tgt[ins..j] == tgt[..j];
      if |tgt| <= MAX_SOURCE {
        InsertLength(tgt[ins..j]);
      }
    }
  }

  /** Write a pending insert, if there is one, and a copy. */
  method EmitMatch(src: Bytes, tgt: Bytes, b0: Bytes, ins: nat, j: nat, sp: nat, mlen: nat) returns (b: Bytes)
    requires |src| <= MAX_SOURCE && |tgt| < SIZE_LIMIT && ins <= j && DELTA_K <= mlen
    requires SameBytes(src, tgt, sp, j, mlen) && Target(src, b0, 0) == Some(tgt[..ins])
    ensures Target(src, b, 0) == Some(tgt[..j + mlen])
    ensures |tgt| <= MAX_SOURCE ==> |b| - |b0| <= j + mlen - ins
  {
    b := EmitPending(src, tgt, b0, ins, j);
    MatchCopied(src, tgt, sp, j, mlen);
    b := EmitCopy(src, b, sp, mlen, tgt[..j]);
    CopyLength(sp, mlen);
  }

  /** The bytes written so far build the target up to `ins`, and are no longer than that. */
  ghost predicate BuiltTo(src: Bytes, tgt: Bytes, d: Bytes, ins: nat) {
    ins <= |tgt| && Target(src, d, 0) == Some(tgt[..ins]) && (|tgt| <= MAX_SOURCE ==> |d| <= ins)
  }

  /** At position `j` of the target: a copy when the table knows a match, else one byte on. */
  method TryMatch(src: Bytes, tgt: Bytes, d0: Bytes, ins0: nat, j0: nat, pe: nat) returns (d: Bytes, ins: nat, j: nat)
    requires |src| <= MAX_SOURCE && |tgt| < SIZE_LIMIT && ins0 <= j0 && j0 + DELTA_K <= |tgt|
             && BuiltTo(src, tgt, d0, ins0)
    ensures ins <= j <= |tgt| && j0 < j && BuiltTo(src, tgt, d, ins)
  {
    var sp := if pe > 0 then pe - 1 else 0;
    if pe > 0 && sp + DELTA_K <= |src| && src[sp..sp + DELTA_K] == tgt[j0..j0 + DELTA_K] {
      var mlen := GrowForward(src, tgt, sp, j0, DELTA_K);
      sp, j, mlen := GrowBackward(src, tgt, sp, j0, mlen, ins0);
      d := EmitMatch(src, tgt, d0, ins0, j, sp, mlen);
      j := j + mlen;
      ins := j;
    } else {
      d, ins, j := d0, ins0, j0 + 1;
    }
  }

  /**
   * A delta as `CreateDelta` makes it: it rebuilds the text, is hardly longer, and is one insert if
   * no match is possible.
   */
  ghost predicate DeltaFor(prev: Bytes, text: Bytes, d: Bytes) {
    && Target(prev, d, 0) == Some(text) && (|text| <= MAX_SOURCE ==> |d| <= |text| + 5)
    && (|prev| < DELTA_K ==> d == if text == [] then [] else InsertBytes(text))
  }

  /**
   * A delta from `src` to `tgt`.  Applying it to `src` gives back `tgt`, and it is at most five
   * bytes longer than `tgt`.  From a source too short for a match it is one insert.
   */
  method CreateDelta(src: Bytes, tgt: Bytes, hash: Bytes -> nat) returns (d: Bytes)
    requires |src| < SIZE_LIMIT && |tgt| < SIZE_LIMIT
    ensures DeltaFor(src, tgt, d)
  {
    d := [];
    var j: nat, ins: nat := 0, 0;
    if DELTA_K <= |src| <= MAX_SOURCE {
      var table := GramTable(src, hash);
      while j + DELTA_K <= |tgt|
        invariant ins <= j <= |tgt| && BuiltTo(src, tgt, d, ins)
      {
        var pe := table[hash(tgt[j..j + DELTA_K]) % table.Length];
        d, ins, j := TryMatch(src, tgt, d, ins, j, pe);
      }
    }
    assert tgt[..|tgt|] == tgt;
    if |tgt| > ins {
      assert tgt[..ins] + tgt[ins..|tgt|] == tgt;
      d := EmitInsert(src, d, tgt[ins..|tgt|], tgt[..ins]);
      if |tgt| <= MAX_SOURCE {
        InsertLength(tgt[ins..|tgt|]);
      }
      assert tgt[ins..|tgt|] == tgt[ins..] && (ins == 0 ==> tgt[ins..] == tgt);
    }
  }
}
