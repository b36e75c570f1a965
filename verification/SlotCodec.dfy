// The journal's bytes: two fixed-size slots, written in turn, each a list of file lengths under a checksum.
module SlotCodec {
  import opened RecordFile
  import opened Wire
  import opened ScanMachine

  const SLOT_MAGIC: Bytes := [68, 67, 84, 74]
  const SLOT_VERSION: nat := 1

  /** One recorded transaction: its number, and the length of every file after it. */
  datatype Slot = Slot(txn: nat, lens: seq<nat>)

  function SlotSize(n: nat): nat {
    24 + 8 * n
  }

  function Wr64(v: nat): (b: Bytes)
    ensures |b| == 8
  {
    LeBytes(v, 8)
  }

  function Rd64(b: Bytes, pos: nat): nat
    requires pos + 8 <= |b|
  {
    LeValue(b[pos..pos + 8])
  }

  function Words(vs: seq<nat>): (b: Bytes)
    ensures |b| == 8 * |vs|
  {
    if vs == [] then [] else Wr64(vs[0]) + Words(vs[1..])
  }

  function Payload(sl: Slot): (b: Bytes)
    ensures |b| == 20 + 8 * |sl.lens|
  {
    SLOT_MAGIC + (Wr32(SLOT_VERSION) + (Wr64(sl.txn) + (Wr32(|sl.lens|) + Words(sl.lens))))
  }

  function Encode(fm: Format, sl: Slot): (b: Bytes)
    ensures |b| == SlotSize(|sl.lens|)
  {
    Payload(sl) + Wr32(fm.Crc(Payload(sl)))
  }

  /** A slot for `n` files: magic, version, file count and checksum must all be right. */
  function Decode(fm: Format, s: Bytes, n: nat): (r: Option<Slot>)
    requires |s| == SlotSize(n)
  {
    if s[..4] != SLOT_MAGIC || Rd32(s, 4) != SLOT_VERSION || Rd32(s, 16) != n then None
    else if Rd32(s, 20 + 8 * n) != fm.Crc(s[..20 + 8 * n]) then None
    else Some(Slot(Rd64(s, 8), LensOf(s, n)))
  }

  function LensOf(s: Bytes, n: nat): (r: seq<nat>)
    requires |s| == SlotSize(n)
    ensures |r| == n && forall i :: 0 <= i < n ==> r[i] == Rd64(s, 20 + 8 * i)
  {
    seq(n, i requires 0 <= i < n => Rd64(s, 20 + 8 * i))
  }

  method EncodeSlot(fm: Format, sl: Slot) returns (b: Bytes)
    ensures b == Encode(fm, sl)
  {
    b := SLOT_MAGIC + (Wr32(SLOT_VERSION) + (Wr64(sl.txn) + Wr32(|sl.lens|)));
    ghost var head := b;
    var i := 0;
    while i < |sl.lens|
      invariant i <= |sl.lens|
      invariant b == head + Words(sl.lens[..i])
    {
      WordsSnoc(sl.lens[..i], sl.lens[i]);
      assert sl.lens[..i + 1] == sl.lens[..i] + [sl.lens[i]];
      b := b + Wr64(sl.lens[i]);
      i := i + 1;
    }
    assert sl.lens[..i] == sl.lens;
    assert b == Payload(sl);
    b := b + Wr32(fm.Crc(b));
  }

  lemma {:induction false} WordsSnoc(vs: seq<nat>, v: nat)
    ensures Words(vs + [v]) == Words(vs) + Wr64(v)
  {
    if vs == [] {
      assert [] + [v] == [v] && [v][1..] == [];
    } else {
      assert (vs + [v])[1..] == vs[1..] + [v];
      WordsSnoc(vs[1..], v);
    }
  }

  // ---- round trip ----

  lemma Reads32(b: Bytes, pos: nat, v: nat)
    requires At(b, pos, Wr32(v)) && v < TWO_32
    ensures Rd32(b, pos) == v
  {
    WordSizes();
    LeRoundTrip(v, 4);
  }

  lemma Reads64(b: Bytes, pos: nat, v: nat)
    requires At(b, pos, Wr64(v)) && v < TWO_64
    ensures Rd64(b, pos) == v
  {
    WordSizes();
    LeRoundTrip(v, 8);
  }

  lemma {:induction false} ReadsWords(b: Bytes, pos: nat, vs: seq<nat>, i: nat)
    requires At(b, pos, Words(vs)) && i < |vs| && vs[i] < TWO_64
    ensures pos + 8 * i + 8 <= |b| && Rd64(b, pos + 8 * i) == vs[i]
    decreases i
  {
    AtParts(b, pos, Wr64(vs[0]), Words(vs[1..]));
    if i == 0 {
      Reads64(b, pos, vs[0]);
    } else {
      ReadsWords(b, pos + 8, vs[1..], i - 1);
    }
  }

  ghost predicate Encodable(sl: Slot) {
    sl.txn < TWO_64 && |sl.lens| < TWO_32 && forall i :: 0 <= i < |sl.lens| ==> sl.lens[i] < TWO_64
  }

  lemma PayloadParts(s: Bytes, sl: Slot)
    requires At(s, 0, Payload(sl))
    ensures At(s, 0, SLOT_MAGIC) && At(s, 4, Wr32(SLOT_VERSION)) && At(s, 8, Wr64(sl.txn))
    ensures At(s, 16, Wr32(|sl.lens|)) && At(s, 20, Words(sl.lens))
  {
    AtParts(s, 0, SLOT_MAGIC, Wr32(SLOT_VERSION) + (Wr64(sl.txn) + (Wr32(|sl.lens|) + Words(sl.lens))));
    AtParts(s, 4, Wr32(SLOT_VERSION), Wr64(sl.txn) + (Wr32(|sl.lens|) + Words(sl.lens)));
    AtParts(s, 8, Wr64(sl.txn), Wr32(|sl.lens|) + Words(sl.lens));
    AtParts(s, 16, Wr32(|sl.lens|), Words(sl.lens));
  }

  /** A slot reads back as what was written. */
  lemma DecodeEncode(fm: Format, sl: Slot)
    requires Encodable(sl)
    ensures Decode(fm, Encode(fm, sl), |sl.lens|) == Some(sl)
  {
    var s, n := Encode(fm, sl), |sl.lens|;
    assert s[0..|s|] == s;
    AtParts(s, 0, Payload(sl), Wr32(fm.Crc(Payload(sl))));
    PayloadParts(s, sl);
    assert s[..4] == s[0..4];
    Reads32(s, 4, SLOT_VERSION);
    Reads64(s, 8, sl.txn);
    Reads32(s, 16, n);
    Reads32(s, 20 + 8 * n, fm.Crc(Payload(sl)));
    assert s[..20 + 8 * n] == s[0..20 + 8 * n] == Payload(sl);
    forall i | 0 <= i < n ensures LensOf(s, n)[i] == sl.lens[i] {
      ReadsWords(s, 20, sl.lens, i);
    }
    assert LensOf(s, n) == sl.lens;
  }

  // ---- the journal file ----

  /** The first `len` bytes of the file, zeros past its end. */
  function Padded(j: Bytes, len: nat): (b: Bytes)
    ensures |b| == len
  {
    seq(len, i requires 0 <= i => if i < |j| then j[i] else 0)
  }

  /** A host write at `off`; a gap before it is filled with zeros. */
  function WriteAt(j: Bytes, off: nat, b: Bytes): Bytes {
    seq(if |j| < off + |b| then off + |b| else |j|,
        i requires 0 <= i => if off <= i < off + |b| then b[i - off] else if i < |j| then j[i] else 0)
  }

  function SlotPos(n: nat, k: nat): nat {
    if k == 0 then 0 else SlotSize(n)
  }

  /** The bytes of slot 0 or 1. */
  function SlotBytes(j: Bytes, n: nat, k: nat): (b: Bytes)
    requires k < 2
    ensures |b| == SlotSize(n)
  {
    Padded(j, 2 * SlotSize(n))[SlotPos(n, k)..SlotPos(n, k) + SlotSize(n)]
  }

  function SlotAt(fm: Format, j: Bytes, n: nat, k: nat): Option<Slot>
    requires k < 2
  {
    Decode(fm, SlotBytes(j, n, k), n)
  }

  /** The intact slots, newest first. */
  function Slots(fm: Format, j: Bytes, n: nat): (r: seq<Slot>)
    ensures |r| <= 2 && forall i :: 0 <= i < |r| ==> |r[i].lens| == n
  {
    var a, b := SlotAt(fm, j, n, 0), SlotAt(fm, j, n, 1);
    if a.Some? && b.Some? then
      if a.value.txn >= b.value.txn then [a.value, b.value] else [b.value, a.value]
    else if a.Some? then [a.value] else if b.Some? then [b.value] else []
  }

  /** Odd transactions go to slot 0, even ones to slot 1. */
  function SlotOf(txn: nat): (k: nat)
    ensures k < 2
  {
    if txn % 2 == 1 then 0 else 1
  }

  lemma WrittenByte(j: Bytes, off: nat, b: Bytes, len: nat, i: nat)
    requires i < len
    ensures Padded(WriteAt(j, off, b), len)[i] == if off <= i < off + |b| then b[i - off] else Padded(j, len)[i]
  {
  }

  lemma SliceKept(j: Bytes, off: nat, b: Bytes, len: nat, q: nat, m: nat)
    requires q + m <= len && (q + m <= off || off + |b| <= q)
    ensures Padded(WriteAt(j, off, b), len)[q..q + m] == Padded(j, len)[q..q + m]
  {
    var x, y := Padded(WriteAt(j, off, b), len), Padded(j, len);
    forall i | q <= i < q + m ensures x[i] == y[i] {
      WrittenByte(j, off, b, len, i);
    }
  }

  lemma SliceWritten(j: Bytes, off: nat, b: Bytes, len: nat, m: nat)
    requires off + m <= len && |b| <= m
    ensures Padded(WriteAt(j, off, b), len)[off..off + m] == b + Padded(j, len)[off..off + m][|b|..]
  {
    var x, y := Padded(WriteAt(j, off, b), len), Padded(j, len);
    forall i | off <= i < off + m ensures x[i] == if i < off + |b| then b[i - off] else y[i] {
      WrittenByte(j, off, b, len, i);
    }
  }

  /** Writing into slot `k` changes no byte of the other one. */
  lemma WriteSlot(j: Bytes, n: nat, k: nat, b: Bytes)
    requires k < 2 && |b| <= SlotSize(n)
    ensures SlotBytes(WriteAt(j, SlotPos(n, k), b), n, 1 - k) == SlotBytes(j, n, 1 - k)
    ensures SlotBytes(WriteAt(j, SlotPos(n, k), b), n, k) == b + SlotBytes(j, n, k)[|b|..]
  {
    SliceKept(j, SlotPos(n, k), b, 2 * SlotSize(n), SlotPos(n, 1 - k), SlotSize(n));
    SliceWritten(j, SlotPos(n, k), b, 2 * SlotSize(n), SlotSize(n));
  }

  // ---- the ping-pong ----

  /** Of what the two slots decode to, `top` is the newest. */
  ghost predicate Leads(mine: Option<Slot>, other: Option<Slot>, n: nat, top: Slot) {
    |top.lens| == n && mine == Some(top) && (other.None? || other.value.txn < top.txn)
  }

  type Decoder = Bytes -> Option<Slot>

  function DecoderOf(fm: Format, n: nat): Decoder {
    (s: Bytes) => if |s| == SlotSize(n) then Decode(fm, s, n) else None
  }

  ghost predicate LeadsBy(dec: Decoder, j: Bytes, n: nat, top: Slot) {
    Leads(dec(SlotBytes(j, n, SlotOf(top.txn))), dec(SlotBytes(j, n, 1 - SlotOf(top.txn))), n, top)
  }

  /** `top` is the newest intact slot, where its number puts it; the other slot is older or unreadable. */
  ghost predicate PingPong(fm: Format, j: Bytes, n: nat, top: Slot) {
    LeadsBy(DecoderOf(fm, n), j, n, top)
  }

  lemma NewestIs(fm: Format, j: Bytes, n: nat, top: Slot)
    requires PingPong(fm, j, n, top)
    ensures Slots(fm, j, n) != [] && Slots(fm, j, n)[0] == top
  {
  }

  /** Bytes of a slot torn in the write: the first `k` bytes of the new image over the old one. */
  function TornSlot(old_: Bytes, image: Bytes, k: nat): Bytes
    requires k <= |image| == |old_|
  {
    image[..k] + old_[k..]
  }

  /** The checksum tells a torn slot from a whole one: it only accepts the old image or the new. */
  ghost predicate TearDetected(dec: Decoder, old_: Bytes, image: Bytes, k: nat)
    requires k <= |image| == |old_|
  {
    var s := TornSlot(old_, image, k);
    dec(s).Some? ==> s == old_ || s == image
  }

  /**
   * Writing the next transaction, torn anywhere, leaves either it or its predecessor the newest
   * intact slot; a complete write leaves it.
   */
  lemma NextImage(dec: Decoder, j: Bytes, n: nat, top: Slot, sl: Slot, image: Bytes, k: nat)
    requires LeadsBy(dec, j, n, top) && sl.txn == top.txn + 1 && |sl.lens| == n
    requires k <= |image| == SlotSize(n) && dec(image) == Some(sl)
    requires TearDetected(dec, SlotBytes(j, n, SlotOf(sl.txn)), image, k)
    ensures var j2 := WriteAt(j, SlotPos(n, SlotOf(sl.txn)), image[..k]);
            (LeadsBy(dec, j2, n, top) && k < SlotSize(n)) || LeadsBy(dec, j2, n, sl)
  {
    var x := SlotOf(sl.txn);
    var old_ := SlotBytes(j, n, x);
    assert SlotOf(top.txn) == 1 - x;
    WriteSlot(j, n, x, image[..k]);
    var torn := TornSlot(old_, image, k);
    assert torn == image[..k] + old_[|image[..k]|..];
    assert k == SlotSize(n) ==> torn == image;
  }

  lemma NextSlot(fm: Format, j: Bytes, n: nat, top: Slot, sl: Slot, k: nat)
    requires PingPong(fm, j, n, top) && sl.txn == top.txn + 1 && |sl.lens| == n && Encodable(sl) && k <= SlotSize(n)
    requires TearDetected(DecoderOf(fm, n), SlotBytes(j, n, SlotOf(sl.txn)), Encode(fm, sl), k)
    ensures var j2 := WriteAt(j, SlotPos(n, SlotOf(sl.txn)), Encode(fm, sl)[..k]);
            (PingPong(fm, j2, n, top) && k < SlotSize(n)) || PingPong(fm, j2, n, sl)
  {
    DecodeEncode(fm, sl);
    NextImage(DecoderOf(fm, n), j, n, top, sl, Encode(fm, sl), k);
  }

  /** The first record of an empty journal. */
  lemma FirstSlot(fm: Format, j: Bytes, n: nat, lens: seq<nat>)
    requires Slots(fm, j, n) == [] && |lens| == n && Encodable(Slot(1, lens))
    ensures PingPong(fm, WriteAt(j, 0, Encode(fm, Slot(1, lens))), n, Slot(1, lens))
  {
    var b := Encode(fm, Slot(1, lens));
    WriteSlot(j, n, 0, b);
    DecodeEncode(fm, Slot(1, lens));
    assert b + SlotBytes(j, n, 0)[|b|..] == b;
  }
}
