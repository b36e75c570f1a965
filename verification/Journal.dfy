// One write over many files made atomic: after its tree commits, the length of every file is
// recorded in a two-slot journal, and recovery rewinds every file to the newest record it can.
module Journal {
  import opened RecordFile
  import opened Wire
  import opened NodeFacts
  import opened ScanMachine
  import opened SlotCodec
  import opened BPlusTree

  /** Some commit of the file ends at `l`. */
  ghost predicate IsBoundary(s: Store, l: nat) {
    exists v :: CommitAt(s, l, v)
  }

  ghost function VersionAt(s: Store, l: nat): Version
    requires IsBoundary(s, l)
  {
    var v :| CommitAt(s, l, v);
    v
  }

  /** Every recorded length is a commit boundary of its file. */
  ghost predicate Boundaries(fs: seq<File>, lens: seq<nat>) {
    |lens| == |fs| && forall i :: 0 <= i < |fs| ==> lens[i] <= fs[i].len && IsBoundary(fs[i].store, lens[i])
  }

  predicate Fits(want: seq<nat>, cur: seq<nat>) {
    |want| == |cur| && forall i :: 0 <= i < |want| ==> want[i] <= cur[i]
  }

  /** The newest slot no file has fallen behind. */
  function Choose(slots: seq<Slot>, cur: seq<nat>): Option<Slot> {
    if slots == [] then None else if Fits(slots[0].lens, cur) then Some(slots[0]) else Choose(slots[1..], cur)
  }

  /** Some file is shorter than the slot recorded. */
  ghost predicate SomeShorter(sl: Slot, cur: seq<nat>) {
    exists i :: 0 <= i < |cur| && i < |sl.lens| && cur[i] < sl.lens[i]
  }

  /** No file is shorter than slot `k` recorded, but some file is for every newer slot. */
  ghost predicate NewestReached(slots: seq<Slot>, cur: seq<nat>, k: int) {
    && 0 <= k < |slots| && |slots[k].lens| == |cur| && (forall i :: 0 <= i < |cur| ==> slots[k].lens[i] <= cur[i])
    && forall m :: 0 <= m < k ==> SomeShorter(slots[m], cur)
  }

  lemma {:induction false} ChooseReached(slots: seq<Slot>, cur: seq<nat>, k: int)
    requires NewestReached(slots, cur, k)
    ensures Choose(slots, cur) == Some(slots[k])
    decreases k
  {
    if k > 0 {
      assert SomeShorter(slots[0], cur);
      forall m | 0 <= m < k - 1 ensures SomeShorter(slots[1..][m], cur) {
        assert SomeShorter(slots[m + 1], cur);
      }
      ChooseReached(slots[1..], cur, k - 1);
    }
  }

  lemma {:induction false} ChooseNone(slots: seq<Slot>, cur: seq<nat>)
    requires forall m :: 0 <= m < |slots| ==> SomeShorter(slots[m], cur)
    ensures Choose(slots, cur) == None
  {
    if slots != [] {
      assert SomeShorter(slots[0], cur);
      forall m | 0 <= m < |slots| - 1 ensures SomeShorter(slots[1..][m], cur) {
        assert SomeShorter(slots[m + 1], cur);
      }
      ChooseNone(slots[1..], cur);
    }
  }

  lemma Choices(slots: seq<Slot>, cur: seq<nat>)
    ensures forall k :: NewestReached(slots, cur, k) ==> Choose(slots, cur) == Some(slots[k])
    ensures (forall m :: 0 <= m < |slots| ==> SomeShorter(slots[m], cur)) ==> Choose(slots, cur) == None
  {
    forall k | NewestReached(slots, cur, k) ensures Choose(slots, cur) == Some(slots[k]) {
      ChooseReached(slots, cur, k);
    }
    if forall m :: 0 <= m < |slots| ==> SomeShorter(slots[m], cur) {
      ChooseNone(slots, cur);
    }
  }

  /** The files of a collection, each as its own recovery leaves it, and the journal. */
  datatype Disk = Disk(files: seq<File>, journal: Bytes) {
    function Lens(): (r: seq<nat>)
      ensures |r| == |files| && forall i :: 0 <= i < |r| ==> r[i] == files[i].len
    {
      seq(|files|, i requires 0 <= i < |files| => files[i].len)
    }

    function RewoundTo(lens: seq<nat>): (d: Disk)
      requires |lens| == |files|
      ensures |d.files| == |files| && d.journal == journal
      ensures forall i :: 0 <= i < |files| ==> d.files[i] == Rewound(files[i], lens[i])
    {
      Disk(seq(|files|, i requires 0 <= i < |files| => Rewound(files[i], lens[i])), journal)
    }

    /** What recovery makes of it: None when it refuses. */
    function Recovered(fm: Format): Option<Disk> {
      var slots := Slots(fm, journal, |files|);
      if |files| == 1 || slots == [] then Some(this)
      else
        match Choose(slots, Lens())
        case None => None
        case Some(sl) => if |sl.lens| == |files| then Some(RewoundTo(sl.lens)) else None
    }
  }

  // ---- the invariant over whole runs ----

  ghost predicate FileOk(f: File) {
    f.Clean() && f.len < TWO_64 && IsBoundary(f.store, f.len)
  }

  /** The journal's newest record is `top`, and all its lengths are commit boundaries. */
  ghost predicate Recorded(fm: Format, d: Disk, top: Slot) {
    && 2 <= |d.files| < TWO_32 && (forall i :: 0 <= i < |d.files| ==> FileOk(d.files[i]))
    && PingPong(fm, d.journal, |d.files|, top) && Boundaries(d.files, top.lens)
  }

  /** A tree commits, a slot is written (whole or cut after `k` bytes), or the collection is recovered. */
  datatype Step = TreeCommit(i: nat, f: File) | SlotWrite(k: nat) | Recover

  ghost function NextRecord(fm: Format, d: Disk): Slot {
    var slots := Slots(fm, d.journal, |d.files|);
    Slot(if slots == [] then 1 else slots[0].txn + 1, d.Lens())
  }

  /** The journal after a write of the next record that stops after `k` bytes. */
  ghost function AfterWrite(fm: Format, d: Disk, k: nat): Disk
    requires k <= SlotSize(|d.files|)
  {
    var sl := NextRecord(fm, d);
    d.(journal := WriteAt(d.journal, SlotPos(|d.files|, SlotOf(sl.txn)), Encode(fm, sl)[..k]))
  }

  lemma WholeWrite(fm: Format, d: Disk, sl: Slot, b: Bytes)
    requires sl == NextRecord(fm, d) && b == Encode(fm, sl)
    ensures AfterWrite(fm, d, SlotSize(|d.files|))
            == Disk(d.files, WriteAt(d.journal, SlotPos(|d.files|, SlotOf(sl.txn)), b))
  {
    assert b[..|b|] == b;
  }

  ghost predicate Takes(fm: Format, d: Disk, s: Step, d2: Disk) {
    match s
    case TreeCommit(i, f) =>
      i < |d.files| && Grew(d.files[i], f) && FileOk(f) && d2 == d.(files := d.files[i := f])
    case SlotWrite(k) =>
      var sl := NextRecord(fm, d);
      && k <= SlotSize(|d.files|) && sl.txn < TWO_64 && d2 == AfterWrite(fm, d, k)
      && TearDetected(DecoderOf(fm, |d.files|), SlotBytes(d.journal, |d.files|, SlotOf(sl.txn)), Encode(fm, sl), k)
    case Recover => d.Recovered(fm) == Some(d2)
  }

  lemma GrowKeepsBoundary(f0: File, f: File, l: nat)
    requires Grew(f0, f) && IsBoundary(f0.store, l) && l <= f0.len
    ensures IsBoundary(f.store, l) && l <= f.len
  {
    var v := VersionAt(f0.store, l);
    VersionExtends(f0.store, f.store, v);
    assert CommitAt(f.store, l, v);
  }

  lemma RewoundOk(f: File, l: nat)
    requires FileOk(f) && IsBoundary(f.store, l) && l <= f.len
    ensures FileOk(Rewound(f, l)) && Rewound(f, l).len == l
  {
    if l != f.len {
      var v, at := VersionAt(f.store, l), l - META_SIZE;
      assert FitsAt(f.store, f.len, at);
      CutAtRecordEnd(f, at);
      VersionCut(f.store, f.SetLen(l).store, at, v);
      assert CommitAt(f.SetLen(l).store, l, v);
    }
  }

  lemma ChooseFirst(slots: seq<Slot>, cur: seq<nat>)
    requires slots != [] && Fits(slots[0].lens, cur)
    ensures Choose(slots, cur) == Some(slots[0])
  {
  }

  /**
   * Recovery brings every file to the length vector of the newest intact slot, each a commit
   * boundary, and doing it again changes nothing.
   */
  lemma RecoverBrings(fm: Format, d: Disk, top: Slot)
    requires Recorded(fm, d, top)
    ensures d.Recovered(fm) == Some(d.RewoundTo(top.lens))
    ensures d.RewoundTo(top.lens).Lens() == top.lens && Recorded(fm, d.RewoundTo(top.lens), top)
    ensures d.RewoundTo(top.lens).Recovered(fm) == Some(d.RewoundTo(top.lens))
  {
    var d2 := d.RewoundTo(top.lens);
    NewestIs(fm, d.journal, |d.files|, top);
    ChooseFirst(Slots(fm, d.journal, |d.files|), d.Lens());
    forall i | 0 <= i < |d.files|
      ensures FileOk(d2.files[i]) && d2.files[i].len == top.lens[i]
    {
      RewoundOk(d.files[i], top.lens[i]);
    }
    ChooseFirst(Slots(fm, d.journal, |d.files|), d2.Lens());
    assert d2.RewoundTo(top.lens) == d2 by {
      assert d2.RewoundTo(top.lens).files == d2.files;
    }
    assert d2.Lens() == top.lens;
  }

  lemma TreeStep(fm: Format, d: Disk, top: Slot, i: nat, f: File)
    requires Recorded(fm, d, top) && i < |d.files| && Grew(d.files[i], f) && FileOk(f)
    ensures Recorded(fm, d.(files := d.files[i := f]), top)
  {
    GrowKeepsBoundary(d.files[i], f, top.lens[i]);
  }

  lemma SlotStep(fm: Format, d: Disk, top: Slot, k: nat)
    requires Recorded(fm, d, top) && k <= SlotSize(|d.files|) && Takes(fm, d, SlotWrite(k), AfterWrite(fm, d, k))
    ensures NextRecord(fm, d) == Slot(top.txn + 1, d.Lens())
    ensures (Recorded(fm, AfterWrite(fm, d, k), top) && k < SlotSize(|d.files|))
            || Recorded(fm, AfterWrite(fm, d, k), NextRecord(fm, d))
  {
    NewestIs(fm, d.journal, |d.files|, top);
    NextSlot(fm, d.journal, |d.files|, top, NextRecord(fm, d), k);
    var j := AfterWrite(fm, d, k).journal;
    if PingPong(fm, j, |d.files|, NextRecord(fm, d)) {
      WithJournal(fm, d, j, NextRecord(fm, d));
    } else {
      WithJournal(fm, d, j, top);
    }
  }

  lemma WithJournal(fm: Format, d: Disk, j: Bytes, top: Slot)
    requires 2 <= |d.files| < TWO_32 && (forall i :: 0 <= i < |d.files| ==> FileOk(d.files[i]))
    requires PingPong(fm, j, |d.files|, top) && (top.lens == d.Lens() || Boundaries(d.files, top.lens))
    ensures Recorded(fm, d.(journal := j), top)
  {
  }

  /** Once the journal holds a record, it does so in every state a run reaches. */
  lemma {:induction false} RecordedAlways(fm: Format, ds: seq<Disk>, steps: seq<Step>, top: Slot) returns (last: Slot)
    requires |ds| == |steps| + 1 && Recorded(fm, ds[0], top)
    requires forall j :: 0 <= j < |steps| ==> Takes(fm, ds[j], steps[j], ds[j + 1])
    ensures Recorded(fm, ds[|steps|], last)
    decreases |steps|
  {
    last := top;
    if steps != [] {
      var n := |steps| - 1;
      last := RecordedAlways(fm, ds[..n + 1], steps[..n], top);
      assert Takes(fm, ds[n], steps[n], ds[n + 1]);
      match steps[n]
      case TreeCommit(i, f) =>
        TreeStep(fm, ds[n], last, i, f);
      case SlotWrite(k) =>
        SlotStep(fm, ds[n], last, k);
        if !Recorded(fm, ds[n + 1], last) {
          last := NextRecord(fm, ds[n]);
        }
      case Recover =>
        RecoverBrings(fm, ds[n], last);
    }
  }

  // ---- all or nothing ----

  /** `d2` is `d` with some of its files grown by whole commits. */
  ghost predicate GrownBy(d: Disk, d2: Disk) {
    && |d2.files| == |d.files| && d2.journal == d.journal
    && forall i :: 0 <= i < |d.files| ==> Grew(d.files[i], d2.files[i]) && FileOk(d2.files[i])
  }

  lemma RewindGrown(d: Disk, d2: Disk)
    requires GrownBy(d, d2) && forall i :: 0 <= i < |d.files| ==> FileOk(d.files[i])
    ensures d2.RewoundTo(d.Lens()) == d
  {
    forall i | 0 <= i < |d.files| ensures d2.RewoundTo(d.Lens()).files[i] == d.files[i] {
      CutBack(d.files[i], d2.files[i]);
    }
    assert d2.RewoundTo(d.Lens()).files == d.files;
  }

  /**
   * A crash anywhere inside a write - after any of its tree commits, or with its slot torn -
   * recovers all files as they were before the write or all as they were after it; after the
   * complete slot write it is the latter.
   */
  lemma AllOrNothing(fm: Format, d: Disk, top: Slot, d2: Disk, k: nat)
    requires Recorded(fm, d, top) && top.lens == d.Lens() && GrownBy(d, d2)
    requires k <= SlotSize(|d2.files|) && Takes(fm, d2, SlotWrite(k), AfterWrite(fm, d2, k))
    ensures d2.Recovered(fm) == Some(d)
    ensures var r := AfterWrite(fm, d2, k).Recovered(fm);
            r.Some? && (r.value.files == d2.files || (r.value.files == d.files && k < SlotSize(|d.files|)))
  {
    GrownRecorded(fm, d, top, d2);
    RecoverBrings(fm, d2, top);
    RewindGrown(d, d2);
    SlotStep(fm, d2, top, k);
    var d3, sl := AfterWrite(fm, d2, k), NextRecord(fm, d2);
    if Recorded(fm, d3, sl) {
      RecoverBrings(fm, d3, sl);
      assert d3.RewoundTo(sl.lens).files == d2.files;
    } else {
      RecoverBrings(fm, d3, top);
      assert d3.RewoundTo(top.lens).files == d2.RewoundTo(top.lens).files;
    }
  }

  lemma GrownRecorded(fm: Format, d: Disk, top: Slot, d2: Disk)
    requires Recorded(fm, d, top) && GrownBy(d, d2)
    ensures Recorded(fm, d2, top)
  {
    forall i | 0 <= i < |d.files| ensures top.lens[i] <= d2.files[i].len && IsBoundary(d2.files[i].store, top.lens[i]) {
      GrowKeepsBoundary(d.files[i], d2.files[i], top.lens[i]);
    }
  }

  /** The first record after the journal was emptied: from then on the collection is `Recorded`. */
  lemma FirstRecord(fm: Format, d: Disk)
    requires 2 <= |d.files| < TWO_32 && (forall i :: 0 <= i < |d.files| ==> FileOk(d.files[i]))
    requires Slots(fm, d.journal, |d.files|) == []
    ensures Recorded(fm, AfterWrite(fm, d, SlotSize(|d.files|)), Slot(1, d.Lens()))
  {
    FirstSlot(fm, d.journal, |d.files|, d.Lens());
    var b := Encode(fm, Slot(1, d.Lens()));
    assert b[..SlotSize(|d.files|)] == b;
  }

  // ---- the collection ----

  ghost predicate StandsAt(t: Bpt, f: File)
    reads t
  {
    t.Valid() && !t.readOnly && t.f == f
  }

  class Collection {
    const fm: Format
    var files: seq<Bpt>
    var journal: Bytes

    ghost predicate Valid()
      reads this, files
    {
      && 1 <= |files| < TWO_32 && (forall i, j :: 0 <= i < j < |files| ==> files[i] != files[j])
      && forall i :: 0 <= i < |files| ==> files[i].Valid() && !files[i].readOnly && files[i].f.len < TWO_64
    }

    ghost function OnDisk(): (d: Disk)
      reads this, files
      ensures |d.files| == |files| && d.journal == journal
      ensures forall i :: 0 <= i < |files| ==> d.files[i] == files[i].f
    {
      Disk(seq(|files|, i requires 0 <= i < |files| reads this, files => files[i].f), journal)
    }

    constructor (fm: Format, files: seq<Bpt>, journal: Bytes)
      ensures this.fm == fm && this.files == files && this.journal == journal
    {
      this.fm, this.files, this.journal := fm, files, journal;
    }

    /** A valid writable tree ends at the commit it stands at. */
    lemma FilesOk()
      requires Valid()
      ensures forall i :: 0 <= i < |files| ==> FileOk(OnDisk().files[i])
    {
      forall i | 0 <= i < |files| ensures FileOk(OnDisk().files[i]) {
        var t := files[i];
        assert t.TailIsMeta();
        assert FitsAt(t.f.store, t.f.len, t.root) && Apart(t.f.store, t.f.len - META_SIZE, t.root);
        assert CommitAt(t.f.store, t.f.len, t.Now());
      }
    }

    method GatherLens() returns (lens: seq<nat>)
      requires Valid()
      ensures lens == OnDisk().Lens()
    {
      lens := [];
      for i := 0 to |files|
        invariant |lens| == i && forall k :: 0 <= k < i ==> lens[k] == files[k].f.len
      {
        lens := lens + [files[i].f.len];
      }
    }

    method WriteJournal(off: nat, b: Bytes)
      requires Valid()
      modifies this`journal
      ensures Valid() && OnDisk() == Disk(old(OnDisk().files), WriteAt(old(journal), off, b))
    {
      ghost var fs := OnDisk().files;
      journal := WriteAt(journal, off, b);
      assert OnDisk().files == fs;
    }

    /** Record the current length of every file as the next transaction. */
    method CommitJournal(hostOk: bool) returns (e: Status)
      requires Valid()
      modifies this`journal
      ensures Valid() && files == old(files)
      ensures e == if |files| == 1 || hostOk then Ok else HostError
      ensures |files| == 1 || !hostOk ==> journal == old(journal)
      ensures |files| > 1 && hostOk ==> OnDisk() == old(AfterWrite(fm, OnDisk(), SlotSize(|files|)))
      ensures |files| > 1 && hostOk && Slots(fm, old(journal), |files|) == [] ==>
              Recorded(fm, OnDisk(), Slot(1, OnDisk().Lens()))
    {
      if |files| == 1 {
        return Ok;
      }
      var n := |files|;
      var slots := Slots(fm, journal, n);
      var next := if slots != [] then slots[0].txn + 1 else 1;
      var cur := GatherLens();
      var s := EncodeSlot(fm, Slot(next, cur));
      if !hostOk {
        return HostError;
      }
      WholeWrite(fm, OnDisk(), Slot(next, cur), s);
      FilesOk();
      if slots == [] {
        FirstRecord(fm, OnDisk());
      }
      WriteJournal(SlotPos(n, SlotOf(next)), s);
      e := Ok;
    }

    method NoneBehind(cur: seq<nat>, want: seq<nat>) returns (ok: bool)
      requires |cur| == |want|
      ensures ok == Fits(want, cur)
    {
      for i := 0 to |cur|
        invariant forall k :: 0 <= k < i ==> want[k] <= cur[k]
      {
        if cur[i] < want[i] {
          return false;
        }
      }
      ok := true;
    }

    method ChooseSlot(slots: seq<Slot>, cur: seq<nat>) returns (r: Option<Slot>)
      requires forall k :: 0 <= k < |slots| ==> |slots[k].lens| == |cur|
      ensures r == Choose(slots, cur) && (r.Some? ==> |r.value.lens| == |cur|)
    {
      for k := 0 to |slots|
        invariant Choose(slots, cur) == Choose(slots[k..], cur)
      {
        var ok := NoneBehind(cur, slots[k].lens);
        if ok {
          return Some(slots[k]);
        }
      }
      r := None;
    }

    method RewindOne(t: Bpt, l: nat, ghost known: bool) returns (e: Status)
      requires StandsAt(t, t.f) && (known ==> l <= t.f.len && IsBoundary(t.f.store, l))
      modifies t
      ensures known ==> e == Ok && StandsAt(t, Rewound(old(t.f), l)) && t.f.len == l
    {
      ghost var v := t.Now();
      if known {
        v := VersionAt(t.f.store, l);
      }
      e := t.Rewind(l, known, v);
    }

    /** Rewind every file; all recorded lengths are boundaries when `known`. */
    method RewindAll(lens: seq<nat>, ghost known: bool) returns (e: Status)
      requires Valid() && |lens| == |files| && (known ==> Boundaries(OnDisk().files, lens))
      modifies files
      ensures known ==> e == Ok && Valid() && OnDisk() == old(OnDisk().RewoundTo(lens)) && OnDisk().Lens() == lens
    {
      ghost var d := OnDisk();
      e := RewindEach(lens, known, d.files);
      if known {
        assert OnDisk().files == d.RewoundTo(lens).files;
      }
    }

    method RewindEach(lens: seq<nat>, ghost known: bool, ghost fs: seq<File>) returns (e: Status)
      requires Valid() && |lens| == |files| && fs == OnDisk().files && (known ==> Boundaries(fs, lens))
      modifies files
      ensures known ==> e == Ok && forall k :: 0 <= k < |files| ==>
                StandsAt(files[k], Rewound(fs[k], lens[k])) && files[k].f.len == lens[k]
    {
      for i := 0 to |files|
        invariant forall k :: i <= k < |files| ==> StandsAt(files[k], fs[k])
        invariant known ==> forall k :: 0 <= k < i ==>
                  StandsAt(files[k], Rewound(fs[k], lens[k])) && files[k].f.len == lens[k]
      {
        assert forall k :: 0 <= k < |files| && k != i ==> files[k] != files[i];
        e := RewindOne(files[i], lens[i], known);
        if e != Ok {
          return;
        }
      }
      e := Ok;
    }

    /**
     * Bring all files back to the newest record none of them has fallen behind: to the older of the
     * two when a file lacks what the newer one recorded.
     */
    method RecoverAll() returns (e: Status)
      requires Valid()
      modifies files
      ensures forall k :: old(|files| > 1 && NewestReached(Slots(fm, journal, |files|), OnDisk().Lens(), k)
                              && Boundaries(OnDisk().files, Slots(fm, journal, |files|)[k].lens)) ==>
                e == Ok && Valid() && OnDisk().Lens() == old(Slots(fm, journal, |files|)[k].lens)
                && OnDisk() == old(OnDisk().RewoundTo(Slots(fm, journal, |files|)[k].lens))
      ensures old(|files| > 1 && Slots(fm, journal, |files|) != []
                  && forall m :: 0 <= m < |Slots(fm, journal, |files|)| ==>
                       SomeShorter(Slots(fm, journal, |files|)[m], OnDisk().Lens())) ==>
                e == State && OnDisk() == old(OnDisk()) && Valid()
      ensures var r := old(OnDisk().Recovered(fm));
              && (r == None ==> e == State && OnDisk() == old(OnDisk()) && Valid())
              && (r.Some? && (|files| == 1 || Slots(fm, journal, |files|) == []) ==>
                 e == Ok && OnDisk() == old(OnDisk()) && Valid())
      ensures forall top :: old(Recorded(fm, OnDisk(), top)) ==>
                e == Ok && Valid() && Some(OnDisk()) == old(OnDisk().Recovered(fm)) && OnDisk().Lens() == top.lens
    {
      if |files| == 1 {
        return Ok;
      }
      var slots := Slots(fm, journal, |files|);
      var cur := GatherLens();
      NewestChosen(fm, OnDisk(), slots, cur);
      Choices(slots, cur);
      if slots == [] {
        return Ok;
      }
      var r := ChooseSlot(slots, cur);
      if r == None {
        return State;
      }
      e := RewindAll(r.value.lens, Boundaries(OnDisk().files, r.value.lens));
    }
  }

  /** When the journal is in order, the slot recovery chooses is the newest. */
  lemma NewestChosen(fm: Format, d: Disk, slots: seq<Slot>, cur: seq<nat>)
    requires slots == Slots(fm, d.journal, |d.files|) && cur == d.Lens()
    ensures forall top :: Recorded(fm, d, top) ==>
              Choose(slots, cur) == Some(top) && d.RewoundTo(top.lens).Lens() == top.lens
                  && d.Recovered(fm) == Some(d.RewoundTo(top.lens))
  {
    forall top | Recorded(fm, d, top)
      ensures Choose(slots, cur) == Some(top) && d.RewoundTo(top.lens).Lens() == top.lens
              && d.Recovered(fm) == Some(d.RewoundTo(top.lens))
    {
      RecoverBrings(fm, d, top);
      NewestIs(fm, d.journal, |d.files|, top);
      ChooseFirst(slots, cur);
    }
  }
}
