// Crashes inside a tree commit, with the bytes of every file beside its records: a file torn inside a
// commit is refused or opened at the end of the commit before, and the journal does the rest.
module TornCommits {
  import opened RecordFile
  import opened Wire
  import opened ScanMachine
  import opened CommitScan
  import opened SlotCodec
  import opened Journal

  /** The bytes of a file: whole commits, and what a commit cut short has left behind them. */
  datatype FileBytes = FileBytes(commits: seq<Commit>, tail: Bytes) {
    ghost function All(): Bytes {
      Image(commits) + tail
    }

    /** The first `l` bytes. */
    ghost function CutTo(l: nat): FileBytes
      decreases |commits|
    {
      if commits == [] || |Image(commits)| <= l then
          FileBytes(commits, if |All()| <= l then tail else All()[|Image(commits)|..l])
      else
        var n := |commits| - 1;
        FileBytes(commits[..n], CommitImage(commits[n])).CutTo(l)
    }
  }

  /** Some number of commits ends after `l` bytes. */
  ghost predicate EndsAt(cs: seq<Commit>, l: nat) {
    exists j :: 0 <= j <= |cs| && |Image(cs[..j])| == l
  }

  lemma ImageFront(cs: seq<Commit>)
    requires cs != []
    ensures Image(cs) == Image(cs[..|cs| - 1]) + CommitImage(cs[|cs| - 1])
  {
    assert cs == cs[..|cs| - 1] + [cs[|cs| - 1]];
    CommitsSnoc((at: nat, c: Commit) => true, cs[..|cs| - 1], 0, cs[|cs| - 1]);
  }

  /** Cutting at the end of a commit leaves the commits up to it and nothing behind them. */
  lemma {:induction false} CutAtEnd(fb: FileBytes, j: nat)
    requires j <= |fb.commits| && forall c :: c in fb.commits ==> CommitImage(c) != []
    ensures fb.CutTo(|Image(fb.commits[..j])|) == FileBytes(fb.commits[..j], [])
    ensures |Image(fb.commits[..j])| <= |Image(fb.commits)|
    ensures fb.All()[..|Image(fb.commits[..j])|] == Image(fb.commits[..j])
    decreases |fb.commits|
  {
    var cs, n := fb.commits, |fb.commits| - 1;
    if j == |cs| {
      assert cs[..j] == cs;
    } else {
      ImageFront(cs);
      var less := FileBytes(cs[..n], CommitImage(cs[n]));
      assert cs[..n][..j] == cs[..j];
      CutAtEnd(less, j);
      assert CommitImage(cs[n]) != [];
    }
  }

  // ---- what a file's bytes say about its records ----

  /** The tail is a proper prefix of a commit. */
  ghost predicate TailOk(fm: Format, cs: seq<Commit>, tail: Bytes) {
    tail == [] || exists c :: CommitOk(fm, c, |Image(cs)|) && TornAt(Image(cs) + tail, |Image(cs)|, CommitImage(c))
  }

  /** Every record of the file stands encoded in the bytes. */
  ghost predicate Encodes(enc: Record -> Bytes, s: Store, b: Bytes) {
    forall o :: o in s ==> EncodedAt(enc, s[o], b, o)
  }

  ghost predicate EncodedAt(enc: Record -> Bytes, r: Record, b: Bytes, o: nat) {
    (r.ValueRec? ==> r.bytes != []) && |enc(r)| == Size(r) && At(b, o, enc(r))
  }

  /** Bytes that start alike hold the records in the common part alike. */
  lemma EncodedIn(enc: Record -> Bytes, r: Record, b: Bytes, b2: Bytes, l: nat, o: nat)
    requires EncodedAt(enc, r, b, o) && o + Size(r) <= l <= |b| && l <= |b2| && b[..l] == b2[..l]
    ensures EncodedAt(enc, r, b2, o)
  {
    SliceOfSlice(b, 0, l, o, o + Size(r));
    SliceOfSlice(b2, 0, l, o, o + Size(r));
    assert b[0..l] == b[..l] && b2[0..l] == b2[..l];
  }

  lemma EncodesCut(enc: Record -> Bytes, f: File, g: File, b: Bytes, b2: Bytes)
    requires Encodes(enc, f.store, b) && g.Clean() && Extends(g.store, f.store) && g.len <= |b| && b2 == b[..g.len]
    ensures Encodes(enc, g.store, b2)
  {
    forall o | o in g.store ensures EncodedAt(enc, g.store[o], b2, o) {
      assert FitsAt(g.store, g.len, o) && EncodedAt(enc, f.store[o], b, o);
      assert b2[..g.len] == b[..g.len];
      EncodedIn(enc, g.store[o], b, b2, g.len, o);
    }
  }

  /** The records are those of the whole commits; a torn one has none. */
  ghost predicate Stands(fm: Format, enc: Record -> Bytes, f: File, fb: FileBytes) {
    && CommitsOk(fm, fb.commits, 0) && |Image(fb.commits)| == f.len && TailOk(fm, fb.commits, fb.tail)
    && Encodes(enc, f.store, Image(fb.commits))
  }

  lemma {:induction false} CommitsNotEmpty(fm: Format, cs: seq<Commit>, at: nat)
    requires CommitsOk(fm, cs, at)
    ensures forall c :: c in cs ==> CommitImage(c) != []
    decreases |cs|
  {
    if cs != [] {
      assert GoodCommit(fm)(at, cs[0]) && cs[0].md != [];
      CommitsNotEmpty(fm, cs[1..], at + |CommitImage(cs[0])|);
      assert cs == [cs[0]] + cs[1..];
    }
  }

  lemma {:induction false} CommitsFront(fm: Format, cs: seq<Commit>, j: nat)
    requires CommitsOk(fm, cs, 0) && j <= |cs|
    ensures CommitsOk(fm, cs[..j], 0)
    decreases |cs|
  {
    if j < |cs| {
      var n := |cs| - 1;
      assert cs == cs[..n] + [cs[n]] && cs[..n][..j] == cs[..j];
      CommitsSnoc(GoodCommit(fm), cs[..n], 0, cs[n]);
      CommitsFront(fm, cs[..n], j);
    } else {
      assert cs[..j] == cs;
    }
  }

  /** A file cut back to a commit boundary, in records and in bytes. */
  lemma CutStands(fm: Format, enc: Record -> Bytes, f: File, fb: FileBytes, l: nat)
    requires Stands(fm, enc, f, fb) && FileOk(f) && IsBoundary(f.store, l) && l <= f.len && EndsAt(fb.commits, l)
    ensures Stands(fm, enc, Rewound(f, l), fb.CutTo(l)) && fb.CutTo(l).tail == []
    ensures fb.CutTo(l).All() == fb.All()[..l] && |fb.All()| >= l
    ensures fb.CutTo(l).commits <= fb.commits
  {
    var j: nat :| j <= |fb.commits| && |Image(fb.commits[..j])| == l;
    CommitsNotEmpty(fm, fb.commits, 0);
    CommitsFront(fm, fb.commits, j);
    CutAtEnd(fb, j);
    RewoundOk(f, l);
    RewoundStore(f, l);
    var b := Image(fb.commits[..j]);
    assert b + [] == b;
    assert fb.All()[..l] == Image(fb.commits)[..l];
    EncodesCut(enc, f, Rewound(f, l), Image(fb.commits), b);
  }

  lemma RewoundStore(f: File, l: nat)
    ensures Extends(Rewound(f, l).store, f.store)
  {
  }

  // ---- opening a file ----

  /** The last bytes of the file pass for the metadata of a commit. */
  ghost predicate EndsLikeCommit(fm: Format, b: Bytes) {
    TailAccepted(fm, b, META_SIZE) && fm.isMeta(|b| - META_SIZE, b[|b| - META_SIZE..])
  }

  /** What opening makes of a file: adopted whole, cut to `r`, or refused. */
  ghost predicate Opens(fm: Format, b: Bytes, r: Option<nat>) {
    if EndsLikeCommit(fm, b) then r == Some(|b|) else exists e, good: nat :: ScanLeaves(fm, b, r, e, good)
  }

  ghost predicate ScanLeaves(fm: Format, b: Bytes, r: Option<nat>, e: Status, good: nat) {
    ScanDecides(fm, b, e, good) && r == if e == Ok then Some(good) else None
  }

  method Open(fm: Format, b: Bytes) returns (r: Option<nat>)
    ensures Opens(fm, b, r)
  {
    var e, md := CheckTail(fm, b, META_SIZE);
    if e == Ok && fm.isMeta(|b| - META_SIZE, md) {
      return Some(|b|);
    }
    var good;
    e, good := ScanCommits(fm, b);
    r := if e == Ok then Some(good) else None;
    assert ScanLeaves(fm, b, r, e, good);
  }

  /** A torn file that does not happen to end like a commit. */
  ghost predicate TearShows(fm: Format, fb: FileBytes) {
    fb.tail != [] ==> !EndsLikeCommit(fm, fb.All())
  }

  /**
   * Opening a file torn inside a commit: refused exactly if a trailer image in the tail verifies,
   * and otherwise cut to the commit before, whose records are all there.
   */
  lemma OpenedAtBoundary(fm: Format, enc: Record -> Bytes, f: File, fb: FileBytes, r: Option<nat>)
    requires Stands(fm, enc, f, fb) && TearShows(fm, fb) && Opens(fm, fb.All(), r)
    ensures r.None? <==> fb.tail != [] && exists q :: f.len <= q < |fb.All()| && VerifiesAt(fm, fb.All(), q)
    ensures r.Some? ==>
              r.value == f.len && fb.All()[..r.value] == Image(fb.commits) && Encodes(enc, f.store, fb.All()[..r.value])
  {
    assert fb.All()[..f.len] == Image(fb.commits);
    if fb.tail == [] {
      assert fb.All() == Image(fb.commits);
      if !EndsLikeCommit(fm, fb.All()) {
        var e, good: nat :| ScanLeaves(fm, fb.All(), r, e, good);
        RecoveryIsStable(fm, fb.commits, e, good);
      }
    } else {
      TornOpens(fm, fb, r);
    }
  }

  lemma TornOpens(fm: Format, fb: FileBytes, r: Option<nat>)
    requires CommitsOk(fm, fb.commits, 0) && TailOk(fm, fb.commits, fb.tail) && fb.tail != []
    requires !EndsLikeCommit(fm, fb.All()) && Opens(fm, fb.All(), r)
    ensures r.None? <==> exists q :: |Image(fb.commits)| <= q < |fb.All()| && VerifiesAt(fm, fb.All(), q)
    ensures r.Some? ==> r.value == |Image(fb.commits)|
  {
    var b, cs := fb.All(), fb.commits;
    var c :| CommitOk(fm, c, |Image(cs)|) && TornAt(b, |Image(cs)|, CommitImage(c));
    var e, good: nat :| ScanLeaves(fm, b, r, e, good);
    assert At(b, 0, Image(cs));
    ScanRecovers(fm, cs, c, b, e, good);
  }

  // ---- runs with crashes anywhere ----

  /** A collection on disk, records and bytes. */
  datatype Machine = Machine(disk: Disk, bytes: seq<FileBytes>)

  ghost predicate AllStand(fm: Format, enc: Record -> Bytes, x: Machine) {
    |x.bytes| == |x.disk.files| && forall i :: 0 <= i < |x.bytes| ==> Stands(fm, enc, x.disk.files[i], x.bytes[i])
  }

  ghost predicate Untorn(x: Machine) {
    forall i :: 0 <= i < |x.bytes| ==> x.bytes[i].tail == []
  }

  ghost predicate EndsOk(x: Machine, lens: seq<nat>) {
    |lens| == |x.bytes| && forall i :: 0 <= i < |lens| ==> EndsAt(x.bytes[i].commits, lens[i])
  }

  /** The journal's newest record is `top`: boundaries of every file, in records and in bytes. */
  ghost predicate Guarded(fm: Format, enc: Record -> Bytes, x: Machine, top: Slot) {
    Recorded(fm, x.disk, top) && AllStand(fm, enc, x) && EndsOk(x, top.lens)
  }

  /**
   * A tree commits; a crash tears a tree commit; a file is opened; with all files open, a slot is
   * written, whole or torn, or the collection is recovered.
   */
  datatype Event =
    | Grow(i: nat, f: File, c: Commit)
    | Tear(i: nat, tail: Bytes)
    | Reopen(i: nat)
    | WriteSlot(k: nat)
    | RecoverAll

  ghost predicate Happens(fm: Format, enc: Record -> Bytes, x: Machine, s: Event, y: Machine)
    requires |x.bytes| == |x.disk.files|
  {
    match s
    case Grow(i, f, c) =>
      && Takes(fm, x.disk, TreeCommit(i, f), y.disk) && x.bytes[i].tail == []
      && y.bytes == x.bytes[i := FileBytes(x.bytes[i].commits + [c], [])]
      && CommitOk(fm, c, x.disk.files[i].len) && f.len == x.disk.files[i].len + |CommitImage(c)|
      && Encodes(enc, f.store, Image(x.bytes[i].commits + [c]))
    case Tear(i, tail) =>
      && i < |x.bytes| && x.bytes[i].tail == [] && TailOk(fm, x.bytes[i].commits, tail)
      && y == x.(bytes := x.bytes[i := FileBytes(x.bytes[i].commits, tail)])
    case Reopen(i) =>
      && i < |x.bytes| && TearShows(fm, x.bytes[i])
      && exists l :: Opens(fm, x.bytes[i].All(), Some(l)) && y == Reopened(x, i, l)
    case WriteSlot(k) =>
      Untorn(x) && Takes(fm, x.disk, SlotWrite(k), y.disk) && y.bytes == x.bytes
    case RecoverAll =>
      && Untorn(x) && x.disk.Recovered(fm) == Some(y.disk) && |y.disk.files| == |y.bytes| == |x.bytes|
      && forall i :: 0 <= i < |x.bytes| ==> y.bytes[i] == x.bytes[i].CutTo(y.disk.files[i].len)
  }

  /** File `i` was opened and cut to `l` bytes; its records are those below. */
  ghost function Reopened(x: Machine, i: nat, l: nat): Machine
    requires i < |x.bytes| == |x.disk.files|
  {
    Machine(x.disk.(files := x.disk.files[i := Rewound(x.disk.files[i], l)]), x.bytes[i := x.bytes[i].CutTo(l)])
  }

  lemma EndsLater(cs: seq<Commit>, c: Commit, l: nat)
    requires EndsAt(cs, l)
    ensures EndsAt(cs + [c], l)
  {
    var j: nat :| j <= |cs| && |Image(cs[..j])| == l;
    assert (cs + [c])[..j] == cs[..j];
  }

  lemma CommitEvent(fm: Format, enc: Record -> Bytes, x: Machine, top: Slot, i: nat, f: File, c: Commit, y: Machine)
    requires Guarded(fm, enc, x, top) && Happens(fm, enc, x, Grow(i, f, c), y)
    ensures Guarded(fm, enc, y, top)
  {
    TreeStep(fm, x.disk, top, i, f);
    assert Stands(fm, enc, x.disk.files[i], x.bytes[i]);
    GrownStands(fm, enc, x.disk.files[i], x.bytes[i].commits, f, c, top.lens[i]);
    forall j | 0 <= j < |y.bytes| && j != i ensures Stands(fm, enc, y.disk.files[j], y.bytes[j]) {
      assert Stands(fm, enc, x.disk.files[j], x.bytes[j]);
    }
  }

  lemma GrownStands(fm: Format, enc: Record -> Bytes, f0: File, cs: seq<Commit>, f: File, c: Commit, l: nat)
    requires CommitsOk(fm, cs, 0) && |Image(cs)| == f0.len && CommitOk(fm, c, f0.len)
             && f.len == f0.len + |CommitImage(c)|
    requires Encodes(enc, f.store, Image(cs + [c])) && EndsAt(cs, l)
    ensures Stands(fm, enc, f, FileBytes(cs + [c], [])) && EndsAt(cs + [c], l)
  {
    CommitsSnoc(GoodCommit(fm), cs, 0, c);
    EndsLater(cs, c, l);
  }

  /** A file that can be opened is as it was before the commit that was torn. */
  lemma ReopenEvent(fm: Format, enc: Record -> Bytes, x: Machine, i: nat, y: Machine)
    requires AllStand(fm, enc, x) && Happens(fm, enc, x, Reopen(i), y)
    ensures y == x.(bytes := x.bytes[i := FileBytes(x.bytes[i].commits, [])]) && AllStand(fm, enc, y)
  {
    var l :| Opens(fm, x.bytes[i].All(), Some(l)) && y == Reopened(x, i, l);
    var fb := x.bytes[i];
    OpenedAtBoundary(fm, enc, x.disk.files[i], fb, Some(l));
    CommitsNotEmpty(fm, fb.commits, 0);
    assert fb.commits[..|fb.commits|] == fb.commits;
    CutAtEnd(fb, |fb.commits|);
    assert y.disk.files == x.disk.files;
  }

  lemma SlotEvent(fm: Format, enc: Record -> Bytes, x: Machine, top: Slot, k: nat, y: Machine) returns (last: Slot)
    requires Guarded(fm, enc, x, top) && Happens(fm, enc, x, WriteSlot(k), y)
    ensures Guarded(fm, enc, y, last)
  {
    SlotStep(fm, x.disk, top, k);
    last := if Recorded(fm, y.disk, top) then top else NextRecord(fm, x.disk);
    if !Recorded(fm, y.disk, top) {
      FullEnds(fm, enc, x);
    }
  }

  /** Every file ends at a commit. */
  lemma FullEnds(fm: Format, enc: Record -> Bytes, x: Machine)
    requires AllStand(fm, enc, x)
    ensures EndsOk(x, x.disk.Lens())
  {
    forall i | 0 <= i < |x.bytes| ensures EndsAt(x.bytes[i].commits, x.disk.Lens()[i]) {
      assert Stands(fm, enc, x.disk.files[i], x.bytes[i]);
      assert x.bytes[i].commits[..|x.bytes[i].commits|] == x.bytes[i].commits;
    }
  }

  lemma RecoverEvent(fm: Format, enc: Record -> Bytes, x: Machine, top: Slot, y: Machine)
    requires Guarded(fm, enc, x, top) && Happens(fm, enc, x, RecoverAll, y)
    ensures Guarded(fm, enc, y, top) && y.disk.Lens() == top.lens && Untorn(y)
  {
    RecoverBrings(fm, x.disk, top);
    forall i | 0 <= i < |x.bytes|
      ensures Stands(fm, enc, y.disk.files[i], y.bytes[i]) && y.bytes[i].tail == []
              && EndsAt(y.bytes[i].commits, top.lens[i])
    {
      CutStands(fm, enc, x.disk.files[i], x.bytes[i], top.lens[i]);
      assert y.disk.files[i] == Rewound(x.disk.files[i], top.lens[i]);
      assert y.bytes[i].commits[..|y.bytes[i].commits|] == y.bytes[i].commits;
    }
  }

  /** In every state a run with crashes reaches, the journal names a boundary of every file, in records and in bytes. */
  lemma {:induction false} GuardedAlways(fm: Format, enc: Record -> Bytes, xs: seq<Machine>, events: seq<Event>,
                                         top: Slot) returns (last: Slot)
    requires |xs| == |events| + 1 && Guarded(fm, enc, xs[0], top)
    requires forall j :: 0 <= j < |xs| ==> |xs[j].bytes| == |xs[j].disk.files|
    requires forall j :: 0 <= j < |events| ==> Happens(fm, enc, xs[j], events[j], xs[j + 1])
    ensures Guarded(fm, enc, xs[|events|], last)
    decreases |events|
  {
    last := top;
    if events != [] {
      var n := |events| - 1;
      last := GuardedAlways(fm, enc, xs[..n + 1], events[..n], top);
      assert Happens(fm, enc, xs[n], events[n], xs[n + 1]);
      last := GuardedNext(fm, enc, xs[n], last, events[n], xs[n + 1]);
    }
  }

  lemma GuardedNext(fm: Format, enc: Record -> Bytes, x: Machine, top: Slot, e: Event, y: Machine) returns (last: Slot)
    requires Guarded(fm, enc, x, top) && Happens(fm, enc, x, e, y)
    requires |x.bytes| == |x.disk.files| && |y.bytes| == |y.disk.files|
    ensures Guarded(fm, enc, y, last)
  {
    last := top;
    match e
    case Grow(i, f, c) => CommitEvent(fm, enc, x, top, i, f, c, y);
    case Tear(i, tail) =>
    case Reopen(i) => ReopenEvent(fm, enc, x, i, y);
    case WriteSlot(k) => last := SlotEvent(fm, enc, x, top, k, y);
    case RecoverAll => RecoverEvent(fm, enc, x, top, y);
  }

  // ---- all or nothing, torn commits included ----

  /** All files of `x` opened, one after another. */
  ghost predicate OpenedAll(fm: Format, x: Machine, y: Machine) {
    && |x.bytes| == |x.disk.files| == |y.disk.files| == |y.bytes| && y.disk.journal == x.disk.journal
    && forall i :: 0 <= i < |x.bytes| ==> TearShows(fm, x.bytes[i]) && OpenedOne(fm, x, y, i)
  }

  ghost predicate OpenedOne(fm: Format, x: Machine, y: Machine, i: nat)
    requires i < |x.bytes| == |x.disk.files| == |y.disk.files| == |y.bytes|
  {
    exists l :: && Opens(fm, x.bytes[i].All(), Some(l))
                && y.disk.files[i] == Rewound(x.disk.files[i], l) && y.bytes[i] == x.bytes[i].CutTo(l)
  }

  /**
   * A crash inside a write: some trees have committed (`x` to `y`), and any of them may be torn
   * inside a further commit.  If all files can be opened, recovery brings back every file as it
   * was before the write.
   */
  lemma TornWriteUndone(fm: Format, enc: Record -> Bytes, x: Machine, top: Slot, y: Machine, z: Machine)
    requires Recorded(fm, x.disk, top) && top.lens == x.disk.Lens() && GrownBy(x.disk, y.disk)
    requires AllStand(fm, enc, y) && OpenedAll(fm, y, z)
    ensures z.disk == y.disk && Untorn(z) && AllStand(fm, enc, z)
    ensures z.disk.Recovered(fm) == Some(x.disk)
  {
    AllOpened(fm, enc, y, z);
    GrownRecorded(fm, x.disk, top, y.disk);
    RecoverBrings(fm, y.disk, top);
    RewindGrown(x.disk, y.disk);
  }

  /** Files that could all be opened are as they were, without what was torn. */
  lemma AllOpened(fm: Format, enc: Record -> Bytes, y: Machine, z: Machine)
    requires AllStand(fm, enc, y) && OpenedAll(fm, y, z)
    ensures z.disk == y.disk && Untorn(z) && AllStand(fm, enc, z)
  {
    forall i | 0 <= i < |y.bytes|
      ensures z.disk.files[i] == y.disk.files[i] && z.bytes[i] == FileBytes(y.bytes[i].commits, [])
    {
      assert OpenedOne(fm, y, z, i);
      var l :| && Opens(fm, y.bytes[i].All(), Some(l))
               && z.disk.files[i] == Rewound(y.disk.files[i], l) && z.bytes[i] == y.bytes[i].CutTo(l);
      OpenedAtBoundary(fm, enc, y.disk.files[i], y.bytes[i], Some(l));
      CommitsNotEmpty(fm, y.bytes[i].commits, 0);
      assert y.bytes[i].commits[..|y.bytes[i].commits|] == y.bytes[i].commits;
      CutAtEnd(y.bytes[i], |y.bytes[i].commits|);
    }
    assert z.disk.files == y.disk.files;
  }
}
