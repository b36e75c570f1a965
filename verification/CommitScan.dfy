// Commit protection at the byte level: what a commit writes, and the recovery scan that tells a
// torn tail, which is cut off, from damage in the middle of a file, which is refused.
module CommitScan {
  import opened RecordFile
  import opened Wire
  import opened ScanMachine

  const MAGIC: Bytes := [66, 74, 67, 49]
  const SEARCH_CHUNK: nat := 65536
  const CRC_CHUNK: nat := 4096
  const VERIFY_CAP: nat := 8388608

  function TrailerBytes(crc: nat, commitLen: nat): (b: Bytes)
    requires crc < TWO_32 && commitLen < TWO_32
    ensures |b| == TRAILER_SIZE
  {
    [T_BINARY] + Wr32(12) + MAGIC + Wr32(crc) + Wr32(commitLen)
  }

  /** A binary record of twelve payload bytes starting with the magic. */
  predicate IsTrailer(r: Bytes) {
    |r| == TRAILER_SIZE && r[0] == T_BINARY && Rd32(r, 1) == 12 && r[5..9] == MAGIC
  }

  lemma FourPart(a: Bytes, x: Bytes, z: Bytes)
    requires |x| == 4
    ensures Rd32(a + x + z, |a|) == LeValue(x)
  {
    assert (a + x + z)[|a|..|a| + 4] == x;
  }

  lemma TrailerIs(crc: nat, commitLen: nat)
    requires crc < TWO_32 && commitLen < TWO_32
    ensures var t := TrailerBytes(crc, commitLen);
            IsTrailer(t) && IsRecord(t) && Rd32(t, 9) == crc && Rd32(t, 13) == commitLen
  {
    var t := TrailerBytes(crc, commitLen);
    var a, b, c := Wr32(12), Wr32(crc), Wr32(commitLen);
    WordSizes();
    LeRoundTrip(12, 4);
    LeRoundTrip(crc, 4);
    LeRoundTrip(commitLen, 4);
    assert t == [T_BINARY] + a + (MAGIC + b + c);
    assert t == ([T_BINARY] + a + MAGIC) + b + c;
    assert t == ([T_BINARY] + a + MAGIC + b) + c + [];
    FourPart([T_BINARY], a, MAGIC + b + c);
    FourPart([T_BINARY] + a + MAGIC, b, c);
    FourPart([T_BINARY] + a + MAGIC + b, c, []);
    assert t[5..9] == MAGIC;
  }

  // ---- what commits look like in the file ----

  function SealOf(r: Bytes): Option<Seal> {
    if IsTrailer(r) then Some(Seal(Rd32(r, 9), Rd32(r, 13))) else None
  }

  /** The trailer carries the checksum and the length of the commit it stands in. */
  ghost predicate Seals(fm: Format, t: Bytes, body: Bytes, md: Bytes) {
    && |t| == TRAILER_SIZE && IsRecord(t)
    && SealOf(t) == Some(Seal(fm.Crc(body + md), |body| + TRAILER_SIZE + |md|))
  }

  /** A plain record: neither a trailer nor, where it stands, metadata. */
  ghost function PlainRecord(fm: Format): (nat, Bytes) -> bool {
    (at: nat, r: Bytes) => IsRecord(r) && !IsTrailer(r) && !fm.isMeta(at, r)
  }

  ghost predicate RecordsOk(fm: Format, rs: seq<Bytes>, at: nat) {
    AllRecords(PlainRecord(fm), rs, at)
  }

  /** A well-formed commit starting at offset `at`. */
  ghost predicate CommitOk(fm: Format, c: Commit, at: nat) {
    && RecordsOk(fm, c.recs, at)
    && (c.trailer == [] || Seals(fm, c.trailer, Join(c.recs), c.md))
    && IsRecord(c.md) && !IsTrailer(c.md) && fm.isMeta(at + |Join(c.recs)| + |c.trailer|, c.md)
  }

  ghost function GoodCommit(fm: Format): (nat, Commit) -> bool {
    (at: nat, c: Commit) => CommitOk(fm, c, at)
  }

  ghost predicate CommitsOk(fm: Format, cs: seq<Commit>, at: nat) {
    AllCommits(GoodCommit(fm), cs, at)
  }

  // ---- reading records off the file ----

  /** Size of the whole record at `off`; None when it is unreadable or runs past the end. */
  function ReadRecord(b: Bytes, off: nat): (n: Option<nat>)
    ensures n.Some? ==> n.value > 0 && off + n.value <= |b|
  {
    match ValueSize(b, off)
    case None => None
    case Some(n) => if off + n > |b| then None else Some(n)
  }

  function PieceAt(b: Bytes, off: nat): (p: Option<Piece>)
    ensures p.Some? ==> |p.value.bytes| > 0 && off + |p.value.bytes| <= |b|
  {
    match ReadRecord(b, off)
    case None => None
    case Some(n) => Some(Piece(b[off..off + n], SealOf(b[off..off + n])))
  }

  function ReaderOf(b: Bytes): Reader {
    (off: nat) => PieceAt(b, off)
  }

  // ---- a commit whose checksum verifies, found by its trailer ----

  /** The trailer at `q` and the record after it close a commit whose bytes have the recorded checksum. */
  predicate VerifiesAt(fm: Format, b: Bytes, q: nat) {
    && q + TRAILER_SIZE <= |b| && IsTrailer(b[q..q + TRAILER_SIZE])
    && var crc, len := Rd32(b, q + 9), Rd32(b, q + 13);
       match ReadRecord(b, q + TRAILER_SIZE)
       case None => false
       case Some(m) =>
         var end := q + TRAILER_SIZE + m;
         && len <= end && end - len <= q
         && fm.Crc(b[end - len..q] + b[q + TRAILER_SIZE..end]) == crc
  }

  /** Add a range of the file to a running checksum, a chunk at a time. */
  method CrcOverRange(b: Bytes, from: nat, to: nat, acc0: Bytes) returns (acc: Bytes)
    requires from <= to <= |b|
    ensures acc == acc0 + b[from..to]
  {
    acc := acc0;
    var p := from;
    while p < to
      invariant from <= p <= to
      invariant acc == acc0 + b[from..p]
    {
      var n := if to - p < CRC_CHUNK then to - p else CRC_CHUNK;
      assert b[from..p + n] == b[from..p] + b[p..p + n];
      acc := acc + b[p..p + n];
      p := p + n;
    }
  }

  method CheckAt(fm: Format, b: Bytes, q: nat) returns (ok: bool)
    requires q + TRAILER_SIZE <= |b|
    ensures ok <==> VerifiesAt(fm, b, q)
  {
    if !IsTrailer(b[q..q + TRAILER_SIZE]) {
      return false;
    }
    var crc, len := Rd32(b, q + 9), Rd32(b, q + 13);
    var m := ReadRecord(b, q + TRAILER_SIZE);
    if m == None {
      return false;
    }
    var end := q + TRAILER_SIZE + m.value;
    if len > end || end - len > q {
      return false;
    }
    var acc := CrcOverRange(b, end - len, q, []);
    acc := CrcOverRange(b, q + TRAILER_SIZE, end, acc);
    assert acc == b[end - len..q] + b[q + TRAILER_SIZE..end];
    ok := fm.Crc(acc) == crc;
  }

  /** Search the file from `from` on, in overlapping chunks, for a commit that verifies. */
  method FindVerifiedCommit(fm: Format, b: Bytes, from: nat) returns (found: bool)
    ensures found <==> exists q :: from <= q < |b| && VerifiesAt(fm, b, q)
  {
    found := false;
    var pos := from;
    while pos < |b|
      invariant from <= pos
      invariant forall q :: from <= q < |b| && q < pos ==> !VerifiesAt(fm, b, q)
      decreases |b| - pos
    {
      var n := if |b| - pos < SEARCH_CHUNK then |b| - pos else SEARCH_CHUNK;
      if n < TRAILER_SIZE {
        return;
      }
      var i := 0;
      while i + TRAILER_SIZE <= n
        invariant i <= n
        invariant forall q :: from <= q < pos + i ==> !VerifiesAt(fm, b, q)
      {
        var ok := CheckAt(fm, b, pos + i);
        if ok {
          return true;
        }
        i := i + 1;
      }
      pos := pos + (if n > TRAILER_SIZE then n - (TRAILER_SIZE - 1) else n);
    }
  }

  /** What the scan decides: the end of the last good commit, or a refusal. */
  ghost predicate ScanDecides(fm: Format, b: Bytes, e: Status, good: nat) {
    var st := ScanFrom(fm, ReaderOf(b), |b|, Clean(0));
    && good == st.good
    && (e == State <==> (st.damaged || st.good < |b|) && exists q :: st.good <= q < |b| && VerifiesAt(fm, b, q))
    && (e == Ok || e == State)
  }

  method ScanCommits(fm: Format, b: Bytes) returns (e: Status, good: nat)
    ensures ScanDecides(fm, b, e, good)
    ensures e == Ok && good < |b| ==> forall q :: good <= q < |b| ==> !VerifiesAt(fm, b, q)
  {
    var st := Clean(0);
    while st.pos < |b| && !st.damaged
      invariant st.pos <= |b|
      invariant ScanFrom(fm, ReaderOf(b), |b|, st) == ScanFrom(fm, ReaderOf(b), |b|, Clean(0))
      decreases |b| - st.pos, if st.damaged then 0 else 1
    {
      st := ScanStep(fm, ReaderOf(b), |b|, st);
    }
    good := st.good;
    if st.damaged || good < |b| {
      var found := FindVerifiedCommit(fm, b, good);
      if found {
        return State, good;
      }
    }
    e := Ok;
  }

  // ---- what the reader sees of commits in the file ----

  /** A whole record in the file is what the reader returns there. */
  lemma ReadsPiece(b: Bytes, pos: nat, r: Bytes)
    requires IsRecord(r) && At(b, pos, r)
    ensures ReaderOf(b)(pos) == Some(Piece(r, SealOf(r)))
  {
    SizeInPlace(b, pos, r);
    assert b[pos..pos + |r|] == r;
  }

  /** The reader of a file shows every plain record, whole or torn, as it should. */
  lemma ReaderShows(fm: Format, b: Bytes)
    ensures Shows(fm, ReaderOf(b), b, PlainRecord(fm))
  {
    forall at: nat, r: Bytes | PlainRecord(fm)(at, r) && At(b, at, r)
      ensures ShownWhole(fm, ReaderOf(b), at, r)
    {
      ReadsPiece(b, at, r);
    }
    forall at: nat, r: Bytes | PlainRecord(fm)(at, r) && TornAt(b, at, r)
      ensures ReaderOf(b)(at) == None
    {
      TornRecordSeen(b, at, r);
    }
  }

  lemma RecordsSeen(fm: Format, b: Bytes, rs: seq<Bytes>, at: nat)
    requires RecordsOk(fm, rs, at) && At(b, at, Join(rs))
    ensures SeesRecords(fm, ReaderOf(b), rs, at)
  {
    ReaderShows(fm, b);
    RecordsShown(fm, ReaderOf(b), b, PlainRecord(fm), rs, at);
  }

  lemma EndSeen(fm: Format, b: Bytes, body: Bytes, t: Bytes, md: Bytes, pos: nat)
    requires (t == [] || Seals(fm, t, body, md)) && IsRecord(md) && !IsTrailer(md)
    requires fm.isMeta(pos + |t|, md) && At(b, pos, t + md)
    ensures SeesEnd(fm, ReaderOf(b), body, t, md, pos)
  {
    AtParts(b, pos, t, md);
    if t != [] {
      ReadsPiece(b, pos, t);
    }
    ReadsPiece(b, pos + |t|, md);
  }

  lemma CommitSeen(fm: Format, b: Bytes, c: Commit, at: nat)
    requires CommitOk(fm, c, at) && At(b, at, CommitImage(c))
    ensures SeesCommit(fm, ReaderOf(b), c, at)
  {
    AtParts(b, at, Join(c.recs), c.trailer + c.md);
    RecordsSeen(fm, b, c.recs, at);
    EndSeen(fm, b, Join(c.recs), c.trailer, c.md, at + |Join(c.recs)|);
  }

  lemma AllSeen(fm: Format, b: Bytes, cs: seq<Commit>)
    requires CommitsOk(fm, cs, 0) && At(b, 0, Image(cs))
    ensures SeesAll(fm, ReaderOf(b), cs, 0)
  {
    forall at: nat, c: Commit | GoodCommit(fm)(at, c) && At(b, at, CommitImage(c))
      ensures SeesCommit(fm, ReaderOf(b), c, at)
    {
      CommitSeen(fm, b, c, at);
    }
    CommitsShown(fm, ReaderOf(b), b, GoodCommit(fm), cs, 0);
  }

  // ---- a torn tail ----

  lemma TornRecordSeen(b: Bytes, pos: nat, r: Bytes)
    requires IsRecord(r) && TornAt(b, pos, r)
    ensures SeesTorn(ReaderOf(b), |b|, pos) && ReaderOf(b)(pos) == None
  {
    TornRecord(b, pos, r);
  }

  /** A trailer and metadata that are cut somewhere. */
  lemma TornEndSeen(b: Bytes, pos: nat, t: Bytes, md: Bytes)
    requires IsRecord(md) && (t == [] || (IsRecord(t) && SealOf(t).Some?)) && TornAt(b, pos, t + md)
    ensures SeesTorn(ReaderOf(b), |b|, pos)
  {
    if t == [] {
      assert t + md == md;
      TornRecordSeen(b, pos, md);
    } else {
      TornParts(b, pos, t, md);
      if TornAt(b, pos, t) {
        TornRecordSeen(b, pos, t);
      } else {
        ReadsPiece(b, pos, t);
        TornRecordSeen(b, pos + |t|, md);
      }
    }
  }

  /** What the scan meets in a commit cut short: some whole records, then a torn end. */
  lemma TornCommitSeen(fm: Format, b: Bytes, c: Commit, at: nat) returns (rs: seq<Bytes>)
    requires CommitOk(fm, c, at) && TornAt(b, at, CommitImage(c))
    ensures SeesTornRun(fm, ReaderOf(b), |b|, rs, at)
  {
    TornParts(b, at, Join(c.recs), c.trailer + c.md);
    if TornAt(b, at, Join(c.recs)) {
      ReaderShows(fm, b);
      rs := TornRecordsShown(fm, ReaderOf(b), b, PlainRecord(fm), c.recs, at);
    } else {
      rs := c.recs;
      RecordsSeen(fm, b, c.recs, at);
      TornEndSeen(b, at + |Join(c.recs)|, c.trailer, c.md);
      TornRunIs(fm, ReaderOf(b), |b|, rs, at);
    }
  }

  /** The state the scan of whole commits and a torn one ends in. */
  lemma ScanEndsGood(fm: Format, cs: seq<Commit>, c: Commit, b: Bytes)
    requires CommitsOk(fm, cs, 0) && CommitOk(fm, c, |Image(cs)|)
    requires At(b, 0, Image(cs)) && TornAt(b, |Image(cs)|, CommitImage(c))
    ensures ScanFrom(fm, ReaderOf(b), |b|, Clean(0)).good == |Image(cs)|
  {
    AllSeen(fm, b, cs);
    var rs := TornCommitSeen(fm, b, c, |Image(cs)|);
    ScanAllThenTorn(fm, ReaderOf(b), |b|, cs, rs);
  }

  /**
   * Recovery.  A file of whole commits followed by any proper prefix of the next one is cut back
   * to the last whole commit; it is refused exactly when that prefix happens to contain the
   * image of a trailer that verifies.
   */
  lemma ScanRecovers(fm: Format, cs: seq<Commit>, c: Commit, b: Bytes, e: Status, good: nat)
    requires CommitsOk(fm, cs, 0) && CommitOk(fm, c, |Image(cs)|)
    requires At(b, 0, Image(cs)) && TornAt(b, |Image(cs)|, CommitImage(c))
    requires ScanDecides(fm, b, e, good)
    ensures good == |Image(cs)|
    ensures e == State <==> exists q :: good <= q < |b| && VerifiesAt(fm, b, q)
  {
    ScanEndsGood(fm, cs, c, b);
  }

  /** A file of whole commits, as recovery leaves it, is accepted whole by the next scan. */
  lemma RecoveryIsStable(fm: Format, cs: seq<Commit>, e: Status, good: nat)
    requires CommitsOk(fm, cs, 0) && ScanDecides(fm, Image(cs), e, good)
    ensures e == Ok && good == |Image(cs)|
  {
    var b := Image(cs);
    assert b[0..|b|] == b;
    AllSeen(fm, b, cs);
    ScanExactly(fm, ReaderOf(b), cs);
  }

  // ---- damage in the middle of a file ----

  /** An intact guarded commit verifies wherever it stands. */
  lemma IntactCommitVerifies(fm: Format, b: Bytes, c: Commit, at: nat)
    requires IsRecord(c.md) && Seals(fm, c.trailer, Join(c.recs), c.md) && At(b, at, CommitImage(c))
    ensures VerifiesAt(fm, b, at + |Join(c.recs)|)
  {
    AtParts(b, at, Join(c.recs), c.trailer + c.md);
    AtParts(b, at + |Join(c.recs)|, c.trailer, c.md);
    SealVerifies(fm, b, Join(c.recs), c.trailer, c.md, at);
  }

  lemma SealVerifies(fm: Format, b: Bytes, body: Bytes, t: Bytes, md: Bytes, at: nat)
    requires |t| == TRAILER_SIZE && IsRecord(md) && SealOf(t) == Some(Seal(fm.Crc(body + md), |body| + |t| + |md|))
    requires At(b, at, body) && At(b, at + |body|, t) && At(b, at + |body| + |t|, md)
    ensures VerifiesAt(fm, b, at + |body|)
  {
    var q := at + |body|;
    SizeInPlace(b, q + TRAILER_SIZE, md);
    assert b[q..q + TRAILER_SIZE] == t;
    WordInPlace(b, q, t, 9);
    WordInPlace(b, q, t, 13);
    assert b[at..q] == body && b[q + TRAILER_SIZE..q + TRAILER_SIZE + |md|] == md;
  }

  lemma WordInPlace(b: Bytes, q: nat, t: Bytes, i: nat)
    requires At(b, q, t) && i + 4 <= |t|
    ensures Rd32(b, q + i) == Rd32(t, i)
  {
    SliceOfSlice(b, q, q + |t|, i, i + 4);
  }

  /**
   * No good data is lost.  If an intact guarded commit stands past the point where the forward
   * scan stopped, the file is refused rather than truncated.
   */
  lemma IntactCommitNeverTruncated(fm: Format, b: Bytes, c: Commit, at: nat, e: Status, good: nat)
    requires IsRecord(c.md) && Seals(fm, c.trailer, Join(c.recs), c.md)
    requires At(b, at, CommitImage(c)) && ScanDecides(fm, b, e, good)
    requires good <= at + |Join(c.recs)|
    ensures e == State
  {
    IntactCommitVerifies(fm, b, c, at);
  }

  // ---- the fast check of the tail at open ----

  /** The bytes before the last `metaSize` are a trailer. */
  ghost predicate TailGuarded(b: Bytes, metaSize: nat) {
    metaSize + TRAILER_SIZE <= |b| && IsTrailer(b[|b| - metaSize - TRAILER_SIZE..|b| - metaSize])
  }

  /**
   * The last `metaSize` bytes are one record, and a trailer before them, if there is one, has a
   * plausible length and, unless the commit is oversized, a checksum that verifies.
   */
  ghost predicate TailAccepted(fm: Format, b: Bytes, metaSize: nat) {
    && metaSize <= |b| && ReadRecord(b, |b| - metaSize) == Some(metaSize)
    && (TailGuarded(b, metaSize) ==>
          var q := |b| - metaSize - TRAILER_SIZE;
          && metaSize + TRAILER_SIZE <= Rd32(b, q + 13) <= |b|
          && (Rd32(b, q + 13) <= VERIFY_CAP ==> VerifiesAt(fm, b, q)))
  }

  /** Checksum of the commit of `len` bytes that ends the file, less the trailer at `q`. */
  method TailChecksum(fm: Format, b: Bytes, q: nat, len: nat) returns (v: nat)
    requires q + TRAILER_SIZE <= |b| && |b| - q <= len <= |b|
    ensures v == fm.Crc(b[|b| - len..q] + b[q + TRAILER_SIZE..])
  {
    var acc := CrcOverRange(b, |b| - len, q, []);
    acc := CrcOverRange(b, q + TRAILER_SIZE, |b|, acc);
    assert b[q + TRAILER_SIZE..|b|] == b[q + TRAILER_SIZE..];
    assert acc == b[|b| - len..q] + b[q + TRAILER_SIZE..];
    v := fm.Crc(acc);
  }

  /** For the trailer before the last record, verifying is having the checksum of the tail. */
  lemma TailVerifies(fm: Format, b: Bytes, q: nat, m: nat)
    requires q + TRAILER_SIZE + m == |b| && IsTrailer(b[q..q + TRAILER_SIZE])
             && ReadRecord(b, q + TRAILER_SIZE) == Some(m)
    requires |b| - q <= Rd32(b, q + 13) <= |b|
    ensures VerifiesAt(fm, b, q)
       <==> fm.Crc(b[|b| - Rd32(b, q + 13)..q] + b[q + TRAILER_SIZE..]) == Rd32(b, q + 9)
  {
    assert b[q + TRAILER_SIZE..|b|] == b[q + TRAILER_SIZE..];
  }

  method CheckTail(fm: Format, b: Bytes, metaSize: nat) returns (e: Status, md: Bytes)
    ensures e == Ok <==> TailAccepted(fm, b, metaSize)
    ensures e == Ok ==> md == b[|b| - metaSize..]
  {
    md := [];
    if |b| < metaSize {
      return Eof, md;
    }
    var at := |b| - metaSize;
    var m := ReadRecord(b, at);
    if metaSize + TRAILER_SIZE <= |b| && IsTrailer(b[at - TRAILER_SIZE..at]) {
      var q := at - TRAILER_SIZE;
      var crc, len := Rd32(b, q + 9), Rd32(b, q + 13);
      if len > |b| || len < metaSize + TRAILER_SIZE {
        return State, md;
      }
      if len <= VERIFY_CAP {
        var v := TailChecksum(fm, b, q, len);
        if m == Some(metaSize) {
          TailVerifies(fm, b, q, metaSize);
        }
        if v != crc {
          return State, md;
        }
      }
    }
    if m == None {
      return Eof, md;
    }
    if m.value != metaSize {
      return State, md;
    }
    return Ok, b[at..];
  }

  lemma TailOfSeal(fm: Format, b: Bytes, body: Bytes, t: Bytes, md: Bytes, at: nat)
    requires |t| == TRAILER_SIZE && IsTrailer(t) && IsRecord(md)
    requires Rd32(t, 13) == |body| + |t| + |md| && |b| == at + |body| + |t| + |md|
    requires At(b, at + |body|, t) && At(b, at + |body| + |t|, md) && VerifiesAt(fm, b, at + |body|)
    ensures TailAccepted(fm, b, |md|)
  {
    var q := at + |body|;
    assert q == |b| - |md| - TRAILER_SIZE;
    SizeInPlace(b, q + |t|, md);
    WordInPlace(b, q, t, 13);
  }

  /** The tail check accepts what a guarded commit wrote, with its metadata. */
  lemma TailOfCommit(fm: Format, b: Bytes, c: Commit, at: nat)
    requires CommitOk(fm, c, at) && c.trailer != []
    requires At(b, at, CommitImage(c)) && |b| == at + |CommitImage(c)|
    ensures TailAccepted(fm, b, |c.md|) && At(b, |b| - |c.md|, c.md)
  {
    var body := Join(c.recs);
    AtParts(b, at, body, c.trailer + c.md);
    AtParts(b, at + |body|, c.trailer, c.md);
    SealVerifies(fm, b, body, c.trailer, c.md, at);
    TailOfSeal(fm, b, body, c.trailer, c.md, at);
  }
}
