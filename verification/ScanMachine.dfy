// The forward recovery scan as a state machine over whatever a reader returns: it follows commits
// record by record and stops at the first thing that does not fit.
module ScanMachine {
  import opened RecordFile

  /** The checksum, and which records (by offset and bytes) are the metadata that ends a commit. */
  datatype Format = Format(checksum: Bytes -> nat, isMeta: (nat, Bytes) -> bool) {
    function Crc(b: Bytes): (v: nat)
      ensures v < 0x1_0000_0000
    {
      checksum(b) % 0x1_0000_0000
    }
  }

  /** The two words a trailer carries: checksum and commit length. */
  datatype Seal = Seal(crc: nat, len: nat)

  /** A record as the scan sees it: its bytes, and its seal when it is a trailer. */
  datatype Piece = Piece(bytes: Bytes, seal: Option<Seal>)

  type Reader = nat -> Option<Piece>

  /**
   * Scan state: position, end of the last accepted commit, start of the commit being
   * accumulated, the bytes its checksum covers so far, and its trailer once seen.
   */
  datatype ScanState = ScanState(pos: nat, good: nat, epoch: nat, acc: Bytes, trailer: Option<Seal>, damaged: bool)

  function Clean(p: nat): ScanState {
    ScanState(p, p, p, [], None, false)
  }

  function ScanStep(fm: Format, rd: Reader, len: nat, st: ScanState): (r: ScanState)
    requires st.pos < len
    ensures r.damaged || st.pos < r.pos <= len
  {
    match rd(st.pos)
    case None => st.(damaged := true)
    case Some(Piece(rec, seal)) =>
      var end := st.pos + |rec|;
      if rec == [] || end > len then st.(damaged := true)
      else if seal.Some? then
        if st.trailer.Some? then st.(damaged := true) else st.(trailer := seal, pos := end)
      else
        var isEnd := fm.isMeta(st.pos, rec);
        if st.trailer.Some? && (!isEnd || st.trailer.value.len != end - st.epoch
            || fm.Crc(st.acc + rec) != st.trailer.value.crc) then
          st.(damaged := true)
        else if isEnd then Clean(end)
        else st.(pos := end, acc := st.acc + rec)
  }

  function ScanFrom(fm: Format, rd: Reader, len: nat, st: ScanState): (r: ScanState)
    requires st.pos <= len
    decreases len - st.pos, if st.damaged then 0 else 1
  {
    if st.damaged || st.pos >= len then st else ScanFrom(fm, rd, len, ScanStep(fm, rd, len, st))
  }

  // ---- one step ----

  lemma StepRecord(fm: Format, rd: Reader, len: nat, st: ScanState, r: Bytes)
    requires r != [] && rd(st.pos) == Some(Piece(r, None)) && st.pos + |r| <= len && !fm.isMeta(st.pos, r)
    requires !st.damaged && st.trailer == None
    ensures ScanFrom(fm, rd, len, st) == ScanFrom(fm, rd, len, st.(pos := st.pos + |r|, acc := st.acc + r))
  {
  }

  lemma StepTrailer(fm: Format, rd: Reader, len: nat, st: ScanState, t: Bytes, seal: Seal)
    requires t != [] && rd(st.pos) == Some(Piece(t, Some(seal))) && st.pos + |t| <= len
    requires !st.damaged && st.trailer == None
    ensures ScanFrom(fm, rd, len, st) == ScanFrom(fm, rd, len, st.(pos := st.pos + |t|, trailer := Some(seal)))
  {
  }

  lemma StepMeta(fm: Format, rd: Reader, len: nat, st: ScanState, md: Bytes)
    requires md != [] && rd(st.pos) == Some(Piece(md, None)) && st.pos + |md| <= len && fm.isMeta(st.pos, md)
             && !st.damaged
    requires st.trailer.Some? ==>
             st.trailer.value.crc == fm.Crc(st.acc + md) && st.trailer.value.len == st.pos + |md| - st.epoch
    ensures ScanFrom(fm, rd, len, st) == ScanFrom(fm, rd, len, Clean(st.pos + |md|))
  {
  }

  // ---- commits ----

  /** Records, the trailer that guards them (empty in an unguarded commit), and the metadata record. */
  datatype Commit = Commit(recs: seq<Bytes>, trailer: Bytes, md: Bytes)

  ghost function Join(rs: seq<Bytes>): Bytes {
    if rs == [] then [] else rs[0] + Join(rs[1..])
  }

  ghost function CommitImage(c: Commit): Bytes {
    Join(c.recs) + (c.trailer + c.md)
  }

  ghost function Image(cs: seq<Commit>): Bytes {
    if cs == [] then [] else CommitImage(cs[0]) + Image(cs[1..])
  }

  /** The reader returns the plain records `rs`, none of them metadata, one after another from `at` on. */
  ghost predicate SeesRecords(fm: Format, rd: Reader, rs: seq<Bytes>, at: nat)
    decreases |rs|
  {
    rs == [] ||
    (rs[0] != [] && rd(at) == Some(Piece(rs[0], None)) && !fm.isMeta(at, rs[0])
        && SeesRecords(fm, rd, rs[1..], at + |rs[0]|))
  }

  /** The reader returns trailer and metadata of a commit with body `body` that started `|body|` bytes before `pos`. */
  ghost predicate SeesEnd(fm: Format, rd: Reader, body: Bytes, t: Bytes, md: Bytes, pos: nat) {
    && md != [] && rd(pos + |t|) == Some(Piece(md, None)) && fm.isMeta(pos + |t|, md)
    && (t != [] ==> rd(pos) == Some(Piece(t, Some(Seal(fm.Crc(body + md), |body| + |t| + |md|)))))
  }

  ghost predicate SeesCommit(fm: Format, rd: Reader, c: Commit, at: nat) {
    SeesRecords(fm, rd, c.recs, at) && SeesEnd(fm, rd, Join(c.recs), c.trailer, c.md, at + |Join(c.recs)|)
  }

  ghost predicate SeesAll(fm: Format, rd: Reader, cs: seq<Commit>, at: nat)
    decreases |cs|
  {
    cs == [] || (SeesCommit(fm, rd, cs[0], at) && SeesAll(fm, rd, cs[1..], at + |CommitImage(cs[0])|))
  }

  /** The scan passes over plain records, adding them to the checksum. */
  lemma {:induction false} ScanRecords(fm: Format, rd: Reader, len: nat, rs: seq<Bytes>, at: nat, epoch: nat,
                                       acc: Bytes)
    requires SeesRecords(fm, rd, rs, at) && at + |Join(rs)| <= len
    ensures ScanFrom(fm, rd, len, ScanState(at, epoch, epoch, acc, None, false))
         == ScanFrom(fm, rd, len, ScanState(at + |Join(rs)|, epoch, epoch, acc + Join(rs), None, false))
    decreases |rs|
  {
    if rs == [] {
      assert acc + Join(rs) == acc;
    } else {
      var r := rs[0];
      StepRecord(fm, rd, len, ScanState(at, epoch, epoch, acc, None, false), r);
      ScanRecords(fm, rd, len, rs[1..], at + |r|, epoch, acc + r);
      assert acc + r + Join(rs[1..]) == acc + Join(rs);
    }
  }

  /** From a clean state over the records of one commit. */
  lemma ScanBody(fm: Format, rd: Reader, len: nat, rs: seq<Bytes>, at: nat)
    requires SeesRecords(fm, rd, rs, at) && at + |Join(rs)| <= len
    ensures ScanFrom(fm, rd, len, Clean(at))
            == ScanFrom(fm, rd, len, ScanState(at + |Join(rs)|, at, at, Join(rs), None, false))
  {
    assert [] + Join(rs) == Join(rs);
    ScanRecords(fm, rd, len, rs, at, at, []);
  }

  /** A trailer and the metadata that it seals with the records before. */
  lemma StepGuarded(fm: Format, rd: Reader, len: nat, st: ScanState, t: Bytes, md: Bytes)
    requires t != [] && SeesEnd(fm, rd, st.acc, t, md, st.pos) && st.pos + |t| + |md| <= len
    requires !st.damaged && st.trailer == None && st.pos == st.epoch + |st.acc|
    ensures ScanFrom(fm, rd, len, st) == ScanFrom(fm, rd, len, Clean(st.pos + |t| + |md|))
  {
    var seal := Seal(fm.Crc(st.acc + md), |st.acc| + |t| + |md|);
    StepTrailer(fm, rd, len, st, t, seal);
    StepMeta(fm, rd, len, st.(pos := st.pos + |t|, trailer := Some(seal)), md);
  }

  /** Trailer, if any, and metadata end a commit. */
  lemma ScanEnd(fm: Format, rd: Reader, len: nat, at: nat, body: Bytes, t: Bytes, md: Bytes)
    requires SeesEnd(fm, rd, body, t, md, at + |body|) && at + |body| + |t| + |md| <= len
    ensures ScanFrom(fm, rd, len, ScanState(at + |body|, at, at, body, None, false))
         == ScanFrom(fm, rd, len, Clean(at + |body| + |t| + |md|))
  {
    var s1 := ScanState(at + |body|, at, at, body, None, false);
    if t == [] {
      StepMeta(fm, rd, len, s1, md);
    } else {
      StepGuarded(fm, rd, len, s1, t, md);
    }
  }

  /** A whole commit takes the scan from one clean state to the next. */
  lemma ScanCommit(fm: Format, rd: Reader, len: nat, c: Commit, at: nat)
    requires SeesCommit(fm, rd, c, at) && at + |CommitImage(c)| <= len
    ensures ScanFrom(fm, rd, len, Clean(at)) == ScanFrom(fm, rd, len, Clean(at + |CommitImage(c)|))
  {
    ScanBody(fm, rd, len, c.recs, at);
    ScanEnd(fm, rd, len, at, Join(c.recs), c.trailer, c.md);
  }

  /** Every commit is accepted. */
  lemma {:induction false} ScanAll(fm: Format, rd: Reader, len: nat, cs: seq<Commit>, at: nat)
    requires SeesAll(fm, rd, cs, at) && at + |Image(cs)| <= len
    ensures ScanFrom(fm, rd, len, Clean(at)) == ScanFrom(fm, rd, len, Clean(at + |Image(cs)|))
    decreases |cs|
  {
    if cs != [] {
      ScanCommit(fm, rd, len, cs[0], at);
      ScanAll(fm, rd, len, cs[1..], at + |CommitImage(cs[0])|);
    }
  }

  /** Nothing more can be read at `pos`, or only a trailer and nothing after it. */
  ghost predicate SeesTorn(rd: Reader, len: nat, pos: nat) {
    || pos >= len || rd(pos) == None
    || (rd(pos).Some? && rd(pos).value.seal.Some? && rd(pos).value.bytes != []
        && (pos + |rd(pos).value.bytes| >= len || rd(pos + |rd(pos).value.bytes|) == None))
  }

  /** A scan that runs into a torn end keeps the last good commit. */
  lemma ScanTornEnd(fm: Format, rd: Reader, len: nat, st: ScanState)
    requires SeesTorn(rd, len, st.pos) && st.pos <= len && !st.damaged && st.trailer == None
    ensures ScanFrom(fm, rd, len, st).good == st.good
  {
    if st.pos < len && rd(st.pos).Some? {
      var p := rd(st.pos).value;
      if st.pos + |p.bytes| <= len {
        StepTrailer(fm, rd, len, st, p.bytes, p.seal.value);
      }
    }
  }

  /** The reader returns the plain records `rs` from `at` on, and then a torn end. */
  ghost predicate SeesTornRun(fm: Format, rd: Reader, len: nat, rs: seq<Bytes>, at: nat)
    decreases |rs|
  {
    if rs == [] then at <= len && SeesTorn(rd, len, at)
    else
      && rs[0] != [] && rd(at) == Some(Piece(rs[0], None)) && !fm.isMeta(at, rs[0])
      && SeesTornRun(fm, rd, len, rs[1..], at + |rs[0]|)
  }

  lemma {:induction false} TornRunIs(fm: Format, rd: Reader, len: nat, rs: seq<Bytes>, at: nat)
    ensures SeesTornRun(fm, rd, len, rs, at)
       <==> SeesRecords(fm, rd, rs, at) && at + |Join(rs)| <= len && SeesTorn(rd, len, at + |Join(rs)|)
    decreases |rs|
  {
    if rs != [] {
      TornRunIs(fm, rd, len, rs[1..], at + |rs[0]|);
    }
  }

  /** Whole records and then a torn end: the commit before them stays the last good one. */
  lemma ScanTorn(fm: Format, rd: Reader, len: nat, rs: seq<Bytes>, at: nat)
    requires SeesTornRun(fm, rd, len, rs, at)
    ensures at <= len && ScanFrom(fm, rd, len, Clean(at)).good == at
  {
    TornRunIs(fm, rd, len, rs, at);
    ScanBody(fm, rd, len, rs, at);
    ScanTornEnd(fm, rd, len, ScanState(at + |Join(rs)|, at, at, Join(rs), None, false));
  }

  /** Whole commits, whole records, and a torn end. */
  lemma ScanAllThenTorn(fm: Format, rd: Reader, len: nat, cs: seq<Commit>, rs: seq<Bytes>)
    requires SeesAll(fm, rd, cs, 0) && SeesTornRun(fm, rd, len, rs, |Image(cs)|)
    ensures ScanFrom(fm, rd, len, Clean(0)).good == |Image(cs)|
  {
    ScanTorn(fm, rd, len, rs, |Image(cs)|);
    ScanAll(fm, rd, len, cs, 0);
  }

  /** Whole commits and nothing else. */
  lemma ScanExactly(fm: Format, rd: Reader, cs: seq<Commit>)
    requires SeesAll(fm, rd, cs, 0)
    ensures ScanFrom(fm, rd, |Image(cs)|, Clean(0)) == Clean(|Image(cs)|)
  {
    ScanAll(fm, rd, |Image(cs)|, cs, 0);
  }

  // ---- bytes in place ----

  ghost predicate At(b: Bytes, pos: nat, r: Bytes) {
    pos + |r| <= |b| && b[pos..pos + |r|] == r
  }

  lemma AtParts(b: Bytes, pos: nat, x: Bytes, y: Bytes)
    ensures At(b, pos, x + y) <==> At(b, pos, x) && At(b, pos + |x|, y)
  {
    if At(b, pos, x + y) {
      assert b[pos..pos + |x|] == (x + y)[..|x|] by {
        assert b[pos..pos + |x|] == b[pos..pos + |x + y|][..|x|];
      }
      assert b[pos + |x|..pos + |x| + |y|] == b[pos..pos + |x + y|][|x|..];
    }
    if At(b, pos, x) && At(b, pos + |x|, y) {
      assert b[pos..pos + |x + y|] == b[pos..pos + |x|] + b[pos + |x|..pos + |x| + |y|];
    }
  }

  /** What is left of the file from `pos` on is a proper prefix of `r`. */
  ghost predicate TornAt(b: Bytes, pos: nat, r: Bytes) {
    pos <= |b| && |b| - pos < |r| && b[pos..] == r[..|b| - pos]
  }

  lemma TornParts(b: Bytes, pos: nat, x: Bytes, y: Bytes)
    requires TornAt(b, pos, x + y)
    ensures TornAt(b, pos, x) || (At(b, pos, x) && TornAt(b, pos + |x|, y))
  {
    var k := |b| - pos;
    if k < |x| {
      assert (x + y)[..k] == x[..k];
    } else {
      assert (x + y)[..k] == x + y[..k - |x|];
      assert b[pos..pos + |x|] == b[pos..][..|x|] == x;
      assert b[pos + |x|..] == b[pos..][|x|..];
    }
  }

  // ---- runs of records and of commits ----

  /** Every record of the run satisfies `ok` at the offset where it stands. */
  ghost predicate AllRecords(ok: (nat, Bytes) -> bool, rs: seq<Bytes>, at: nat)
    decreases |rs|
  {
    rs == [] || (ok(at, rs[0]) && AllRecords(ok, rs[1..], at + |rs[0]|))
  }

  ghost predicate AllCommits(ok: (nat, Commit) -> bool, cs: seq<Commit>, at: nat)
    decreases |cs|
  {
    cs == [] || (ok(at, cs[0]) && AllCommits(ok, cs[1..], at + |CommitImage(cs[0])|))
  }

  lemma {:induction false} RecordsSnoc(ok: (nat, Bytes) -> bool, rs: seq<Bytes>, at: nat, r: Bytes)
    requires AllRecords(ok, rs, at) && ok(at + |Join(rs)|, r)
    ensures AllRecords(ok, rs + [r], at) && Join(rs + [r]) == Join(rs) + r
    decreases |rs|
  {
    if rs == [] {
      assert [r][1..] == [] && [] + [r] == [r];
      assert Join([r]) == r + Join([]);
    } else {
      assert (rs + [r])[1..] == rs[1..] + [r];
      RecordsSnoc(ok, rs[1..], at + |rs[0]|, r);
    }
  }

  /** A run of commits grows at its end, and only so. */
  lemma {:induction false} CommitsSnoc(ok: (nat, Commit) -> bool, cs: seq<Commit>, at: nat, c: Commit)
    ensures AllCommits(ok, cs + [c], at) <==> AllCommits(ok, cs, at) && ok(at + |Image(cs)|, c)
    ensures Image(cs + [c]) == Image(cs) + CommitImage(c)
    decreases |cs|
  {
    if cs == [] {
      assert [] + [c] == [c] && [c][1..] == [];
      assert Image([c]) == CommitImage(c) + Image([]);
    } else {
      assert (cs + [c])[1..] == cs[1..] + [c];
      CommitsSnoc(ok, cs[1..], at + |CommitImage(cs[0])|, c);
    }
  }

  // ---- what a faithful reader shows ----

  ghost predicate ShownWhole(fm: Format, rd: Reader, at: nat, r: Bytes) {
    r != [] && rd(at) == Some(Piece(r, None)) && !fm.isMeta(at, r)
  }

  /** The reader shows every `ok` record of `b` whole, and none that is cut off at the end of `b`. */
  ghost predicate Shows(fm: Format, rd: Reader, b: Bytes, ok: (nat, Bytes) -> bool) {
    && (forall at: nat, r: Bytes :: ok(at, r) && At(b, at, r) ==> ShownWhole(fm, rd, at, r))
    && (forall at: nat, r: Bytes :: ok(at, r) && TornAt(b, at, r) ==> rd(at) == None)
  }

  lemma {:induction false} RecordsShown(fm: Format, rd: Reader, b: Bytes, ok: (nat, Bytes) -> bool, rs: seq<Bytes>,
                                        at: nat)
    requires Shows(fm, rd, b, ok) && AllRecords(ok, rs, at) && At(b, at, Join(rs))
    ensures SeesRecords(fm, rd, rs, at)
    decreases |rs|
  {
    if rs != [] {
      AtParts(b, at, rs[0], Join(rs[1..]));
      assert ShownWhole(fm, rd, at, rs[0]);
      RecordsShown(fm, rd, b, ok, rs[1..], at + |rs[0]|);
    }
  }

  /** A file torn inside a run of plain records: the whole ones, then the one that is cut. */
  lemma {:induction false} TornRecordsShown(fm: Format, rd: Reader, b: Bytes, ok: (nat, Bytes) -> bool, rs: seq<Bytes>,
                                            at: nat)
    returns (whole: seq<Bytes>)
    requires Shows(fm, rd, b, ok) && AllRecords(ok, rs, at) && TornAt(b, at, Join(rs))
    ensures SeesTornRun(fm, rd, |b|, whole, at)
    decreases |rs|
  {
    var r := rs[0];
    TornParts(b, at, r, Join(rs[1..]));
    if TornAt(b, at, r) {
      whole := [];
    } else {
      assert ShownWhole(fm, rd, at, r);
      whole := TornRecordsShown(fm, rd, b, ok, rs[1..], at + |r|);
      assert ([r] + whole)[1..] == whole;
      whole := [r] + whole;
    }
  }

  /** The reader shows every `ok` commit that stands whole in `b`. */
  ghost predicate ShowsCommits(fm: Format, rd: Reader, b: Bytes, ok: (nat, Commit) -> bool) {
    forall at: nat, c: Commit :: ok(at, c) && At(b, at, CommitImage(c)) ==> SeesCommit(fm, rd, c, at)
  }

  lemma {:induction false} CommitsShown(fm: Format, rd: Reader, b: Bytes, ok: (nat, Commit) -> bool, cs: seq<Commit>,
                                        at: nat)
    requires ShowsCommits(fm, rd, b, ok) && AllCommits(ok, cs, at) && At(b, at, Image(cs))
    ensures SeesAll(fm, rd, cs, at)
    decreases |cs|
  {
    if cs != [] {
      AtParts(b, at, CommitImage(cs[0]), Image(cs[1..]));
      assert SeesCommit(fm, rd, cs[0], at);
      CommitsShown(fm, rd, b, ok, cs[1..], at + |CommitImage(cs[0])|);
    }
  }
}
