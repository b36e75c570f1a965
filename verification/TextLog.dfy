// The versioned text log: full snapshots with deltas between them, one entry and one metadata
// record per version, and an index of entries that is rebuilt when the log is opened.
module TextLog {
  import opened RecordFile
  import opened Wire
  import opened Delta

  datatype Outcome = Fine | OutOfRange | BadState | BadHash | OutOfMemory | HostFailed

  datatype EntryKind = Snapshot | DiffBin

  /** What the log's file holds, record by record; trailers are left to the file layer. */
  datatype LogRec =
    | LogHeader
    | Entry(kind: EntryKind, version: nat, hash: Bytes, data: Bytes)
    | Metadata(version: nat, snap: Option<nat>, latest: Option<nat>, diffCount: nat, perSnapshot: nat, base: nat)

  /** Where an entry stands and what it is. */
  datatype Ent = Ent(off: nat, version: nat, kind: EntryKind)

  /** Encoded size of an entry without its data, as its container counts it. */
  const ENTRY_OVERHEAD: nat := 153

  /** Encoded size of a metadata record: null or a pointer for the two places, and the base of a later tile. */
  function MetaSize(md: LogRec): nat
    requires md.Metadata?
  {
    116 + (if md.snap.Some? then 9 else 1) + (if md.latest.Some? then 9 else 1) + (if md.base != 0 then 24 else 0)
  }

  /** The bytes of a commit that has to go without a trailer: an entry with `n` bytes of data, and metadata. */
  function CommitSize(md: LogRec, n: nat): nat
    requires md.Metadata?
  {
    5 + ENTRY_OVERHEAD + n + MetaSize(md)
  }

  /** Deltas since the last snapshot after `k` versions. */
  ghost function Since(k: nat, dps: nat): nat {
    if k <= 1 then 0 else if Since(k - 1, dps) >= dps then 0 else Since(k - 1, dps) + 1
  }

  lemma {:induction false} SinceBound(k: nat, dps: nat)
    ensures Since(k, dps) <= dps && (k > 0 ==> Since(k, dps) < k)
  {
    if k > 1 {
      SinceBound(k - 1, dps);
    }
  }

  ghost function KindOf(i: nat, dps: nat): EntryKind {
    if Since(i + 1, dps) == 0 then Snapshot else DiffBin
  }

  /** The metadata record that ends the commit of version `base + k`. */
  ghost function MetaAfter(k: nat, base: nat, dps: nat): LogRec
  {
    if k == 0 then Metadata(base, None, None, 0, dps, base)
    else
      SinceBound(k, dps);
      Metadata(base + k, Some(2 * (k - Since(k, dps))), Some(2 * k), Since(k, dps), dps, base)
  }

  /** The entry of version `base + 1 + i` and what it takes to rebuild its text. */
  ghost predicate EntryOk(sha: Bytes -> Bytes, r: LogRec, i: nat, base: nat, dps: nat, texts: seq<Bytes>)
    requires i < |texts|
  {
    && r.Entry? && r.kind == KindOf(i, dps) && r.version == base + 1 + i && r.hash == sha(texts[i])
    && if r.kind == Snapshot then r.data == texts[i] else i > 0 && Target(texts[i - 1], r.data, 0) == Some(texts[i])
  }

  /** The records of a log that holds `texts` as versions `base + 1`, `base + 2`, ... */
  ghost predicate LogOk(sha: Bytes -> Bytes, file: seq<LogRec>, base: nat, dps: nat, texts: seq<Bytes>) {
    && dps >= 1 && |file| == 2 + 2 * |texts| && file[0] == LogHeader && file[1] == MetaAfter(0, base, dps)
    && (forall i :: 0 <= i < |texts| ==> RoundOk(sha, file, i, base, dps, texts))
    && (forall i :: 0 <= i < |texts| ==> |texts[i]| < TWO_32)
  }

  ghost predicate RoundOk(sha: Bytes -> Bytes, file: seq<LogRec>, i: nat, base: nat, dps: nat, texts: seq<Bytes>)
    requires i < |texts| && 3 + 2 * i < |file|
  {
    EntryOk(sha, file[2 + 2 * i], i, base, dps, texts) && file[3 + 2 * i] == MetaAfter(i + 1, base, dps)
  }

  ghost predicate IndexOk(ents: seq<Ent>, base: nat, dps: nat, n: nat) {
    |ents| == n && forall i :: 0 <= i < n ==> ents[i] == Ent(2 + 2 * i, base + 1 + i, KindOf(i, dps))
  }

  lemma LogGrows(sha: Bytes -> Bytes, file: seq<LogRec>, base: nat, dps: nat, texts: seq<Bytes>, text: Bytes,
                 entry: LogRec, md: LogRec)
    requires LogOk(sha, file, base, dps, texts) && |text| < TWO_32
    requires EntryOk(sha, entry, |texts|, base, dps, texts + [text]) && md == MetaAfter(|texts| + 1, base, dps)
    ensures LogOk(sha, file + [entry, md], base, dps, texts + [text])
  {
    var f, ts := file + [entry, md], texts + [text];
    forall i | 0 <= i < |ts| ensures RoundOk(sha, f, i, base, dps, ts) {
      if i < |texts| {
        assert RoundOk(sha, file, i, base, dps, texts);
        assert f[2 + 2 * i] == file[2 + 2 * i] && f[3 + 2 * i] == file[3 + 2 * i];
        assert ts[i] == texts[i] && (i > 0 ==> ts[i - 1] == texts[i - 1]);
      }
    }
  }

  /** A log's file and everything its handle keeps about it. */
  datatype LogState = LogState(file: seq<LogRec>, md: LogRec, ents: seq<Ent>) {
    ghost predicate Holds(sha: Bytes -> Bytes, texts: seq<Bytes>) {
      && md.Metadata? && LogOk(sha, file, md.base, md.perSnapshot, texts)
         && IndexOk(ents, md.base, md.perSnapshot, |texts|)
      && md == MetaAfter(|texts|, md.base, md.perSnapshot)
    }
  }

  /** One more commit: an entry that rebuilds to `text` and the metadata after it. */
  lemma StateGrows(sha: Bytes -> Bytes, st: LogState, texts: seq<Bytes>, text: Bytes, entry: LogRec, md: LogRec)
    requires st.Holds(sha, texts) && |text| < TWO_32
    requires md == MetaAfter(|texts| + 1, st.md.base, st.md.perSnapshot)
    requires EntryOk(sha, entry, |texts|, st.md.base, st.md.perSnapshot, texts + [text])
    ensures LogState(st.file + [entry, md], md, st.ents + [Ent(|st.file|, md.version, entry.kind)]).Holds(sha,
            texts + [text])
  {
    LogGrows(sha, st.file, st.md.base, st.md.perSnapshot, texts, text, entry, md);
  }

  class TextLog {
    const sha: Bytes -> Bytes
    const gram: Bytes -> nat
    var file: seq<LogRec>
    var version: nat
    var base: nat
    var diffCount: nat
    var perSnapshot: nat
    var snap: Option<nat>
    var latest: Option<nat>
    var ents: seq<Ent>
    var cached: Option<Bytes>
    ghost var texts: seq<Bytes>

    ghost predicate Valid()
      reads this
    {
      && LogState(file, Metadata(version, snap, latest, diffCount, perSnapshot, base), ents).Holds(sha, texts)
      && (cached.Some? ==> texts != [] && cached.value == texts[|texts| - 1])
    }

    /** Nothing but the cache of the newest text differs. */
    twostate predicate SameLog()
      reads this
    {
      && file == old(file) && version == old(version) && base == old(base) && diffCount == old(diffCount)
      && perSnapshot == old(perSnapshot) && snap == old(snap) && latest == old(latest) && ents == old(ents)
         && texts == old(texts)
    }

    constructor Bare(sha: Bytes -> Bytes, gram: Bytes -> nat)
      ensures this.sha == sha && this.gram == gram && cached == None && file == [] && ents == [] && texts == []
      ensures diffCount == 0 && snap == latest == None
    {
      this.sha, this.gram := sha, gram;
      file, version, base, diffCount, perSnapshot, snap, latest, ents, cached := [], 0, 0, 0, 0, None, None, [], None;
      texts := [];
    }

    /** A fresh log, or a fresh tile whose first version is `base + 1`. */
    static method Create(sha: Bytes -> Bytes, gram: Bytes -> nat, dps: int, base: nat, hostOk: bool)
      returns (ok: bool, t: TextLog)
      ensures fresh(t) && t.sha == sha && t.gram == gram
      ensures ok <==> dps >= 1 && hostOk
      ensures ok ==> t.Valid() && t.texts == [] && t.version == t.base == base && t.perSnapshot == dps
    {
      t := new TextLog.Bare(sha, gram);
      if dps < 1 || !hostOk {
        return false, t;
      }
      t.version, t.base, t.perSnapshot := base, base, dps;
      t.file := [LogHeader, t.MetaNow()];
      ok := true;
    }

    function MetaNow(): LogRec
      reads this
    {
      Metadata(version, snap, latest, diffCount, perSnapshot, base)
    }

    // ---- reading ----

    /** The newest entry at or before `v`, and the newest snapshot at or before that. */
    method FindChain(v: nat) returns (start: nat, hi: nat)
      requires Valid() && base < v <= version
      ensures hi == v - base - 1 && start <= hi < |ents| && ents[start].kind == Snapshot
      ensures hi - start == Since(hi + 1, perSnapshot) <= perSnapshot
      ensures forall i :: start < i <= hi ==> ents[i].kind == DiffBin
    {
      hi := |ents| - 1;
      while ents[hi].version > v
        invariant v - base - 1 <= hi < |ents|
      {
        hi := hi - 1;
      }
      start := hi;
      SinceBound(hi + 1, perSnapshot);
      while ents[start].kind != Snapshot
        invariant start <= hi && Since(start + 1, perSnapshot) + (hi - start) == Since(hi + 1, perSnapshot)
        invariant forall i :: start < i <= hi ==> ents[i].kind == DiffBin
        decreases start
      {
        SinceBound(start + 1, perSnapshot);
        start := start - 1;
      }
    }

    /** Apply one entry to the text built so far. */
    method Replay(i: nat, text0: Bytes) returns (e: Outcome, text: Bytes)
      requires Valid() && i < |texts| && (ents[i].kind == DiffBin ==> i > 0 && text0 == texts[i - 1])
      ensures e == Fine && text == texts[i]
    {
      assert RoundOk(sha, file, i, base, perSnapshot, texts);
      var r := file[ents[i].off];
      if r.kind == Snapshot {
        return Fine, r.data;
      }
      var applied := ApplyDelta(text0, r.data);
      if applied == None {
        return BadState, text0;
      }
      return Fine, applied.value;
    }

    /** Rebuild the text of version `v` from its snapshot and the deltas after it. */
    method Reconstruct(v: nat) returns (e: Outcome, text: Bytes, deltas: nat)
      requires Valid() && base < v <= version
      ensures e == Fine && text == texts[v - base - 1] && deltas <= perSnapshot
    {
      var start, hi := FindChain(v);
      text, deltas := [], 0;
      var i := start;
      while i <= hi
        invariant start <= i <= hi + 1 && (i > start ==> text == texts[i - 1])
                  && deltas == (if i == start then 0 else i - start - 1)
      {
        e, text := Replay(i, text);
        if e != Fine {
          return;
        }
        if ents[i].kind == DiffBin {
          deltas := deltas + 1;
        }
        i := i + 1;
      }
      assert RoundOk(sha, file, hi, base, perSnapshot, texts);
      var h := file[ents[hi].off].hash;
      if |h| == 64 && sha(text) != h {
        return BadHash, text, deltas;
      }
      e := Fine;
    }

    /** The text that was added as version `v`, with at most `perSnapshot` deltas applied. */
    method GetVersion(v: nat) returns (e: Outcome, text: Bytes, deltas: nat)
      requires Valid()
      modifies this`cached
      ensures Valid() && SameLog()
      ensures e == if base < v <= version then Fine else OutOfRange
      ensures e == Fine ==> text == texts[v - base - 1] && deltas <= perSnapshot
    {
      text, deltas := [], 0;
      if !(base < v <= version) {
        return OutOfRange, text, 0;
      }
      if cached.Some? && v == version {
        return Fine, cached.value, 0;
      }
      e, text, deltas := Reconstruct(v);
      if e == Fine && v == version {
        cached := Some(text);
      }
    }

    // ---- adding ----

    /** Whether the next version is stored whole. */
    predicate TakesSnapshot()
      reads this
    {
      diffCount >= perSnapshot || latest == None
    }

    /** The newest text, from the cache or rebuilt. */
    method Previous() returns (e: Outcome, prev: Bytes)
      requires Valid() && texts != []
      ensures e == Fine && prev == texts[|texts| - 1] && |prev| < TWO_32 <= SIZE_LIMIT
    {
      LongestText(|texts| - 1);
      if cached.Some? {
        return Fine, cached.value;
      }
      var n;
      SinceBound(|texts|, perSnapshot);
      e, prev, n := Reconstruct(version);
    }

    /** A delta from the newest version. */
    method MakeDelta(text: Bytes) returns (e: Outcome, d: Bytes)
      requires Valid() && |text| < TWO_32 && texts != []
      ensures e == Fine && DeltaFor(texts[|texts| - 1], text, d)
    {
      var prev;
      e, prev := Previous();
      d := CreateDelta(prev, text, gram);
    }

    /** What is to be stored - the text, or a delta - and the entry, where its length is cut to 32 bits. */
    method MakeEntry(text: Bytes, asSnapshot: bool) returns (e: Outcome, entry: LogRec, ghost data: Bytes)
      requires Valid() && |text| < TWO_32 && (!asSnapshot ==> texts != [])
      ensures e == Fine && entry == StoredEntry(asSnapshot, version + 1, sha(text), data)
      ensures ToStore(asSnapshot, texts, text, data)
    {
      if asSnapshot {
        CutWhole(text);
        return Fine, Entry(Snapshot, version + 1, sha(text), text), text;
      }
      var d;
      e, d := MakeDelta(text);
      entry, data := Entry(DiffBin, version + 1, sha(text), Cut(d)), d;
    }

    lemma LongestText(i: nat)
      requires Valid() && i < |texts|
      ensures |texts[i]| < TWO_32
    {
    }

    /**
     * Add a version.  It is accepted exactly if the host accepts the write and the commit, for which
     * the length of the data counts without its upper bits, is shorter than 2^32 bytes; one that is
     * only too long for a trailer goes without.  On failure nothing has changed.  On success the text
     * is the newest version; the log can give it back exactly if what was to be stored is shorter
     * than 2^32 bytes.  That is so for every text stored whole; for a delta, a caller can create it
     * beforehand, and when the version before is too short for a match the text's own length decides.
     */
    method AddVersion(text: Bytes, hostOk: bool) returns (e: Outcome, v: nat, ghost data: Bytes)
      requires Valid() && |text| < TWO_32
      modifies this
      ensures ToStore(old(TakesSnapshot()), old(texts), text, data)
      ensures e == Fine <==> hostOk && CommitSize(old(NextMeta(MetaNow(), |file|)), |data| % TWO_32) < TWO_32
      ensures e != Fine ==> Valid() && SameLog() && cached == old(cached)
      ensures e == Fine ==> texts == old(texts) + [text] && v == version == old(version) + 1
      ensures e == Fine ==> base == old(base) && perSnapshot == old(perSnapshot)
      ensures e == Fine ==> file == old(file) + [StoredEntry(old(TakesSnapshot()), version, sha(text), data), MetaNow()]
      ensures e == Fine ==> (Valid() <==> |data| < TWO_32)
      ensures e == Fine && !old(TakesSnapshot()) && |old(texts)[|old(texts)| - 1]| < DELTA_K ==>
              (Valid() <==> |text| + 5 < TWO_32)
    {
      v := version;
      var offset := |file|;
      var asSnapshot := TakesSnapshot();
      SinceBound(|texts|, perSnapshot);
      var entry;
      e, entry, data := MakeEntry(text, asSnapshot);
      if ENTRY_OVERHEAD + |entry.data| >= TWO_32 {
        return BadState, v, data;
      }
      if CommitSize(NextMeta(MetaNow(), offset), |entry.data|) >= TWO_32 {
        return OutOfMemory, v, data;
      }
      if !hostOk {
        return HostFailed, v, data;
      }
      AdoptExactly(sha, LogState(file, MetaNow(), ents), texts, text, entry, data);
      ghost var after := AfterVersion(LogState(file, MetaNow(), ents), entry);
      Adopt(text, entry, offset, asSnapshot, after);
      v := version;
    }

    /** The commit has reached the host: the new entry is part of the log. */
    method Adopt(text: Bytes, entry: LogRec, offset: nat, asSnapshot: bool, ghost after: LogState)
      requires asSnapshot == TakesSnapshot() && offset == |file| && entry.Entry?
      requires after == AfterVersion(LogState(file, MetaNow(), ents), entry)
      modifies this
      ensures file == old(file) + [entry, MetaNow()] && texts == old(texts) + [text]
      ensures version == old(version) + 1 && base == old(base) && perSnapshot == old(perSnapshot)
      ensures Valid() <==> after.Holds(sha, texts)
    {
      if asSnapshot {
        diffCount, snap := 0, Some(offset);
      } else {
        diffCount := diffCount + 1;
      }
      latest, version := Some(offset), version + 1;
      file := file + [entry, MetaNow()];
      ents := ents + [Ent(offset, version, entry.kind)];
      cached, texts := Some(text), texts + [text];
      assert LogState(file, MetaNow(), ents) == after;
    }

    /** The limit is real: a text within five bytes of it is accepted after a version without a match, and lost. */
    method OversizedVersion(text: Bytes) returns (e: Outcome)
      requires Valid() && !TakesSnapshot() && texts != [] && |texts[|texts| - 1]| < DELTA_K
      requires TWO_32 - 5 <= |text| < TWO_32
      modifies this
      ensures e == Fine && !Valid() && texts == old(texts) + [text] && |file| == old(|file|) + 2
      ensures file[|file| - 2].Entry? && Target(old(texts)[|old(texts)| - 1], file[|file| - 2].data, 0) != Some(text)
    {
      var v;
      ghost var data;
      e, v, data := AddVersion(text, true);
      LostText(old(texts), text, data);
    }

    // ---- opening ----

    /**
     * The first scan: index every entry, and keep the last two metadata records.  A commit whose
     * checksum the file layer rejects ends the scan, after its metadata record was seen.
     */
    static method Scan(recs: seq<LogRec>, trusted: nat -> bool)
      returns (ents: seq<Ent>, ring: seq<Seen>, n: nat, good: nat, ghost stop: nat)
      ensures ScanResult(recs, trusted, good, stop) && RingOk(recs, ring, n, good)
      ensures ents == EntriesOf(recs[..stop])
    {
      ents, ring, n, good, stop := [], [Seen(LogHeader, 0), Seen(LogHeader, 0)], 0, 0, 0;
      for i := 0 to |recs|
        invariant stop == i && ents == EntriesOf(recs[..i])
        invariant good <= i && (forall k :: good <= k < i ==> !EndsCommit(recs[k]))
                  && (good > 0 ==> GoodEnd(recs, trusted, good))
        invariant RingGood(recs, ring, n, good)
      {
        assert recs[..i + 1][..i] == recs[..i];
        if recs[i].Entry? {
          ents := ents + [Ent(i, recs[i].version, recs[i].kind)];
        }
        stop := i + 1;
        if EndsCommit(recs[i]) {
          RingNext(recs, ring, n, good, i);
          ring := ring[n % 2 := Seen(recs[i], i + 1)];
          n := n + 1;
          if !trusted(i) {
            return;
          }
          good := i + 1;
        }
      }
      RingGoodOk(recs, ring, n, good);
    }

    /** The metadata record that ends the last good commit is one of the last two seen. */
    static method AdoptMeta(ring: seq<Seen>, n: nat, good: nat, ghost recs: seq<LogRec>) returns (md: Option<LogRec>)
      requires RingOk(recs, ring, n, good)
      ensures md == if good == 0 then None else Some(recs[good - 1])
    {
      md := None;
      for i := 0 to 2
        invariant md == None || (good > 0 && md == Some(recs[good - 1]))
        invariant md == None ==> forall j :: 0 <= j < i && j < n ==> ring[j].end != good
      {
        if i < n && ring[i].end == good {
          md := Some(ring[i].md);
        }
      }
    }

    /** Drop the entries of a commit that was cut short. */
    static method TrimEntries(ents0: seq<Ent>, good: nat) returns (ents: seq<Ent>)
      ensures ents <= ents0 && (ents != [] ==> ents[|ents| - 1].off < good)
      ensures forall k :: |ents| <= k < |ents0| ==> ents0[k].off >= good
    {
      ents := ents0;
      while |ents| > 0 && ents[|ents| - 1].off >= good
        invariant ents <= ents0 && forall k :: |ents| <= k < |ents0| ==> ents0[k].off >= good
      {
        ents := ents[..|ents| - 1];
      }
    }

    /**
     * Open a log: whatever is left of a commit cut short, or rejected by its checksum, is dropped,
     * and the log holds what it held after its last good commit.
     */
    static method Open(sha: Bytes -> Bytes, gram: Bytes -> nat, recs: seq<LogRec>, trusted: nat -> bool,
                       ghost base0: nat, ghost dps: nat, ghost texts0: seq<Bytes>, ghost n: nat)
      returns (ok: bool, t: TextLog)
      requires n <= |recs| && LogOk(sha, recs[..n], base0, dps, texts0)
      requires (forall k :: 0 <= k < n ==> trusted(k))
               && forall k :: n <= k < |recs| && EndsCommit(recs[k]) ==> !trusted(k)
      ensures fresh(t) && ok && t.Valid() && t.sha == sha && t.gram == gram
      ensures t.texts == texts0 && t.base == base0 && t.perSnapshot == dps && t.file == recs[..n]
    {
      t := new TextLog.Bare(sha, gram);
      ghost var stop;
      var ents, ring, seen, good;
      ents, ring, seen, good, stop := Scan(recs, trusted);
      var md := AdoptMeta(ring, seen, good, recs);
      ScanStopsAt(sha, recs, trusted, n, base0, dps, texts0, good, stop);
      if md == None {
        return false, t;
      }
      var a := md.value;
      SinceBound(|texts0|, dps);
      if (a.snap.Some? && a.snap.value >= good) || (a.latest.Some? && a.latest.value >= good) || a.base > a.version {
        return false, t;
      }
      var kept := TrimEntries(ents, good);
      OpenedHolds(sha, recs, n, stop, base0, dps, texts0, ents, kept);
      t.TakeUp(a, kept, recs[..good], texts0);
      ok := true;
    }

    /** Take over what the scan found. */
    method TakeUp(md: LogRec, kept: seq<Ent>, whole: seq<LogRec>, ghost texts0: seq<Bytes>)
      requires md.Metadata? && LogState(whole, md, kept).Holds(sha, texts0) && cached == None
      modifies this
      ensures Valid() && MetaNow() == md && file == whole && texts == texts0
    {
      version, base, snap, latest, diffCount, perSnapshot := md.version, md.base, md.snap, md.latest, md.diffCount,
          md.perSnapshot;
      ents, file := kept, whole;
      texts := texts0;
      assert MetaNow() == md;
    }
  }

  /** The metadata records that end a commit. */
  predicate EndsCommit(r: LogRec) {
    r.Metadata? && r.perSnapshot >= 1
  }

  ghost function EntriesOf(recs: seq<LogRec>): (es: seq<Ent>)
    ensures |es| <= |recs|
  {
    if recs == [] then []
    else
      var n := |recs| - 1;
      EntriesOf(recs[..n]) + (if recs[n].Entry? then [Ent(n, recs[n].version, recs[n].kind)] else [])
  }

  /** A metadata record and where it ends. */
  datatype Seen = Seen(md: LogRec, end: nat)

  ghost predicate GoodEnd(recs: seq<LogRec>, trusted: nat -> bool, good: nat) {
    0 < good <= |recs| && EndsCommit(recs[good - 1]) && trusted(good - 1)
  }

  /** The scan read up to `stop`: all, or through the first commit rejected; `good` ends the last accepted one. */
  ghost predicate ScanResult(recs: seq<LogRec>, trusted: nat -> bool, good: nat, stop: nat) {
    && good <= stop <= |recs| && (good > 0 ==> GoodEnd(recs, trusted, good))
    && (forall k :: good <= k < stop && k != stop - 1 ==> !EndsCommit(recs[k]))
    && (stop > good ==> !EndsCommit(recs[stop - 1]) || !trusted(stop - 1))
    && (stop < |recs| ==> stop > good && EndsCommit(recs[stop - 1]))
  }

  /** The last of `n` metadata records seen is good or rejected; in that case the one before, if any, is good. */
  ghost predicate RingOk(recs: seq<LogRec>, ring: seq<Seen>, n: nat, good: nat) {
    && |ring| == 2 && good <= |recs|
    && (good > 0 ==> exists i :: 0 <= i < 2 && i < n && ring[i] == Seen(recs[good - 1], good))
    && (forall i :: 0 <= i < 2 && i < n && ring[i].end == good ==> good > 0 && ring[i].md == recs[good - 1])
  }

  /** As long as no commit is rejected, the newest record seen is the last good one. */
  ghost predicate RingGood(recs: seq<LogRec>, ring: seq<Seen>, n: nat, good: nat) {
    && |ring| == 2 && good <= |recs| && (n == 0 <==> good == 0)
    && (n > 0 ==> ring[(n - 1) % 2] == Seen(recs[good - 1], good))
    && (n > 1 ==> ring[n % 2].end < good)
  }

  lemma RingGoodOk(recs: seq<LogRec>, ring: seq<Seen>, n: nat, good: nat)
    requires RingGood(recs, ring, n, good)
    ensures RingOk(recs, ring, n, good)
  {
    if n > 0 {
      assert ring[(n - 1) % 2] == Seen(recs[good - 1], good);
    }
  }

  /** A further record takes the place of the one before the last; accepted or rejected, the good one is still there. */
  lemma RingNext(recs: seq<LogRec>, ring: seq<Seen>, n: nat, good: nat, i: nat)
    requires RingGood(recs, ring, n, good) && good <= i < |recs|
    ensures RingGood(recs, ring[n % 2 := Seen(recs[i], i + 1)], n + 1, i + 1)
    ensures RingOk(recs, ring[n % 2 := Seen(recs[i], i + 1)], n + 1, good)
  {
    var r := ring[n % 2 := Seen(recs[i], i + 1)];
    if n > 0 {
      assert (n - 1) % 2 != n % 2 && (n + 1) % 2 == (n - 1) % 2;
      assert r[(n - 1) % 2] == Seen(recs[good - 1], good);
    }
  }

  /** The scan of a whole log and a torn or rejected commit ends at the log's last metadata record. */
  lemma ScanStopsAt(sha: Bytes -> Bytes, recs: seq<LogRec>, trusted: nat -> bool, n: nat, base: nat, dps: nat,
                    texts: seq<Bytes>, good: nat, stop: nat)
    requires n <= |recs| && LogOk(sha, recs[..n], base, dps, texts) && ScanResult(recs, trusted, good, stop)
    requires (forall k :: 0 <= k < n ==> trusted(k))
             && forall k :: n <= k < |recs| && EndsCommit(recs[k]) ==> !trusted(k)
    ensures good == n <= stop && recs[good - 1] == MetaAfter(|texts|, base, dps)
  {
    var f := recs[..n];
    assert f[n - 1] == recs[n - 1];
    if texts != [] {
      assert RoundOk(sha, f, |texts| - 1, base, dps, texts);
    }
  }

  /** The entries of a log are its index. */
  lemma {:induction false} LogEntries(sha: Bytes -> Bytes, file: seq<LogRec>, base: nat, dps: nat, texts: seq<Bytes>,
                                      m: nat)
    requires LogOk(sha, file, base, dps, texts) && m <= |texts|
    ensures IndexOk(EntriesOf(file[..2 + 2 * m]), base, dps, m)
    decreases m
  {
    var f := file[..2 + 2 * m];
    if m == 0 {
      assert f[..1] == [LogHeader] && f[..1][..0] == [];
      assert EntriesOf(f[..1]) == EntriesOf(f[..1][..0]) + [];
      assert EntriesOf(f) == EntriesOf(f[..1]) + [];
    } else {
      LogEntries(sha, file, base, dps, texts, m - 1);
      assert RoundOk(sha, file, m - 1, base, dps, texts);
      var g := f[..1 + 2 * m];
      assert g[..2 * m] == file[..2 + 2 * (m - 1)];
      assert EntriesOf(g) == EntriesOf(file[..2 + 2 * (m - 1)]) + [Ent(2 * m, base + m, KindOf(m - 1, dps))];
      assert EntriesOf(f) == EntriesOf(g) + [];
    }
  }

  /** Entries found later stand later. */
  lemma {:induction false} EntriesSplit(recs: seq<LogRec>, n: nat)
    requires n <= |recs|
    ensures EntriesOf(recs[..n]) <= EntriesOf(recs)
    ensures forall k :: |EntriesOf(recs[..n])| <= k < |EntriesOf(recs)| ==> EntriesOf(recs)[k].off >= n
    decreases |recs|
  {
    if n < |recs| {
      EntriesSplit(recs[..|recs| - 1], n);
      assert recs[..|recs| - 1][..n] == recs[..n];
    } else {
      assert recs[..n] == recs;
    }
  }

  lemma TrimmedIs(sha: Bytes -> Bytes, recs: seq<LogRec>, n: nat, base: nat, dps: nat, texts: seq<Bytes>,
                  ents: seq<Ent>, kept: seq<Ent>)
    requires n <= |recs| && LogOk(sha, recs[..n], base, dps, texts) && ents == EntriesOf(recs)
    requires kept <= ents && (kept != [] ==> kept[|kept| - 1].off < n)
             && forall k :: |kept| <= k < |ents| ==> ents[k].off >= n
    ensures IndexOk(kept, base, dps, |texts|)
  {
    LogEntries(sha, recs[..n], base, dps, texts, |texts|);
    assert recs[..n][..2 + 2 * |texts|] == recs[..n];
    EntriesSplit(recs, n);
    var good, m := EntriesOf(recs[..n]), |kept|;
    forall k | 0 <= k < |ents| ensures ents[k].off < n <==> k < |good| {
      assert k < |good| ==> ents[k] == good[k];
    }
    assert m < |ents| ==> ents[m].off >= n;
    assert m > 0 ==> ents[m - 1].off < n;
    assert kept == good;
  }

  lemma OpenedHolds(sha: Bytes -> Bytes, recs: seq<LogRec>, n: nat, stop: nat, base: nat, dps: nat, texts: seq<Bytes>,
                    ents: seq<Ent>, kept: seq<Ent>)
    requires n <= stop <= |recs| && LogOk(sha, recs[..n], base, dps, texts) && ents == EntriesOf(recs[..stop])
    requires kept <= ents && (kept != [] ==> kept[|kept| - 1].off < n)
             && forall k :: |kept| <= k < |ents| ==> ents[k].off >= n
    ensures LogState(recs[..n], MetaAfter(|texts|, base, dps), kept).Holds(sha, texts)
  {
    assert recs[..stop][..n] == recs[..n];
    TrimmedIs(sha, recs[..stop], n, base, dps, texts, ents, kept);
  }

  // ---- what the 32-bit length does ----

  /** What is stored for a text after `texts`: itself, or a delta from the newest. */
  ghost predicate ToStore(asSnapshot: bool, texts: seq<Bytes>, text: Bytes, data: Bytes) {
    if asSnapshot then data == text else texts != [] && DeltaFor(texts[|texts| - 1], text, data)
  }

  function StoredEntry(asSnapshot: bool, version: nat, hash: Bytes, data: Bytes): LogRec {
    Entry(if asSnapshot then Snapshot else DiffBin, version, hash, Cut(data))
  }

  /** What a 32-bit length leaves of some bytes. */
  function Cut(data: Bytes): (c: Bytes)
    ensures |c| == |data| % TWO_32
  {
    data[..|data| % TWO_32]
  }

  lemma CutWhole(data: Bytes)
    requires |data| < TWO_32
    ensures Cut(data) == data
  {
  }

  /** The delta cut to 32 bits rebuilds its text exactly if nothing was cut off. */
  lemma CutDelta(prev: Bytes, d: Bytes, text: Bytes)
    requires DeltaFor(prev, text, d) && |text| < TWO_32
    ensures Target(prev, Cut(d), 0) == Some(text) <==> |d| < TWO_32
  {
    if |d| < TWO_32 {
      CutWhole(d);
    } else {
      var cut := Cut(d);
      assert |cut| <= 4;
      if Target(prev, cut, 0).Some? {
        ShortTarget(prev, cut, 0);
        assert Pow128(4) == 128 * (128 * (128 * (128 * Pow128(0))));
        MulGrows(4, |cut|, Pow128(4));
      }
    }
  }

  /** After a version too short for a match, the length of the text decides. */
  lemma ShortSource(prev: Bytes, text: Bytes, d: Bytes)
    requires DeltaFor(prev, text, d) && |prev| < DELTA_K && |text| < TWO_32
    ensures |d| < TWO_32 <==> |text| + 5 < TWO_32
    ensures |d| >= TWO_32 ==> |d| == |text| + 5
  {
    if |text| + 5 >= TWO_32 {
      FiveGroups(2 * |text|);
    }
  }

  lemma LostText(texts: seq<Bytes>, text: Bytes, data: Bytes)
    requires texts != [] && |texts[|texts| - 1]| < DELTA_K && TWO_32 - 5 <= |text| < TWO_32
             && ToStore(false, texts, text, data)
    ensures |data| % TWO_32 < 5 && Target(texts[|texts| - 1], Cut(data), 0) != Some(text)
  {
    ShortSource(texts[|texts| - 1], text, data);
    CutDelta(texts[|texts| - 1], data, text);
  }

  /** The entry rebuilds its text exactly if what was to be stored fits in 32 bits. */
  lemma StoredExactly(sha: Bytes -> Bytes, texts: seq<Bytes>, text: Bytes, base: nat, dps: nat, data: Bytes)
    requires |text| < TWO_32
    requires ToStore(KindOf(|texts|, dps) == Snapshot, texts, text, data)
    ensures EntryOk(sha, StoredEntry(KindOf(|texts|, dps) == Snapshot, base + 1 + |texts|, sha(text), data), |texts|,
            base, dps, texts + [text])
            <==> |data| < TWO_32
  {
    if KindOf(|texts|, dps) == Snapshot {
      CutWhole(data);
    } else {
      CutDelta(texts[|texts| - 1], data, text);
    }
  }

  lemma StateLost(sha: Bytes -> Bytes, st: LogState, texts: seq<Bytes>, text: Bytes, entry: LogRec, md: LogRec,
                  ents: seq<Ent>)
    requires st.Holds(sha, texts) && md.Metadata? && md.base == st.md.base && md.perSnapshot == st.md.perSnapshot
    requires !EntryOk(sha, entry, |texts|, md.base, md.perSnapshot, texts + [text])
    ensures !LogState(st.file + [entry, md], md, ents).Holds(sha, texts + [text])
  {
    var f, n := st.file + [entry, md], |texts|;
    assert |st.file| == 2 + 2 * n && f[2 + 2 * n] == entry;
    assert !RoundOk(sha, f, n, md.base, md.perSnapshot, texts + [text]);
  }

  /** One more commit keeps the log exactly if what was to be stored fits in 32 bits. */
  lemma GrowsExactly(sha: Bytes -> Bytes, st: LogState, texts: seq<Bytes>, text: Bytes, entry: LogRec, md: LogRec,
                     data: Bytes)
    requires st.Holds(sha, texts) && |text| < TWO_32 && md == MetaAfter(|texts| + 1, st.md.base, st.md.perSnapshot)
    requires entry == StoredEntry(KindOf(|texts|, st.md.perSnapshot) == Snapshot, st.md.base + 1 + |texts|, sha(text),
             data)
    requires ToStore(KindOf(|texts|, st.md.perSnapshot) == Snapshot, texts, text, data)
    ensures LogState(st.file + [entry, md], md, st.ents + [Ent(|st.file|, md.version, entry.kind)]).Holds(sha,
            texts + [text])
            <==> |data| < TWO_32
  {
    StoredExactly(sha, texts, text, st.md.base, st.md.perSnapshot, data);
    if |data| < TWO_32 {
      StateGrows(sha, st, texts, text, entry, md);
    } else {
      StateLost(sha, st, texts, text, entry, md, st.ents + [Ent(|st.file|, md.version, entry.kind)]);
    }
  }

  /** The metadata after one more version. */
  function NextMeta(md: LogRec, offset: nat): LogRec
    requires md.Metadata?
  {
    var snapshot := md.diffCount >= md.perSnapshot || md.latest == None;
    Metadata(md.version + 1, if snapshot then Some(offset) else md.snap, Some(offset),
        if snapshot then 0 else md.diffCount + 1,
             md.perSnapshot, md.base)
  }

  function AfterVersion(st: LogState, entry: LogRec): LogState
    requires st.md.Metadata? && entry.Entry?
  {
    var md := NextMeta(st.md, |st.file|);
    LogState(st.file + [entry, md], md, st.ents + [Ent(|st.file|, md.version, entry.kind)])
  }

  lemma NextMetaIs(sha: Bytes -> Bytes, st: LogState, texts: seq<Bytes>)
    requires st.Holds(sha, texts)
    ensures NextMeta(st.md, |st.file|) == MetaAfter(|texts| + 1, st.md.base, st.md.perSnapshot)
    ensures st.md.diffCount >= st.md.perSnapshot || st.md.latest == None <==>
            KindOf(|texts|, st.md.perSnapshot) == Snapshot
  {
    SinceBound(|texts|, st.md.perSnapshot);
    SinceBound(|texts| + 1, st.md.perSnapshot);
  }

  /** The log after an accepted version holds exactly if what was to be stored fits in 32 bits. */
  lemma AdoptExactly(sha: Bytes -> Bytes, st: LogState, texts: seq<Bytes>, text: Bytes, entry: LogRec, data: Bytes)
    requires st.Holds(sha, texts) && |text| < TWO_32
    requires var snapshot := st.md.diffCount >= st.md.perSnapshot || st.md.latest == None;
             && entry == StoredEntry(snapshot, st.md.version + 1, sha(text), data)
             && ToStore(snapshot, texts, text, data)
    ensures AfterVersion(st, entry).Holds(sha, texts + [text]) <==> |data| < TWO_32
    ensures entry.kind == DiffBin && |texts[|texts| - 1]| < DELTA_K ==> (|data| < TWO_32 <==> |text| + 5 < TWO_32)
  {
    NextMetaIs(sha, st, texts);
    GrowsExactly(sha, st, texts, text, entry, NextMeta(st.md, |st.file|), data);
    if entry.kind == DiffBin && |texts[|texts| - 1]| < DELTA_K {
      ShortSource(texts[|texts| - 1], text, data);
    }
  }

  lemma FiveGroups(w: nat)
    requires TWO_32 <= w < 2 * TWO_32
    ensures |VarBytes(w)| == 5
  {
    assert |VarBytes(w)| == 1 + |VarBytes(w / 128)|;
    assert |VarBytes(w / 128)| == 1 + |VarBytes(w / 128 / 128)|;
    assert |VarBytes(w / 128 / 128)| == 1 + |VarBytes(w / 128 / 128 / 128)|;
    assert |VarBytes(w / 128 / 128 / 128)| == 1 + |VarBytes(w / 128 / 128 / 128 / 128)|;
  }
}
