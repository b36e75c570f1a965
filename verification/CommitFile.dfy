// The append-only file object: a pending buffer over the host file, and the running checksum that
// each protected append seals.
module CommitFile {
  import opened RecordFile
  import opened Wire
  import opened ScanMachine
  import opened CommitScan

  /** The bytes of whole commits followed by records not yet closed by metadata. */
  ghost predicate Describes(fm: Format, b: Bytes, cs: seq<Commit>, open: seq<Bytes>, crc: Bytes) {
    && b == Image(cs) + Join(open) && crc == Join(open)
    && CommitsOk(fm, cs, 0) && RecordsOk(fm, open, |Image(cs)|)
  }

  /** One more plain record. */
  lemma DescribesSnoc(fm: Format, host: Bytes, wb: Bytes, cs: seq<Commit>, open: seq<Bytes>, crc: Bytes, r: Bytes)
    requires Describes(fm, host + wb, cs, open, crc) && PlainRecord(fm)(|host + wb|, r)
    ensures Describes(fm, host + (wb + r), cs, open + [r], crc + r)
  {
    RecordsSnoc(PlainRecord(fm), open, |Image(cs)|, r);
    assert host + (wb + r) == (host + wb) + r == (Image(cs) + Join(open)) + r == Image(cs) + (Join(open) + r);
  }

  /** Trailer and metadata close the open records into a commit. */
  lemma DescribesClosed(fm: Format, host: Bytes, wb: Bytes, cs: seq<Commit>, open: seq<Bytes>, crc: Bytes, c: Commit)
    requires Describes(fm, host + wb, cs, open, crc) && c.recs == open
    requires IsRecord(c.md) && !IsTrailer(c.md) && fm.isMeta(|host + wb| + |c.trailer|, c.md)
    requires c.trailer == [] || Seals(fm, c.trailer, crc, c.md)
    ensures Describes(fm, host + (wb + c.trailer + c.md), cs + [c], [], [])
  {
    assert GoodCommit(fm)(|Image(cs)|, c);
    CommitsSnoc(GoodCommit(fm), cs, 0, c);
    Regroup4(host, wb, c.trailer, c.md, Image(cs), Join(open));
    assert Image(cs + [c]) + Join([]) == Image(cs + [c]);
  }

  /** What the host file holds when the write of one more commit is cut after `n` bytes. */
  lemma CutCommit(fm: Format, host: Bytes, wb: Bytes, cs: seq<Commit>, c: Commit, n: nat)
    requires Describes(fm, host, cs, [], []) && Describes(fm, host + wb, cs + [c], [], []) && n < |wb|
    ensures host == Image(cs) && CommitOk(fm, c, |Image(cs)|)
    ensures At(host + wb[..n], 0, Image(cs)) && TornAt(host + wb[..n], |Image(cs)|, CommitImage(c))
  {
    assert Image(cs) + Join([]) == Image(cs) && Image(cs + [c]) + Join([]) == Image(cs + [c]);
    CommitsSnoc(GoodCommit(fm), cs, 0, c);
    assert GoodCommit(fm)(|Image(cs)|, c);
    CutAt(host, wb, CommitImage(c), n);
  }

  lemma CutAt(host: Bytes, wb: Bytes, x: Bytes, n: nat)
    requires host + wb == host + x && n < |wb|
    ensures At(host + wb[..n], 0, host) && TornAt(host + wb[..n], |host|, x)
  {
    assert wb == (host + wb)[|host|..] && x == (host + x)[|host|..];
    assert (host + wb[..n])[0..|host|] == host && (host + wb[..n])[|host|..] == wb[..n];
  }

  class BjFile {
    const fm: Format
    var host: Bytes
    var wb: Bytes
    var crc: Bytes
    var crcCommitted: Bytes
    ghost var cs: seq<Commit>
    ghost var open: seq<Bytes>
    ghost var hostCs: seq<Commit>
    ghost var hostOpen: seq<Bytes>

    ghost predicate Valid()
      reads this
    {
      && Describes(fm, host + wb, cs, open, crc)
      && Describes(fm, host, hostCs, hostOpen, crcCommitted)
    }

    /** Bind to a host file that holds whole commits. */
    constructor (fm: Format, host: Bytes, ghost cs: seq<Commit>)
      requires CommitsOk(fm, cs, 0) && host == Image(cs)
      ensures this.fm == fm && this.host == host && wb == [] && Valid() && this.hostCs == cs == this.cs
              && open == hostOpen == []
    {
      this.fm, this.host, wb, crc, crcCommitted := fm, host, [], [], [];
      this.cs, open, hostCs, hostOpen := cs, [], cs, [];
      new;
      assert host + wb == Image(cs) + Join([]);
      assert host == Image(cs) + Join([]);
    }

    function Len(): nat
      reads this
    {
      |host| + |wb|
    }

    /** Buffer one record; it enters the running checksum. */
    method Append(r: Bytes) returns (off: nat)
      requires Valid() && IsRecord(r) && !IsTrailer(r) && !fm.isMeta(Len(), r)
      modifies this`wb, this`crc, this`open
      ensures Valid() && off == old(Len()) && open == old(open) + [r] && wb == old(wb) + r
    {
      off := Len();
      DescribesSnoc(fm, host, wb, cs, open, crc, r);
      wb, crc, open := wb + r, crc + r, open + [r];
    }

    /** Where the next metadata record will stand: after its trailer, unless the commit is too long for one. */
    function MetaOffset(md: Bytes): nat
      reads this
    {
      if |crc| + |md| + TRAILER_SIZE < TWO_32 then Len() + TRAILER_SIZE else Len()
    }

    /** The trailer that guards everything since the last commit and `md`; none when its length does not fit a word. */
    method Trailer(md: Bytes) returns (t: Bytes)
      ensures |t| == MetaOffset(md) - Len()
      ensures if |crc| + |md| + TRAILER_SIZE < TWO_32 then Seals(fm, t, crc, md) else t == []
    {
      var len := |crc| + |md| + TRAILER_SIZE;
      if len >= TWO_32 {
        return [];
      }
      TrailerIs(fm.Crc(crc + md), len);
      t := TrailerBytes(fm.Crc(crc + md), len);
    }

    /** Close a commit: trailer over everything since the last one, then the metadata record. */
    method AppendProtected(md: Bytes)
      requires Valid() && IsRecord(md) && !IsTrailer(md) && fm.isMeta(MetaOffset(md), md)
      modifies this`wb, this`crc, this`cs, this`open
      ensures Valid() && open == [] && |cs| == |old(cs)| + 1 && cs[..|old(cs)|] == old(cs)
      ensures cs[|old(cs)|].recs == old(open) && cs[|old(cs)|].md == md
      ensures |old(crc)| + |md| + TRAILER_SIZE < TWO_32 ==> Seals(fm, cs[|old(cs)|].trailer, Join(old(open)), md)
    {
      var t := Trailer(md);
      ghost var c := Commit(open, t, md);
      DescribesClosed(fm, host, wb, cs, open, crc, c);
      wb, crc, cs, open := wb + t + md, [], cs + [c], [];
    }

    /** One host write of everything pending; `hostOk` is the host's answer. */
    method CommitPending(hostOk: bool) returns (e: Status)
      requires Valid()
      modifies this`host, this`wb, this`crcCommitted, this`hostCs, this`hostOpen
      ensures Valid()
      ensures e == Ok <==> old(wb) == [] || (|old(wb)| < TWO_32 && hostOk)
      ensures e == Ok ==> host == old(host + wb) && wb == [] && hostCs == cs && hostOpen == open
      ensures e != Ok ==> host == old(host) && wb == old(wb) && hostCs == old(hostCs) && hostOpen == old(hostOpen)
    {
      if wb == [] {
        assert host + wb == host;
        crcCommitted, hostCs, hostOpen := crc, cs, open;
        return Ok;
      }
      if |wb| >= TWO_32 || !hostOk {
        return HostError;
      }
      ghost var all := host + wb;
      host, wb := host + wb, [];
      assert host + [] == all;
      crcCommitted, hostCs, hostOpen := crc, cs, open;
      e := Ok;
    }

    /** Drop everything pending, and the checksum of it. */
    method Discard()
      requires Valid()
      modifies this`wb, this`crc, this`cs, this`open
      ensures Valid() && wb == [] && cs == hostCs && open == hostOpen && crc == crcCommitted
    {
      wb, crc, cs, open := [], crcCommitted, hostCs, hostOpen;
      assert host + wb == host;
    }

    /**
     * A crash inside the host write of one closed commit leaves some proper prefix of it: the
     * scan then returns the end of what was there before, or refuses because the prefix contains
     * a trailer image that verifies.
     */
    lemma CrashInCommit(n: nat, e: Status, good: nat)
      requires Valid() && open == [] && hostOpen == [] && |cs| == |hostCs| + 1 && cs[..|hostCs|] == hostCs
      requires n < |wb| && ScanDecides(fm, host + wb[..n], e, good)
      ensures good == |host|
      ensures e == Ok <==> forall q :: |host| <= q < |host| + n ==> !VerifiesAt(fm, host + wb[..n], q)
    {
      assert cs == hostCs + [cs[|hostCs|]];
      assert crc == Join([]) == [] == crcCommitted;
      CutCommit(fm, host, wb, hostCs, cs[|hostCs|], n);
      ScanRecovers(fm, hostCs, cs[|hostCs|], host + wb[..n], e, good);
    }
  }

  lemma Regroup4(h: Bytes, w: Bytes, t: Bytes, m: Bytes, i: Bytes, j: Bytes)
    requires h + w == i + j
    ensures h + (w + t + m) == i + (j + (t + m))
  {
    assert h + (w + t + m) == (h + w) + (t + m);
    assert i + (j + (t + m)) == (i + j) + (t + m);
  }
}
