// The document cursor: batches of results over the stream of a tree as it was when the cursor was
// opened, or over a list of candidates, while writes go on.
module DocCursor {
  import opened SortedEntries
  import opened RecordFile
  import opened Keys
  import opened TreeModel
  import opened NodeFacts
  import opened BPlusTree
  import opened TreeRead
  import opened TreeCursor
  import opened TreeRuns
  import opened OrderedKeys
  import Q = QueryResults

  // ---- the stream of a tree is the listing of its keys ----

  function Vals(es: seq<Entry<Bytes>>): (r: seq<Bytes>)
    ensures |r| == |es| && forall i :: 0 <= i < |r| ==> r[i] == es[i].val
  {
    seq(|es|, i requires 0 <= i < |es| => es[i].val)
  }

  lemma ValsHead(e: Entry<Bytes>, rest: seq<Entry<Bytes>>)
    ensures Vals([e] + rest) == [e.val] + Vals(rest)
  {
  }

  /** The values of a tree by ascending key. */
  ghost function Documents(t: Bpt): seq<Bytes>
    reads t
  {
    Vals(Resolved(t.f.store, Entries(t.tree)))
  }

  lemma SmallestKey(a: seq<Entry<Bytes>>, k: real)
    requires Ascending(a) && HasKey(a, k)
    ensures a != [] && a[0].key <= k
  {
  }

  /** An ascending list is determined by its map. */
  lemma {:induction false} AscendingUnique(a: seq<Entry<Bytes>>, b: seq<Entry<Bytes>>)
    requires Ascending(a) && Ascending(b) && MapOf(a) == MapOf(b)
    ensures a == b
    decreases |a|
  {
    MapOfSize(a);
    MapOfSize(b);
    if a != [] {
      MapOfKeys(a);
      MapOfKeys(b);
      assert HasKey(a, a[0].key) && HasKey(b, b[0].key);
      SmallestKey(a, b[0].key);
      SmallestKey(b, a[0].key);
      TailMap(a);
      TailMap(b);
      AscendingUnique(a[1..], b[1..]);
    }
  }

  lemma TailMap(a: seq<Entry<Bytes>>)
    requires Ascending(a) && a != []
    ensures MapOf(a[1..]) == MapOf(a) - {a[0].key} && MapOf(a)[a[0].key] == a[0].val
  {
    MapOfKeys(a[1..]);
    assert forall i :: 0 <= i < |a[1..]| ==> a[1..][i].key > a[0].key;
  }

  lemma {:induction false} MapOfAt(a: seq<Entry<Bytes>>, i: nat)
    requires Ascending(a) && i < |a|
    ensures a[i].key in MapOf(a) && MapOf(a)[a[i].key] == a[i].val
  {
    if i > 0 {
      MapOfAt(a[1..], i - 1);
    }
  }

  /** A tree with byte-string keys holds the map `m`. */
  ghost predicate Keeps(t: Bpt, m: map<Bytes, Bytes>)
    reads t
  {
    HoldsAll(t.Contents(), m)
  }

  ghost predicate HoldsAll(c: map<real, Bytes>, m: map<Bytes, Bytes>) {
    && (forall b :: b in m ==> KeptAs(c, b, m[b]))
    && (forall r :: r in c ==> exists b :: b in m && Rank(Str(b)) == r)
  }

  ghost predicate KeptAs(c: map<real, Bytes>, b: Bytes, v: Bytes) {
    Rank(Str(b)) in c && c[Rank(Str(b))] == v
  }

  /** The entries of `m` for the given keys. */
  ghost function Listing(ks: seq<Bytes>, m: map<Bytes, Bytes>): (es: seq<Entry<Bytes>>)
    requires forall k :: k in ks ==> k in m
    ensures |es| == |ks| && forall i :: 0 <= i < |es| ==> es[i] == Entry(Rank(Str(ks[i])), m[ks[i]])
  {
    seq(|ks|, i requires 0 <= i < |ks| => assert ks[i] in ks; Entry(Rank(Str(ks[i])), m[ks[i]]))
  }

  lemma ListingHas(ks: seq<Bytes>, m: map<Bytes, Bytes>, b: Bytes) returns (i: nat)
    requires (forall k :: k in ks ==> k in m) && b in ks && Ascending(Listing(ks, m))
    ensures i < |ks| && ks[i] == b && KeptAs(MapOf(Listing(ks, m)), b, m[b])
  {
    i :| 0 <= i < |ks| && ks[i] == b;
    MapOfAt(Listing(ks, m), i);
  }

  /** The stream of a tree lists what it holds in the byte order of the keys, as any listing of the keys does. */
  lemma StreamIsListing(t: Bpt, m: map<Bytes, Bytes>, ks: seq<Bytes>)
    requires t.Valid() && Keeps(t, m) && Lists(ks, m.Keys)
    ensures Resolved(t.f.store, Entries(t.tree)) == Listing(ks, m)
  {
    var a, l := Resolved(t.f.store, Entries(t.tree)), Listing(ks, m);
    RoutedEntries(t.tree, t.height, Inf, Inf, t.Cfg());
    ResolvedAscending(t.f.store, Entries(t.tree));
    ListingMap(t.Contents(), ks, m);
    AscendingUnique(a, l);
  }

  /** The listing's map is what holds `m`. */
  lemma ListingMap(c: map<real, Bytes>, ks: seq<Bytes>, m: map<Bytes, Bytes>)
    requires HoldsAll(c, m) && Lists(ks, m.Keys)
    ensures Ascending(Listing(ks, m)) && MapOf(Listing(ks, m)) == c
  {
    var l := Listing(ks, m);
    MapOfKeys(l);
    forall r | r in c ensures r in MapOf(l) && MapOf(l)[r] == c[r] {
      var b :| b in m && Rank(Str(b)) == r;
      var i := ListingHas(ks, m, b);
      assert KeptAs(c, b, m[b]);
    }
    forall r | r in MapOf(l) ensures r in c {
      var i :| 0 <= i < |l| && l[i].key == r;
      assert ks[i] in ks && KeptAs(c, ks[i], m[ks[i]]);
    }
  }

  // ---- the cursor ----

  /** A limit as the cursor counts it down: -1 for none. */
  function LimitLeft(limit: int): int {
    if limit > 0 then limit else -1
  }

  /** A cursor over the stream of a tree (`scan`), or over candidates found at opening. */
  class BatchCursor {
    const scan: Option<Cursor>
    const cand: seq<Bytes>
    const matches: Bytes -> bool
    const project: Bytes -> Bytes
    var seen: nat
    var skipLeft: nat
    var limitLeft: int
    var done: bool

    ghost function Below(): set<object>
    {
      if scan.Some? then {scan.value, scan.value.t} else {}
    }

    ghost predicate Valid()
      reads this, Below()
    {
      && seen <= |cand| && (limitLeft == -1 || limitLeft > 0 || done)
      && (scan.Some? ==> scan.value.Valid())
    }

    ghost function Walked(): set<object> {
      if scan.Some? then {scan.value} else {}
    }

    ghost predicate InReach()
      reads this, Walked()
    {
      seen <= |cand| && (scan.Some? ==> scan.value.pos <= |scan.value.whole|)
    }

    /** The documents still to be looked at. */
    ghost function Left(): seq<Bytes>
      requires InReach()
      reads this, Walked()
    {
      if scan.Some? then Vals(scan.value.ToCome()) else cand[seen..]
    }

    /** The results still to be handed out. */
    ghost function Rest(): seq<Bytes>
      requires InReach()
      reads this, Walked()
    {
      if done then [] else Handed(Left(), matches, project, skipLeft, limitLeft)
    }

    constructor (scan: Option<Cursor>, cand: seq<Bytes>, matches: Bytes -> bool, project: Bytes -> Bytes, skip: int,
                 limit: int)
      requires scan.Some? ==> scan.value.Valid()
      ensures Valid() && !done && this.scan == scan && this.cand == cand && this.matches == matches
              && this.project == project
      ensures Left() == if scan.Some? then Vals(scan.value.ToCome()) else cand
      ensures Rest() == Handed(Left(), matches, project, skip, limit)
    {
      this.scan, this.cand, this.matches, this.project := scan, cand, matches, project;
      seen, skipLeft, limitLeft, done := 0, if skip > 0 then skip else 0, LimitLeft(limit), false;
      new;
      assert cand[0..] == cand;
    }

    /** The next candidate from whichever source there is. */
    method PullDoc() returns (d: Option<Bytes>)
      requires Valid()
      modifies this`seen, Walked()
      ensures Valid()
      ensures d == None ==> old(Left()) == [] && Left() == []
      ensures d.Some? ==> old(Left()) == [d.value] + Left()
    {
      if scan.Some? {
        var r := scan.value.Next();
        if r == None {
          return None;
        }
        ValsHead(r.value, scan.value.ToCome());
        return Some(r.value.val);
      }
      if seen >= |cand| {
        return None;
      }
      d := Some(cand[seen]);
      seen := seen + 1;
    }

    /** Up to `maxCount` more results; fewer only at the end. */
    method NextBatch(maxCount: nat) returns (out: seq<Bytes>)
      requires Valid()
      modifies this, Walked()
      ensures Valid() && out + Rest() == old(Rest()) && |out| <= maxCount
      ensures |out| < maxCount ==> done
      ensures done ==> Rest() == []
      ensures |Left()| <= old(|Left()|) && (old(done) ==> done)
    {
      out := [];
      while |out| < maxCount && !done
        invariant Valid() && |out| <= maxCount && out + Rest() == old(Rest()) && |Left()| <= old(|Left()|)
        invariant old(done) ==> done
        decreases |Left()|, !done
      {
        out := Pull(out);
      }
    }

    /** Look at one more candidate. */
    method Pull(out: seq<Bytes>) returns (more: seq<Bytes>)
      requires Valid() && !done
      modifies this, Walked()
      ensures Valid() && more + Rest() == out + old(Rest()) && |out| <= |more| <= |out| + 1
      ensures |Left()| < old(|Left()|) || (|Left()| == old(|Left()|) && done)
    {
      more := out;
      var d := PullDoc();
      if d == None {
        done := true;
        return;
      }
      if matches(d.value) {
        more := Accept(out, d.value);
      } else {
        DropHead(d.value, Left(), matches, project, skipLeft, limitLeft);
      }
    }

    /** A document that matches: skipped while there is something to skip, handed out otherwise. */
    method Accept(out: seq<Bytes>, d: Bytes) returns (more: seq<Bytes>)
      requires Valid() && !done && matches(d)
      modifies this`skipLeft, this`limitLeft, this`done
      ensures Valid() && Left() == old(Left()) && |out| <= |more| <= |out| + 1
      ensures more + Rest() == out + old(Handed([d] + Left(), matches, project, skipLeft, limitLeft))
    {
      if skipLeft > 0 {
        PassOver(d);
        return out;
      }
      more := HandOut(out, d);
    }

    /** One more document skipped. */
    method PassOver(d: Bytes)
      requires Valid() && !done && matches(d) && skipLeft > 0
      modifies this`skipLeft
      ensures Valid() && Left() == old(Left())
      ensures Rest() == old(Handed([d] + Left(), matches, project, skipLeft, limitLeft))
    {
      SkipHead(d, Left(), matches, project, skipLeft, limitLeft);
      skipLeft := skipLeft - 1;
    }

    /** The next result. */
    method HandOut(out: seq<Bytes>, d: Bytes) returns (more: seq<Bytes>)
      requires Valid() && !done && matches(d) && skipLeft == 0
      modifies this`limitLeft, this`done
      ensures Valid() && Left() == old(Left()) && |more| == |out| + 1
      ensures more + Rest() == out + old(Handed([d] + Left(), matches, project, 0, limitLeft))
    {
      ghost var behind := TakeHead(out, d, Left(), matches, project, limitLeft);
      more := out + [project(d)];
      CountDown();
      assert Rest() == behind;
    }

    /** One result fewer is wanted. */
    method CountDown()
      requires Valid() && !done
      modifies this`limitLeft, this`done
      ensures Valid() && Left() == old(Left()) && (done <==> old(limitLeft) == 1)
      ensures limitLeft == if old(limitLeft) > 0 then old(limitLeft) - 1 else old(limitLeft)
    {
      if limitLeft > 0 {
        limitLeft := limitLeft - 1;
        if limitLeft == 0 {
          done := true;
        }
      }
    }
  }

  /** The results of a list of documents. */
  ghost function Handed(left: seq<Bytes>, matches: Bytes -> bool, project: Bytes -> Bytes, skip: int,
                        limit: int): (r: seq<Bytes>)
    ensures left == [] ==> r == []
  {
    Q.Results(Q.Filtered(left, matches), project, skip, limit)
  }

  lemma DropHead(d: Bytes, left: seq<Bytes>, matches: Bytes -> bool, project: Bytes -> Bytes, skip: int, limit: int)
    requires !matches(d)
    ensures Handed([d] + left, matches, project, skip, limit) == Handed(left, matches, project, skip, limit)
  {
    FilterHead(d, left, matches);
  }

  lemma SkipHead(d: Bytes, left: seq<Bytes>, matches: Bytes -> bool, project: Bytes -> Bytes, skip: nat, limit: int)
    requires matches(d) && skip > 0
    ensures Handed([d] + left, matches, project, skip, limit) == Handed(left, matches, project, skip - 1, limit)
  {
    FilterHead(d, left, matches);
    Q.SkipOne(d, Q.Filtered(left, matches), project, skip, limit);
  }

  lemma TakeHead(out: seq<Bytes>, d: Bytes, left: seq<Bytes>, matches: Bytes -> bool, project: Bytes -> Bytes,
                 limit: int)
    returns (behind: seq<Bytes>)
    requires matches(d)
    ensures behind == if limit == 1 then []
            else Handed(left, matches, project, 0, if limit > 1 then limit - 1 else limit)
    ensures (out + [project(d)]) + behind == out + Handed([d] + left, matches, project, 0, limit)
  {
    FilterHead(d, left, matches);
    var rest := Q.Filtered(left, matches);
    Q.TakeOne(d, rest, project, limit);
    behind := Q.ResultsBehind(rest, project, limit);
    Q.TakenFirst(out, project(d), behind);
  }

  lemma FilterHead(d: Bytes, rest: seq<Bytes>, matches: Bytes -> bool)
    ensures Q.Filtered([d] + rest, matches) == if matches(d) then [d] + Q.Filtered(rest, matches)
            else Q.Filtered(rest, matches)
  {
    assert ([d] + rest)[1..] == rest;
  }

  lemma {:induction false} SelectAll(es: seq<Entry<Cell>>)
    ensures Select(es, All) == es
  {
    if es != [] {
      SelectAll(es[1..]);
    }
  }

  lemma Joined3(a: seq<Bytes>, b: seq<Bytes>, c: seq<Bytes>, bc: seq<Bytes>)
    requires bc == b + c
    ensures (a + b) + c == a + bc
  {
  }

  // ---- batches and writes, in any order ----

  datatype Turn = Change(op: Op, hostOk: bool) | Batch(maxCount: nat)

  /** A write beside an open cursor leaves what the cursor will hand out alone. */
  method ChangeBeside(t: Bpt, op: Op, hostOk: bool, b: BatchCursor) returns (r: Status)
    requires t.Valid() && t.fill != Loose && b.Valid() && (b.scan.Some? ==> b.scan.value.t == t)
    modifies t
    ensures t.Valid() && t.fill == old(t.fill) && b.Valid() && b.Rest() == old(b.Rest()) && b.done == old(b.done)
  {
    if b.scan.Some? {
      r := PerformBeside(t, op, hostOk, b.scan.value);
    } else {
      r := Perform(t, op, hostOk);
    }
  }

  method TakeTurn(t: Bpt, b: BatchCursor, turn: Turn, out: seq<Bytes>) returns (out2: seq<Bytes>)
    requires t.Valid() && t.fill != Loose && b.Valid() && (b.scan.Some? ==> b.scan.value.t == t)
    requires b.done ==> b.Rest() == []
    modifies t, b, b.Walked()
    ensures t.Valid() && t.fill == old(t.fill) && b.Valid() && (b.done ==> b.Rest() == [])
    ensures out2 + b.Rest() == out + old(b.Rest())
  {
    out2 := out;
    match turn {
      case Change(op, hostOk) =>
        var r := ChangeBeside(t, op, hostOk, b);
      case Batch(n) =>
        ghost var was := b.Rest();
        var more := b.NextBatch(n);
        Joined3(out, more, b.Rest(), was);
        out2 := out + more;
    }
  }

  /**
   * Batches of any sizes with writes between them: together they are a prefix of the results of an
   * unsorted find at opening time, with its skip, limit and projection, and all of them once the
   * cursor says it is done.
   */
  method BatchesUnderWrites(t: Bpt, candidates: Option<seq<Bytes>>, matches: Bytes -> bool, project: Bytes -> Bytes,
                            skip: int, limit: int, turns: seq<Turn>)
    returns (e: Status, out: seq<Bytes>, done: bool)
    requires t.Valid() && t.fill != Loose
    modifies t
    ensures t.Valid()
    ensures e == if candidates.None? && old(t.height) > MAX_DEPTH then TooDeep else Ok
    ensures e == TooDeep ==> old(t.size) >= DeepSize(old(t.fill))
    ensures var docs := if candidates.Some? then candidates.value else old(Documents(t));
            var goal := Handed(docs, matches, project, skip, limit);
            e == Ok ==> out <= goal && (done ==> out == goal)
  {
    out, done := [], false;
    ghost var docs := if candidates.Some? then candidates.value else Documents(t);
    var b;
    e, b := OpenBatches(t, candidates, matches, project, skip, limit);
    if e != Ok {
      return;
    }
    ghost var goal := b.Rest();
    for i := 0 to |turns|
      invariant t.Valid() && t.fill != Loose && b.Valid() && fresh(b) && fresh(b.Walked())
      invariant b.scan.Some? ==> b.scan.value.t == t
      invariant out + b.Rest() == goal && (b.done ==> b.Rest() == [])
    {
      out := TakeTurn(t, b, turns[i], out);
    }
    done := b.done;
  }

  /** Open a cursor on a tree, or on candidates. */
  method OpenBatches(t: Bpt, candidates: Option<seq<Bytes>>, matches: Bytes -> bool, project: Bytes -> Bytes, skip: int,
                     limit: int)
    returns (e: Status, b: BatchCursor)
    requires t.Valid()
    ensures fresh(b) && fresh(b.Walked()) && (b.scan.Some? ==> b.scan.value.t == t)
    ensures e == if candidates.None? && t.height > MAX_DEPTH then TooDeep else Ok
    ensures e == TooDeep ==> t.size >= DeepSize(t.fill)
    ensures e == Ok ==> b.Valid() && !b.done
    ensures var docs := if candidates.Some? then candidates.value else Documents(t);
            e == Ok ==> b.Rest() == Handed(docs, matches, project, skip, limit)
  {
    if candidates.Some? {
      b := new BatchCursor(None, candidates.value, matches, project, skip, limit);
      return Ok, b;
    }
    if t.height > MAX_DEPTH {
      DeepIsLarge(t.f.store, t.Now());
    }
    var c;
    e, c := Cursor.Open(t, All);
    if e != Ok {
      b := new BatchCursor(None, [], matches, project, skip, limit);
      return;
    }
    SelectAll(Entries(t.tree));
    b := new BatchCursor(Some(c), [], matches, project, skip, limit);
  }

  /** Batches of any positive sizes, until the cursor says it is done, are the results of one find. */
  method Drain(b: BatchCursor, sizes: nat -> nat) returns (all: seq<Bytes>)
    requires b.Valid() && forall n :: sizes(n) > 0
    modifies b, b.Walked()
    ensures b.Valid() && b.done && all == old(b.Rest())
  {
    all := [];
    var n := 0;
    while !b.done
      invariant b.Valid() && all + b.Rest() == old(b.Rest()) && (b.done ==> b.Rest() == [])
      decreases |b.Rest()|, !b.done
    {
      ghost var was := b.Rest();
      var batch := b.NextBatch(sizes(n));
      Joined3(all, batch, b.Rest(), was);
      all := all + batch;
      n := n + 1;
    }
  }
}
