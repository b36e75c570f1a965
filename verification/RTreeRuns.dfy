// Whole runs of an R-tree: as long as few enough entries are inserted, nothing fails for depth; and a
// pile of entries on one place that shows how few.
module RTreeRuns {
  import opened RecordFile
  import opened SpatialModel
  import R = RTree

  const MAX_DEPTH: nat := R.RT_MAX_DEPTH

  /** One operation and the host's answer to its write. */
  datatype Action =
    | Insert(e: Pt, hostOk: bool)
    | Remove(oid: Bytes, place: Option<Box>, hostOk: bool)
    | Clear(hostOk: bool)
    | Find(q: Box)

  datatype Outcome = Outcome(st: Status, removed: bool, found: seq<Pt>)

  /** The count of entries inserted since the tree was empty, one operation later. */
  function CountAfter(a: Action, n: nat): nat {
    match a
    case Insert(_, hostOk) => if hostOk then n + 1 else n
    case Clear(hostOk) => if hostOk then 0 else n
    case _ => n
  }

  /** Entries inserted since the tree was created or last cleared. */
  ghost function Since(script: seq<Action>): nat {
    if script == [] then 0 else CountAfter(script[|script| - 1], Since(script[..|script| - 1]))
  }

  /** No entry with the id, or none at the place it is looked for. */
  ghost predicate Nowhere(m: multiset<Pt>, oid: Bytes, q: Option<Box>) {
    forall e :: e in m && e.oid == oid ==> q.Some? && !Inside(q.value, e)
  }

  /** What an operation does to the stored entries, and what it answers. */
  ghost predicate Effect(a: Action, o: Outcome, before: multiset<Pt>, after: multiset<Pt>) {
    if o.st != Ok then after == before
    else
      match a
      case Insert(e, _) => after == before + multiset{e}
      case Remove(oid, q, _) =>
        if o.removed then R.LostOne(after, before, oid) else after == before && Nowhere(before, oid, q)
      case Clear(_) => after == multiset{}
      case Find(q) => after == before && R.Answers(o.found, before, q)
  }

  /** Nothing but the host kept the operation from succeeding. */
  ghost predicate Settled(a: Action, o: Outcome) {
    match a
    case Find(_) => o.st == Ok
    case Remove(_, _, hostOk) => o.st == if o.removed && !hostOk then HostError else Ok
    case _ => o.st == if a.hostOk then Ok else HostError
  }

  /** After `n` inserts: at most one level for every entry that did not fit into the first leaf. */
  ghost predicate Counted(t: R.RTree, n: nat)
    reads t
  {
    t.size <= n && (t.height > 0 ==> t.height + t.cap <= n)
  }

  /** One operation of a run. */
  method Act(t: R.RTree, a: Action, ghost n: nat) returns (o: Outcome)
    requires t.Valid() && Counted(t, n)
    modifies t
    ensures t.Valid() && t.cap == old(t.cap)
    ensures Effect(a, o, old(Pts(t.tree)), Pts(t.tree))
    ensures n <= t.cap + MAX_DEPTH ==> Settled(a, o)
    ensures Counted(t, CountAfter(a, n))
  {
    var st, removed, found := Ok, false, [];
    match a {
      case Insert(e, hostOk) =>
        if t.height == 0 {
          LeafSize(t);
        }
        st := t.Insert(e, hostOk);
      case Remove(oid, q, hostOk) => st, removed := t.Remove(oid, q, hostOk);
      case Clear(hostOk) => st := t.Clear(hostOk);
      case Find(q) => st, found := R.SearchTree(t, q);
    }
    o := Outcome(st, removed, found);
  }

  lemma LeafSize(t: R.RTree)
    requires t.Valid() && t.height == 0
    ensures t.tree.Leaf? && |t.tree.es| == t.size
  {
  }

  /** A run: its outcomes, and what was stored before and after each operation. */
  ghost predicate Ran(cap: nat, script: seq<Action>, os: seq<Outcome>, ms: seq<multiset<Pt>>) {
    && |os| == |script| && |ms| == |script| + 1 && ms[0] == multiset{}
    && (forall i :: 0 <= i < |script| ==> Effect(script[i], os[i], ms[i], ms[i + 1]))
    && forall i :: 0 <= i < |script| && Since(script[..i]) <= cap + MAX_DEPTH ==> Settled(script[i], os[i])
  }

  lemma RanMore(cap: nat, script: seq<Action>, os: seq<Outcome>, ms: seq<multiset<Pt>>, a: Action, o: Outcome,
                m: multiset<Pt>)
    requires Ran(cap, script, os, ms) && Effect(a, o, ms[|script|], m)
    requires Since(script) <= cap + MAX_DEPTH ==> Settled(a, o)
    ensures Ran(cap, script + [a], os + [o], ms + [m]) && Since(script + [a]) == CountAfter(a, Since(script))
  {
    var s2 := script + [a];
    assert s2[..|script|] == script;
    forall i | 0 <= i < |s2| && Since(s2[..i]) <= cap + MAX_DEPTH ensures Settled(s2[i], (os + [o])[i]) {
      if i < |script| {
        assert s2[..i] == script[..i];
      }
    }
  }

  /**
   * A run on a fresh tree.  Every operation has its effect on the stored entries, and while at most
   * `cap` + 128 entries have been inserted since the tree was empty, only the host can make one fail.
   */
  method RunFromCreate(cap: nat, script: seq<Action>)
    returns (t: R.RTree, os: seq<Outcome>, ghost ms: seq<multiset<Pt>>)
    requires cap >= 2
    ensures t.Valid() && t.cap == cap && Ran(cap, script, os, ms) && ms[|script|] == Pts(t.tree)
    ensures t.height > 0 ==> t.height + cap <= Since(script)
  {
    var ok;
    ok, t := R.RTree.Create(cap, true);
    os, ms := [], [multiset{}];
    for i := 0 to |script|
      invariant t.Valid() && fresh(t) && t.cap == cap && Counted(t, Since(script[..i]))
      invariant Ran(cap, script[..i], os, ms) && ms[i] == Pts(t.tree)
    {
      var o := Act(t, script[i], Since(script[..i]));
      RanMore(cap, script[..i], os, ms, script[i], o, Pts(t.tree));
      assert script[..i + 1] == script[..i] + [script[i]];
      os, ms := os + [o], ms + [Pts(t.tree)];
    }
    assert script[..|script|] == script;
  }

  /** All entries stand on one place. */
  ghost predicate OnePlace(m: multiset<Pt>, lat: real, lng: real) {
    forall e :: e in m ==> e.lat == lat && e.lng == lng
  }

  /**
   * The count is sharp: in a tree of capacity 2, every entry on one place beyond the second adds a
   * level, because the first child is chosen each time and its path is always full.
   */
  method Pile(lat: real, lng: real, ids: nat -> Bytes, n: nat) returns (t: R.RTree)
    requires 2 <= n <= MAX_DEPTH + 3
    ensures fresh(t) && t.Valid() && t.cap == 2 && t.size == n && t.height == n - 2
    ensures OnePlace(Pts(t.tree), lat, lng)
  {
    t := PileTwo(lat, lng, ids);
    for i := 2 to n
      invariant fresh(t) && t.Valid() && t.cap == 2 && t.size == i && t.height == i - 2
      invariant R.Piled(t.store, t.root, t.tree, PointBox(Pt(lat, lng, []))) && OnePlace(Pts(t.tree), lat, lng)
    {
      var e := Pt(lat, lng, ids(i));
      assert PointBox(e) == PointBox(Pt(lat, lng, []));
      var st := t.Insert(e, true);
    }
  }

  /** The full first leaf. */
  method PileTwo(lat: real, lng: real, ids: nat -> Bytes) returns (t: R.RTree)
    ensures fresh(t) && t.Valid() && t.cap == 2 && t.size == 2 && t.height == 0
    ensures R.Piled(t.store, t.root, t.tree, PointBox(Pt(lat, lng, []))) && OnePlace(Pts(t.tree), lat, lng)
  {
    var ok;
    ok, t := R.RTree.Create(2, true);
    var e0, e1 := Pt(lat, lng, ids(0)), Pt(lat, lng, ids(1));
    FillLeaf(t, e0);
    assert [] + [e0] == [e0];
    FillLeaf(t, e1);
    assert [e0] + [e1] == [e0, e1];
    LeafPiled(t.store, t.root, [e0, e1], PointBox(Pt(lat, lng, [])));
    assert t.tree == Leaf([e0, e1]) && multiset([e0, e1]) == multiset{e0, e1};
  }

  /** An insert into a lone leaf with room. */
  method FillLeaf(t: R.RTree, e: Pt)
    requires t.Valid() && t.tree.Leaf? && |t.tree.es| < t.cap
    modifies t
    ensures t.Valid() && t.cap == old(t.cap) && t.height == old(t.height) && t.size == old(t.size) + 1
    ensures t.tree == Leaf(old(t.tree.es) + [e])
  {
    var st := t.Insert(e, true);
  }

  lemma LeafPiled(s: RStore, p: nat, es: seq<Pt>, bx: Box)
    requires Repr(s, p, Leaf(es)) && |es| == 2 && forall i :: 0 <= i < |es| ==> PointBox(es[i]) == bx
    ensures R.Piled(s, p, Leaf(es), bx)
  {
  }

  /**
   * One entry more than the run theorem allows.  The insert is committed, and from then on every
   * insert, every removal by id and every search around the entries fails.
   */
  method TooHigh(lat: real, lng: real, ids: nat -> Bytes, e: Pt, oid: Bytes, q: Box)
    returns (t: R.RTree, insert: Status, remove: Status, find: Status)
    requires Inside(q, Pt(lat, lng, []))
    ensures fresh(t) && t.Valid() && t.cap == 2 && t.size == t.cap + MAX_DEPTH + 1 && t.height == MAX_DEPTH + 1
    ensures insert == remove == find == TooDeep && OnePlace(Pts(t.tree), lat, lng)
  {
    t := Pile(lat, lng, ids, MAX_DEPTH + 3);
    ghost var some := Someone(Pts(t.tree));
    insert := t.Insert(e, true);
    var removed, found;
    remove, removed := t.Remove(oid, None, true);
    assert some in Pts(t.tree) && Inside(q, some);
    find, found := R.SearchTree(t, q);
  }

  lemma Someone(m: multiset<Pt>) returns (e: Pt)
    requires |m| > 0
    ensures e in m
  {
    e :| e in m;
  }
}
