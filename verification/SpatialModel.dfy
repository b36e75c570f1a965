// Boxes, points and the trees of an R-tree: what a node record stands for, and the two promises
// every record keeps - its boxes contain all points below, and all leaves are equally deep.
module SpatialModel {
  import opened RecordFile

  /** A bounding box; an invalid one stands for nothing, whatever its numbers. */
  datatype Box = Box(valid: bool, minLat: real, maxLat: real, minLng: real, maxLng: real)

  /** A stored entry. */
  datatype Pt = Pt(lat: real, lng: real, oid: Bytes)

  const NULL_BOX: Box := Box(false, 0.0, 0.0, 0.0, 0.0)

  function PointBox(e: Pt): Box {
    Box(true, e.lat, e.lat, e.lng, e.lng)
  }

  function Area(b: Box): real {
    (b.maxLat - b.minLat) * (b.maxLng - b.minLng)
  }

  function Union(a: Box, b: Box): Box {
    Box(true,
        if a.minLat < b.minLat then a.minLat else b.minLat, if a.maxLat > b.maxLat then a.maxLat else b.maxLat,
        if a.minLng < b.minLng then a.minLng else b.minLng, if a.maxLng > b.maxLng then a.maxLng else b.maxLng)
  }

  function Enlargement(a: Box, b: Box): real {
    Area(Union(a, b)) - Area(a)
  }

  predicate Intersects(a: Box, b: Box) {
    !(a.maxLat < b.minLat || a.minLat > b.maxLat || a.maxLng < b.minLng || a.minLng > b.maxLng)
  }

  /** The point lies in the query box. */
  predicate Inside(q: Box, e: Pt) {
    q.minLat <= e.lat <= q.maxLat && q.minLng <= e.lng <= q.maxLng
  }

  predicate Has(b: Box, e: Pt) {
    b.valid && Inside(b, e)
  }

  /** `a` lies within `b`. */
  predicate Within(a: Box, b: Box) {
    b.valid && b.minLat <= a.minLat && a.maxLat <= b.maxLat && b.minLng <= a.minLng && a.maxLng <= b.maxLng
  }

  /** Skipping a box the query misses skips no point of the query. */
  lemma PruneSafely(q: Box, b: Box, e: Pt)
    requires Has(b, e) && Inside(q, e)
    ensures b.valid && Intersects(q, b)
  {
  }

  // ---- trees ----

  datatype Spatial = Leaf(es: seq<Pt>) | Inner(kids: seq<Spatial>)

  /** The points of a tree, with their multiplicity. */
  ghost function Pts(t: Spatial): multiset<Pt>
    decreases t, 1
  {
    match t
    case Leaf(es) => multiset(es)
    case Inner(kids) => PtsAll(kids)
  }

  ghost function PtsAll(kids: seq<Spatial>): multiset<Pt>
    decreases kids, 0
  {
    if kids == [] then multiset{} else PtsAll(kids[..|kids| - 1]) + Pts(kids[|kids| - 1])
  }

  lemma {:induction false} PtsConcat(a: seq<Spatial>, b: seq<Spatial>)
    ensures PtsAll(a + b) == PtsAll(a) + PtsAll(b)
  {
    if b == [] {
      assert a + b == a;
    } else {
      assert (a + b)[..|a + b| - 1] == a + b[..|b| - 1];
      PtsConcat(a, b[..|b| - 1]);
    }
  }

  lemma PtsOne(t: Spatial)
    ensures PtsAll([t]) == Pts(t)
  {
    assert [t][..0] == [];
  }

  lemma PtsSnoc(kids: seq<Spatial>, t: Spatial)
    ensures PtsAll(kids + [t]) == PtsAll(kids) + Pts(t)
  {
    assert (kids + [t])[..|kids|] == kids;
  }

  lemma CutAt<T>(s: seq<T>, i: nat)
    requires i < |s|
    ensures s == s[..i] + [s[i]] + s[i + 1..]
  {
  }

  lemma PtsThree(a: seq<Spatial>, x: Spatial, b: seq<Spatial>)
    ensures PtsAll(a + [x] + b) == PtsAll(a) + Pts(x) + PtsAll(b)
  {
    PtsSnoc(a, x);
    PtsConcat(a + [x], b);
  }

  /** One child apart from the others. */
  lemma PtsAround(kids: seq<Spatial>, i: nat)
    requires i < |kids|
    ensures PtsAll(kids) == PtsAll(kids[..i]) + Pts(kids[i]) + PtsAll(kids[i + 1..])
  {
    CutAt(kids, i);
    PtsThree(kids[..i], kids[i], kids[i + 1..]);
  }

  lemma PtsReplaced(kids: seq<Spatial>, i: nat, t: Spatial)
    requires i < |kids|
    ensures PtsAll(kids[i := t]) + Pts(kids[i]) == PtsAll(kids) + Pts(t)
  {
    PtsAround(kids, i);
    PtsAround(kids[i := t], i);
    assert kids[i := t][..i] == kids[..i] && kids[i := t][i + 1..] == kids[i + 1..];
  }

  lemma {:induction false} PtsFrom(kids: seq<Spatial>, e: Pt) returns (i: nat)
    requires e in PtsAll(kids)
    ensures i < |kids| && e in Pts(kids[i])
  {
    if e in Pts(kids[|kids| - 1]) {
      i := |kids| - 1;
    } else {
      i := PtsFrom(kids[..|kids| - 1], e);
    }
  }

  /** How many nodes a tree has. */
  ghost function Nodes(t: Spatial): nat
    decreases t, 1
  {
    match t
    case Leaf(_) => 1
    case Inner(kids) => 1 + NodesAll(kids)
  }

  ghost function NodesAll(kids: seq<Spatial>): nat
    decreases kids, 0
  {
    if kids == [] then 0 else NodesAll(kids[..|kids| - 1]) + Nodes(kids[|kids| - 1])
  }

  lemma {:induction false} NodesConcat(a: seq<Spatial>, b: seq<Spatial>)
    ensures NodesAll(a + b) == NodesAll(a) + NodesAll(b)
  {
    if b == [] {
      assert a + b == a;
    } else {
      assert (a + b)[..|a + b| - 1] == a + b[..|b| - 1];
      NodesConcat(a, b[..|b| - 1]);
    }
  }

  lemma NodesSnoc(kids: seq<Spatial>, t: Spatial)
    ensures NodesAll(kids + [t]) == NodesAll(kids) + Nodes(t)
  {
    assert (kids + [t])[..|kids|] == kids;
  }

  lemma NodesAround(kids: seq<Spatial>, i: nat)
    requires i < |kids|
    ensures NodesAll(kids) == NodesAll(kids[..i]) + Nodes(kids[i]) + NodesAll(kids[i + 1..])
  {
    CutAt(kids, i);
    NodesSnoc(kids[..i], kids[i]);
    NodesConcat(kids[..i] + [kids[i]], kids[i + 1..]);
  }

  lemma NodesReplaced(kids: seq<Spatial>, i: nat, t: Spatial)
    requires i < |kids|
    ensures NodesAll(kids[i := t]) + Nodes(kids[i]) == NodesAll(kids) + Nodes(t)
  {
    NodesAround(kids, i);
    NodesAround(kids[i := t], i);
    assert kids[i := t][..i] == kids[..i] && kids[i := t][i + 1..] == kids[i + 1..];
  }

  /** All leaves at depth `h`, no node over `cap`, no inner node empty. */
  ghost predicate Fits(t: Spatial, h: nat, cap: nat) {
    match t
    case Leaf(es) => h == 0 && |es| <= cap
    case Inner(kids) => h >= 1 && 1 <= |kids| <= cap && forall i :: 0 <= i < |kids| ==> Fits(kids[i], h - 1, cap)
  }

  /** The box contains every point of the tree; so an invalid box has no point below it. */
  ghost predicate Covers(b: Box, t: Spatial) {
    forall e :: e in Pts(t) ==> Has(b, e)
  }

  lemma CoversWithin(a: Box, b: Box, t: Spatial)
    requires Covers(a, t) && (a.valid ==> Within(a, b))
    ensures Covers(b, t)
  {
  }

  lemma CoversInner(b: Box, kids: seq<Spatial>)
    requires forall i :: 0 <= i < |kids| ==> Covers(b, kids[i])
    ensures Covers(b, Inner(kids))
  {
    forall e | e in Pts(Inner(kids)) ensures Has(b, e) {
      var i := PtsFrom(kids, e);
    }
  }

  // ---- records ----

  datatype RNode = RNode(id: nat, isLeaf: bool, bbox: Box, entries: seq<Pt>, children: seq<nat>, cbs: seq<Box>)

  type RStore = map<nat, RNode>

  /** Encoded size of a box: null, or an object of four numbers. */
  function BoxSize(b: Box): nat {
    if b.valid then 85 else 1
  }

  function BoxesSize(bs: seq<Box>): nat {
    if bs == [] then 0 else BoxSize(bs[0]) + BoxesSize(bs[1..])
  }

  /** Encoded size of a node: id, kind, children - entries or pointers and their boxes - and its own box. */
  function NodeSize(nd: RNode): (n: nat)
    ensures n > 64
  {
    64 + (if nd.isLeaf then 159 * |nd.entries| else 24 + 9 * |nd.children| + BoxesSize(nd.cbs)) + BoxSize(nd.bbox)
  }

  /** The record stands for `t`: its contents are the tree's, its own box and its child boxes cover what is below. */
  ghost predicate NodeRepr(s: RStore, nd: RNode, below: nat, t: Spatial)
    decreases t, 1
  {
    && Covers(nd.bbox, t) && Shape(s, nd, below, t)
  }

  /** As `NodeRepr`, before the node's own box is known. */
  ghost predicate Shape(s: RStore, nd: RNode, below: nat, t: Spatial)
    decreases t, 0
  {
    match t
    case Leaf(es) => nd.isLeaf && nd.entries == es
    case Inner(kids) =>
      && !nd.isLeaf && |nd.children| == |nd.cbs| == |kids|
      && (forall i :: 0 <= i < |kids| ==> KidOk(s, nd.children[i], nd.cbs[i], below, kids[i]))
  }

  ghost predicate KidOk(s: RStore, p: nat, cb: Box, below: nat, t: Spatial)
    decreases t, 3
  {
    p < below && Covers(cb, t) && Repr(s, p, t)
  }

  ghost predicate Repr(s: RStore, p: nat, t: Spatial)
    decreases t, 2
  {
    p in s && NodeRepr(s, s[p], p, t)
  }

  ghost predicate Grows(s: RStore, s2: RStore) {
    forall o :: o in s ==> o in s2 && s2[o] == s[o]
  }

  lemma {:induction false} ReprExtends(s: RStore, s2: RStore, p: nat, t: Spatial)
    requires Grows(s, s2) && Repr(s, p, t)
    ensures Repr(s2, p, t)
    decreases t, 1
  {
    ShapeExtends(s, s2, s[p], p, p, t);
  }

  lemma {:induction false} ShapeExtends(s: RStore, s2: RStore, nd: RNode, b1: nat, b2: nat, t: Spatial)
    requires Grows(s, s2) && Shape(s, nd, b1, t) && b1 <= b2
    ensures Shape(s2, nd, b2, t)
    decreases t, 0
  {
    if t.Inner? {
      forall i | 0 <= i < |t.kids| ensures KidOk(s2, nd.children[i], nd.cbs[i], b2, t.kids[i]) {
        assert KidOk(s, nd.children[i], nd.cbs[i], b1, t.kids[i]);
        ReprExtends(s, s2, nd.children[i], t.kids[i]);
      }
    }
  }
}
