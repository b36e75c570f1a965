// The R-tree: insert with quadratic split, remove with underflow repair, and box search, on
// append-only node records.
module RTree {
  import opened RecordFile
  import opened SpatialModel
  import opened QuadraticSplit

  const RT_MAX_DEPTH: nat := 128

  function MinEntriesFor(cap: nat): nat {
    if (cap + 1) / 2 < 2 then 2 else (cap + 1) / 2
  }

  /** Where a rewritten subtree went: one node, or two when it overflowed. */
  datatype Placed = Whole(ptr: nat, box: Box) | Halves(ptr: nat, box: Box, ptr2: nat, box2: Box)

  function Count(nd: RNode): nat {
    if nd.isLeaf then |nd.entries| else |nd.children|
  }

  predicate Consistent(nd: RNode) {
    !nd.isLeaf ==> |nd.children| == |nd.cbs|
  }

  /** The box of child `i`: a point's own, or the one kept for the child. */
  function ChildBox(nd: RNode, i: nat): Box
    requires Consistent(nd) && i < Count(nd)
  {
    if nd.isLeaf then PointBox(nd.entries[i]) else nd.cbs[i]
  }

  ghost function Kids(t: Spatial): nat {
    match t case Leaf(es) => |es| case Inner(kids) => |kids|
  }

  /** As `Fits`, but with room for `top` children in the root. */
  ghost predicate FitsTop(t: Spatial, h: nat, cap: nat, top: nat) {
    match t
    case Leaf(es) => h == 0 && |es| <= top
    case Inner(kids) => h >= 1 && 1 <= |kids| <= top && forall i :: 0 <= i < |kids| ==> Fits(kids[i], h - 1, cap)
  }

  /** A saved subtree with a box that covers it. */
  ghost predicate Stored(s: RStore, len: nat, p: nat, box: Box, t: Spatial, h: nat, cap: nat) {
    KidOk(s, p, box, len, t) && Fits(t, h, cap)
  }

  ghost predicate Inserted(s: RStore, len: nat, r: Placed, a: Spatial, b: Spatial, pts: multiset<Pt>, h: nat,
                           cap: nat) {
    match r
    case Whole(p, box) => Stored(s, len, p, box, a, h, cap) && Pts(a) == pts
    case Halves(p, box, p2, box2) =>
      Stored(s, len, p, box, a, h, cap) && Stored(s, len, p2, box2, b, h, cap) && Pts(a) + Pts(b) == pts
  }

  /** A box around all valid child boxes covers the node. */
  lemma BoxCovers(s: RStore, nd: RNode, below: nat, t: Spatial, b: Box)
    requires Shape(s, nd, below, t)
    requires forall i :: 0 <= i < Count(nd) && ChildBox(nd, i).valid ==> Within(ChildBox(nd, i), b)
    ensures Covers(b, t)
  {
    match t
    case Leaf(es) =>
      forall e | e in Pts(t) ensures Has(b, e) {
        var i :| 0 <= i < |es| && es[i] == e;
        assert Within(ChildBox(nd, i), b);
      }
    case Inner(kids) =>
      forall i | 0 <= i < |kids| ensures Covers(b, kids[i]) {
        assert KidOk(s, nd.children[i], nd.cbs[i], below, kids[i]);
        assert ChildBox(nd, i) == nd.cbs[i];
        CoversWithin(nd.cbs[i], b, kids[i]);
      }
      CoversInner(b, kids);
  }

  /** Union of the children's boxes; the null box when no child has one. */
  method ComputeBox(nd: RNode) returns (acc: Box)
    requires Consistent(nd)
    ensures forall i :: 0 <= i < Count(nd) && ChildBox(nd, i).valid ==> Within(ChildBox(nd, i), acc)
    ensures (forall i :: 0 <= i < Count(nd) ==> !ChildBox(nd, i).valid) ==> acc == NULL_BOX
  {
    acc := NULL_BOX;
    for i := 0 to Count(nd)
      invariant forall k :: 0 <= k < i && ChildBox(nd, k).valid ==> Within(ChildBox(nd, k), acc)
      invariant (forall k :: 0 <= k < i ==> !ChildBox(nd, k).valid) ==> acc == NULL_BOX
    {
      var cb := ChildBox(nd, i);
      if !cb.valid {
        continue;
      }
      UnionWithin(acc, cb);
      UnionWithin(cb, acc);
      acc := if acc.valid then Union(acc, cb) else cb;
    }
  }

  /** The child whose box grows least for the point; the smaller one on a tie. */
  method ChooseSubtree(nd: RNode, bb: Box) returns (best: nat)
    requires Consistent(nd) && Count(nd) > 0
    ensures best < Count(nd)
    ensures forall i :: 0 <= i < Count(nd) ==> Enlargement(ChildBox(nd, best), bb) <= Enlargement(ChildBox(nd, i), bb)
    ensures (forall i :: 0 <= i < Count(nd) ==> ChildBox(nd, i) == ChildBox(nd, 0)) ==> best == 0
  {
    best := 0;
    var minEnl, minArea := Enlargement(ChildBox(nd, 0), bb), Area(ChildBox(nd, 0));
    for i := 1 to Count(nd)
      invariant best < Count(nd) && minEnl == Enlargement(ChildBox(nd, best), bb) && minArea == Area(ChildBox(nd, best))
      invariant (forall k :: 0 <= k < Count(nd) ==> ChildBox(nd, k) == ChildBox(nd, 0)) ==> best == 0
      invariant forall k :: 0 <= k < i ==> minEnl <= Enlargement(ChildBox(nd, k), bb)
    {
      var cb := ChildBox(nd, i);
      var enl, ar := Enlargement(cb, bb), Area(cb);
      if enl < minEnl || (enl == minEnl && ar < minArea) {
        minEnl, minArea, best := enl, ar, i;
      }
    }
  }

  // ---- entries piled on one place ----

  /** Every box below the node is `bx`. */
  ghost predicate AllBoxes(s: RStore, nd: RNode, t: Spatial, bx: Box)
    decreases t
  {
    match t
    case Leaf(es) => forall i :: 0 <= i < |es| ==> PointBox(es[i]) == bx
    case Inner(kids) =>
      && |nd.children| == |nd.cbs| == |kids|
      && forall i :: 0 <= i < |kids| ==>
           nd.cbs[i] == bx && nd.children[i] in s && AllBoxes(s, s[nd.children[i]], kids[i], bx)
  }

  /** Two children in the node and in every first child below it. */
  ghost predicate FirstFull(t: Spatial) {
    Kids(t) == 2 && (t.Inner? ==> FirstFull(t.kids[0]))
  }

  ghost predicate PiledAs(s: RStore, nd: RNode, t: Spatial, bx: Box) {
    AllBoxes(s, nd, t, bx) && FirstFull(t)
  }

  ghost predicate Piled(s: RStore, p: nat, t: Spatial, bx: Box) {
    p in s && PiledAs(s, s[p], t, bx)
  }

  /** A node with a child too many, full along its first children. */
  ghost predicate Overpiled(s: RStore, nd: RNode, t: Spatial, bx: Box) {
    bx.valid && Kids(t) == 3 && AllBoxes(s, nd, t, bx) && (t.Inner? ==> FirstFull(t.kids[0]))
  }

  /** The halves of such a node: the first is full along its first children again. */
  ghost predicate PiledHalves(s: RStore, r: Placed, a: Spatial, b: Spatial, bx: Box) {
    && r.Halves? && r.box == bx && r.box2 == bx && Piled(s, r.ptr, a, bx)
    && r.ptr2 in s && AllBoxes(s, s[r.ptr2], b, bx)
  }

  lemma {:induction false} AllBoxesLater(s: RStore, s2: RStore, nd: RNode, n2: RNode, t: Spatial, bx: Box)
    requires Grows(s, s2) && AllBoxes(s, nd, t, bx) && n2 == nd.(bbox := n2.bbox)
    ensures AllBoxes(s2, n2, t, bx)
    decreases t
  {
    if t.Inner? {
      forall i | 0 <= i < |t.kids| ensures AllBoxes(s2, s2[nd.children[i]], t.kids[i], bx) {
        AllBoxesLater(s, s2, s[nd.children[i]], s[nd.children[i]], t.kids[i], bx);
      }
    }
  }

  /** The boxes that a split looks at. */
  lemma PiledBoxes(s: RStore, nd: RNode, below: nat, t: Spatial, cb: seq<Box>, bx: Box)
    requires Shape(s, nd, below, t) && Overpiled(s, nd, t, bx)
    requires |cb| == Count(nd) && forall i :: 0 <= i < |cb| ==> cb[i] == ChildBox(nd, i)
    ensures |cb| == 3 && AllSame(cb) && cb[0] == bx
  {
    if t.Inner? {
      assert forall i :: 0 <= i < |cb| ==> cb[i] == nd.cbs[i];
    }
  }

  ghost function Marked(there: bool, i: nat): seq<nat> {
    if there then [i] else []
  }

  lemma PlacesOfThree(grp: seq<nat>, g: nat)
    requires |grp| == 3
    ensures Places(grp, g) == Marked(grp[0] == g, 0) + Marked(grp[1] == g, 1) + Marked(grp[2] == g, 2)
  {
    PlacesSnoc([], grp[0], g);
    PlacesSnoc([grp[0]], grp[1], g);
    PlacesSnoc([grp[0], grp[1]], grp[2], g);
    assert [] + [grp[0]] == [grp[0]] && [grp[0], grp[1]] + [grp[2]] == grp;
  }

  lemma PlacesSnoc(grp: seq<nat>, x: nat, g: nat)
    ensures Places(grp + [x], g) == Places(grp, g) + Marked(x == g, |grp|)
  {
    assert (grp + [x])[..|grp|] == grp;
  }

  /** The node with the halves of its first child in place of it. */
  lemma PiledPutBack(s: RStore, nd: RNode, n2: RNode, kids: seq<Spatial>, cr: Placed, ka: Spatial, kb: Spatial, bx: Box)
    requires bx.valid && |kids| == 2 && AllBoxes(s, nd, Inner(kids), bx) && PiledHalves(s, cr, ka, kb, bx)
    requires n2.children == nd.children[0 := cr.ptr] + [cr.ptr2] && n2.cbs == nd.cbs[0 := cr.box] + [cr.box2]
    ensures Overpiled(s, n2, Inner(kids[0 := ka] + [kb]), bx)
  {
    var k2 := kids[0 := ka] + [kb];
    assert k2[0] == ka && k2[1] == kids[1] && k2[2] == kb;
    forall i | 0 <= i < 3
      ensures n2.cbs[i] == bx && n2.children[i] in s && AllBoxes(s, s[n2.children[i]], k2[i], bx) {
      assert nd.cbs[1] == bx && AllBoxes(s, s[nd.children[1]], kids[1], bx);
    }
  }

  /** The groups of a node, as nodes. */
  ghost predicate InGroups(nd: RNode, grp: seq<nat>, n1: RNode, n2: RNode)
    requires Consistent(nd) && |grp| == Count(nd)
  {
    GroupNode(nd, Places(grp, 1), n1) && GroupNode(nd, Places(grp, 2), n2)
  }

  ghost predicate GroupNode(nd: RNode, at: seq<nat>, n: RNode)
    requires Consistent(nd) && forall k :: 0 <= k < |at| ==> at[k] < Count(nd)
  {
    assert Count(nd) == if nd.isLeaf then |nd.entries| else |nd.children|;
    n == if nd.isLeaf then MakeLeaf(n.id, Pick(nd.entries, at))
         else MakeInner(n.id, Pick(nd.children, at), Pick(nd.cbs, at))
  }

  /** One group of such a node, as a node. */
  lemma PiledGroup(s: RStore, nd: RNode, t: Spatial, at: seq<nat>, n2: RNode, bx: Box)
    requires AllBoxes(s, nd, t, bx) && (forall k :: 0 <= k < |at| ==> at[k] < Kids(t))
    requires t.Inner? ==> |nd.children| == |nd.cbs| == Kids(t)
                          && n2.children == Pick(nd.children, at) && n2.cbs == Pick(nd.cbs, at)
    ensures AllBoxes(s, n2, PickTree(t, at), bx)
  {
  }

  /** The two nodes that a split of such a node saves. */
  lemma PiledSplit(s: RStore, s2: RStore, nd: RNode, t: Spatial, grp: seq<nat>, n1: RNode, n2: RNode, r: Placed,
                   a: Spatial, b: Spatial, bx: Box)
    requires Overpiled(s, nd, t, bx) && grp == [1, 2, 1] && Grows(s, s2) && r.Halves? && r.box == bx && r.box2 == bx
    requires a == PickTree(t, Places(grp, 1)) && b == PickTree(t, Places(grp, 2))
    requires Consistent(nd) && Count(nd) == 3 && (nd.isLeaf <==> t.Leaf?) && InGroups(nd, grp, n1, n2)
    requires r.ptr in s2 && s2[r.ptr] == n1.(bbox := s2[r.ptr].bbox)
    requires r.ptr2 in s2 && s2[r.ptr2] == n2.(bbox := s2[r.ptr2].bbox)
    ensures PiledHalves(s2, r, a, b, bx)
  {
    PlacesOfThree(grp, 1);
    PlacesOfThree(grp, 2);
    PiledGroup(s, nd, t, Places(grp, 1), n1, bx);
    PiledGroup(s, nd, t, Places(grp, 2), n2, bx);
    AllBoxesLater(s, s2, n1, s2[r.ptr], a, bx);
    AllBoxesLater(s, s2, n2, s2[r.ptr2], b, bx);
    if t.Inner? {
      assert a.kids[0] == t.kids[0];
    }
  }

  /** A node over two such halves. */
  lemma PiledPair(s: RStore, s2: RStore, nr: RNode, r: Placed, a: Spatial, b: Spatial, bx: Box)
    requires PiledHalves(s, r, a, b, bx) && Grows(s, s2)
    requires nr.children == [r.ptr, r.ptr2] && nr.cbs == [r.box, r.box2]
    ensures PiledAs(s2, nr, Inner([a, b]), bx)
  {
    AllBoxesLater(s, s2, s[r.ptr], s[r.ptr], a, bx);
    AllBoxesLater(s, s2, s[r.ptr2], s[r.ptr2], b, bx);
    var kids := [a, b];
    assert kids[0] == a && kids[1] == b;
    assert Kids(Inner(kids)) == 2;
  }

  // ---- pieces of a node ----

  function MakeLeaf(id: nat, es: seq<Pt>): RNode {
    RNode(id, true, NULL_BOX, es, [], [])
  }

  function MakeInner(id: nat, children: seq<nat>, cbs: seq<Box>): RNode {
    RNode(id, false, NULL_BOX, [], children, cbs)
  }

  /** The children at the given places, as a tree of their own. */
  ghost function PickTree(t: Spatial, at: seq<nat>): (a: Spatial)
    requires forall k :: 0 <= k < |at| ==> at[k] < Kids(t)
    ensures Kids(a) == |at|
  {
    match t
    case Leaf(es) =>
      assert Kids(t) == |es|;
      Leaf(Pick(es, at))
    case Inner(kids) =>
      assert Kids(t) == |kids|;
      Inner(Pick(kids, at))
  }

  /** A child's points exchanged for those of what replaces it. */
  lemma Exchange(rep: multiset<Pt>, kb: multiset<Pt>, kid: multiset<Pt>, all: multiset<Pt>, ka: multiset<Pt>,
                 e: multiset<Pt>)
    requires rep + kid == all + ka && ka + kb == kid + e
    ensures rep + kb == all + e
  {
    forall v: Pt ensures (rep + kb)[v] == (all + e)[v] {
      assert (rep + kid)[v] == (all + ka)[v] && (ka + kb)[v] == (kid + e)[v];
    }
  }

  /** One group of a node, as a node. */
  lemma GroupShape(s: RStore, nd: RNode, below: nat, t: Spatial, h: nat, cap: nat, top: nat, at: seq<nat>, id: nat)
    returns (a: Spatial)
    requires Shape(s, nd, below, t) && FitsTop(t, h, cap, top) && 1 <= |at| <= cap
    requires forall k :: 0 <= k < |at| ==> at[k] < Kids(t)
    ensures a == PickTree(t, at)
    ensures t.Leaf? ==> Shape(s, MakeLeaf(id, Pick(nd.entries, at)), below, a)
    ensures t.Inner? ==> Shape(s, MakeInner(id, Pick(nd.children, at), Pick(nd.cbs, at)), below, a)
    ensures Fits(a, h, cap)
  {
    a := PickTree(t, at);
    if t.Inner? {
      var kids := t.kids;
      var n2 := MakeInner(id, Pick(nd.children, at), Pick(nd.cbs, at));
      forall k | 0 <= k < |at|
        ensures KidOk(s, n2.children[k], n2.cbs[k], below, a.kids[k]) && Fits(a.kids[k], h - 1, cap) {
        assert KidOk(s, nd.children[at[k]], nd.cbs[at[k]], below, kids[at[k]]);
      }
    }
  }

  /** A group's box covers the group. */
  lemma GroupCovers(s: RStore, nd: RNode, below: nat, t: Spatial, cb: seq<Box>, at: seq<nat>, gb: Box, a: Spatial)
    requires Shape(s, nd, below, t) && |cb| == Count(nd) && forall i :: 0 <= i < |cb| ==> cb[i] == ChildBox(nd, i)
    requires forall k :: 0 <= k < |at| ==> at[k] < |cb| && (cb[at[k]].valid ==> Within(cb[at[k]], gb))
    requires a == PickTree(t, at)
    ensures Covers(gb, a)
  {
    match t
    case Leaf(es) =>
      forall e | e in Pts(a) ensures Has(gb, e) {
        var k :| 0 <= k < |a.es| && a.es[k] == e;
        assert Within(cb[at[k]], gb);
      }
    case Inner(kids) =>
      forall k | 0 <= k < |a.kids| ensures Covers(gb, a.kids[k]) {
        assert KidOk(s, nd.children[at[k]], nd.cbs[at[k]], below, kids[at[k]]);
        assert cb[at[k]] == nd.cbs[at[k]];
        CoversWithin(nd.cbs[at[k]], gb, kids[at[k]]);
      }
      CoversInner(gb, a.kids);
  }

  /** Both groups together hold the node's points. */
  lemma GroupPts(t: Spatial, grp: seq<nat>, a: Spatial, b: Spatial)
    requires TwoGroups(grp) && |grp| == Kids(t)
    requires a == PickTree(t, Places(grp, 1)) && b == PickTree(t, Places(grp, 2))
    ensures Pts(a) + Pts(b) == Pts(t)
  {
    match t
    case Leaf(es) => PickAll(es, grp);
    case Inner(kids) => PickPts(kids, grp);
  }

  /** The two groups have the node's children, and one node more. */
  lemma GroupNodes(t: Spatial, grp: seq<nat>, a: Spatial, b: Spatial)
    requires TwoGroups(grp) && |grp| == Kids(t)
    requires a == PickTree(t, Places(grp, 1)) && b == PickTree(t, Places(grp, 2))
    ensures Nodes(a) + Nodes(b) == Nodes(t) + 1
  {
    if t.Inner? {
      PickNodes(t.kids, grp);
    }
  }

  /** The trees that the two groups stand for. */
  lemma SplitTrees(s: RStore, len: nat, cap: nat, nd: RNode, t: Spatial, h: nat, cb: seq<Box>, grp: seq<nat>, gb1: Box,
                   gb2: Box, n1: RNode, n2: RNode, a: Spatial, b: Spatial)
    requires cap >= 2 && Shape(s, nd, len, t) && FitsTop(t, h, cap, cap + 1) && |grp| == Kids(t)
    requires |cb| == Count(nd) && forall i :: 0 <= i < |cb| ==> cb[i] == ChildBox(nd, i)
    requires TwoGroups(grp) && Grouped(cb, grp, gb1, gb2)
    requires 1 <= |Places(grp, 1)| < |grp| && 1 <= |Places(grp, 2)| < |grp|
    requires InGroups(nd, grp, n1, n2) && a == PickTree(t, Places(grp, 1)) && b == PickTree(t, Places(grp, 2))
    ensures Shape(s, n1, len, a) && Covers(gb1, a) && Fits(a, h, cap)
    ensures Shape(s, n2, len, b) && Covers(gb2, b) && Fits(b, h, cap)
    ensures Pts(a) + Pts(b) == Pts(t) && Nodes(a) + Nodes(b) == Nodes(t) + 1
  {
    var a2 := GroupShape(s, nd, len, t, h, cap, cap + 1, Places(grp, 1), n1.id);
    var b2 := GroupShape(s, nd, len, t, h, cap, cap + 1, Places(grp, 2), n2.id);
    GroupCovers(s, nd, len, t, cb, Places(grp, 1), gb1, a);
    GroupCovers(s, nd, len, t, cb, Places(grp, 2), gb2, b);
    GroupPts(t, grp, a, b);
    GroupNodes(t, grp, a, b);
  }

  /** A child replaced by a rewritten one. */
  lemma ShapeReplaced(s: RStore, nd: RNode, below: nat, kids: seq<Spatial>, h: nat, cap: nat, i: nat, p: nat, box: Box,
                      a: Spatial)
    requires Shape(s, nd, below, Inner(kids)) && FitsTop(Inner(kids), h, cap, cap) && i < |kids|
             && Stored(s, below, p, box, a, h - 1, cap)
    ensures var n2 := nd.(children := nd.children[i := p], cbs := nd.cbs[i := box]);
            Shape(s, n2, below, Inner(kids[i := a])) && FitsTop(Inner(kids[i := a]), h, cap, cap)
    ensures PtsAll(kids[i := a]) + Pts(kids[i]) == PtsAll(kids) + Pts(a)
  {
    PtsReplaced(kids, i, a);
    var n2 := nd.(children := nd.children[i := p], cbs := nd.cbs[i := box]);
    forall k | 0 <= k < |kids| ensures KidOk(s, n2.children[k], n2.cbs[k], below, kids[i := a][k]) {
      assert k != i ==> KidOk(s, nd.children[k], nd.cbs[k], below, kids[k]);
    }
  }

  /** A child added at the end. */
  lemma ShapeAdded(s: RStore, nd: RNode, below: nat, kids: seq<Spatial>, h: nat, cap: nat, p: nat, box: Box, b: Spatial)
    requires Shape(s, nd, below, Inner(kids)) && FitsTop(Inner(kids), h, cap, cap)
             && Stored(s, below, p, box, b, h - 1, cap)
    ensures var n2 := nd.(children := nd.children + [p], cbs := nd.cbs + [box]);
            Shape(s, n2, below, Inner(kids + [b])) && FitsTop(Inner(kids + [b]), h, cap, cap + 1)
    ensures PtsAll(kids + [b]) == PtsAll(kids) + Pts(b)
  {
    PtsSnoc(kids, b);
    var n2 := nd.(children := nd.children + [p], cbs := nd.cbs + [box]);
    forall k | 0 <= k < |kids| + 1 ensures KidOk(s, n2.children[k], n2.cbs[k], below, (kids + [b])[k]) {
      assert k < |kids| ==> KidOk(s, nd.children[k], nd.cbs[k], below, kids[k]);
    }
  }

  // ---- joining and cutting nodes ----

  ghost function JoinTree(a: Spatial, b: Spatial): Spatial {
    if a.Leaf? && b.Leaf? then Leaf(a.es + b.es) else if a.Inner? && b.Inner? then Inner(a.kids + b.kids) else a
  }

  /** Contents of two nodes of the same level, one after the other. */
  function JoinNode(id: nat, n1: RNode, n2: RNode): RNode {
    if n1.isLeaf then MakeLeaf(id, n1.entries + n2.entries)
        else MakeInner(id, n1.children + n2.children, n1.cbs + n2.cbs)
  }

  lemma JoinShape(s: RStore, n1: RNode, n2: RNode, below: nat, a: Spatial, b: Spatial, h: nat, cap: nat, id: nat)
    requires Shape(s, n1, below, a) && Shape(s, n2, below, b) && Fits(a, h, cap) && Fits(b, h, cap)
    ensures Shape(s, JoinNode(id, n1, n2), below, JoinTree(a, b)) && Pts(JoinTree(a, b)) == Pts(a) + Pts(b)
    ensures Kids(JoinTree(a, b)) == Kids(a) + Kids(b) == Count(JoinNode(id, n1, n2))
    ensures FitsTop(JoinTree(a, b), h, cap, Kids(a) + Kids(b))
  {
    if a.Inner? {
      PtsConcat(a.kids, b.kids);
      var m, k := JoinNode(id, n1, n2), a.kids + b.kids;
      forall i | 0 <= i < |k| ensures KidOk(s, m.children[i], m.cbs[i], below, k[i]) {
        if i < |a.kids| {
          assert KidOk(s, n1.children[i], n1.cbs[i], below, a.kids[i]);
        } else {
          var j := i - |a.kids|;
          assert KidOk(s, n2.children[j], n2.cbs[j], below, b.kids[j]);
        }
      }
    }
  }

  lemma JoinNodes(a: Spatial, b: Spatial)
    requires a.Leaf? <==> b.Leaf?
    ensures Nodes(JoinTree(a, b)) + 1 == Nodes(a) + Nodes(b)
  {
    if a.Inner? {
      NodesConcat(a.kids, b.kids);
    }
  }

  ghost function SliceTree(t: Spatial, i: nat, j: nat): Spatial
    requires i <= j <= Kids(t)
  {
    match t
    case Leaf(es) =>
      assert Kids(t) == |es|;
      Leaf(es[i..j])
    case Inner(kids) =>
      assert Kids(t) == |kids|;
      Inner(kids[i..j])
  }

  function SliceNode(id: nat, nd: RNode, i: nat, j: nat): RNode
    requires Consistent(nd) && i <= j <= Count(nd)
  {
    if nd.isLeaf then MakeLeaf(id, nd.entries[i..j]) else MakeInner(id, nd.children[i..j], nd.cbs[i..j])
  }

  lemma SliceShape(s: RStore, nd: RNode, below: nat, t: Spatial, h: nat, cap: nat, i: nat, j: nat, id: nat)
    requires Shape(s, nd, below, t) && FitsTop(t, h, cap, Kids(t)) && i < j <= Kids(t) && j - i <= cap
    ensures Consistent(nd) && Count(nd) == Kids(t)
    ensures Shape(s, SliceNode(id, nd, i, j), below, SliceTree(t, i, j)) && Fits(SliceTree(t, i, j), h, cap)
  {
    if t.Inner? {
      var m, k := SliceNode(id, nd, i, j), t.kids[i..j];
      forall x | 0 <= x < |k| ensures KidOk(s, m.children[x], m.cbs[x], below, k[x]) && Fits(k[x], h - 1, cap) {
        assert KidOk(s, nd.children[i + x], nd.cbs[i + x], below, t.kids[i + x]);
      }
    }
  }

  lemma SlicePts(t: Spatial, mid: nat)
    requires mid <= Kids(t)
    ensures Pts(SliceTree(t, 0, mid)) + Pts(SliceTree(t, mid, Kids(t))) == Pts(t)
  {
    match t
    case Leaf(es) =>
      assert es == es[0..mid] + es[mid..|es|];
    case Inner(kids) =>
      assert kids == kids[0..mid] + kids[mid..|kids|];
      PtsConcat(kids[0..mid], kids[mid..|kids|]);
  }

  lemma SliceNodes(t: Spatial, mid: nat)
    requires mid <= Kids(t)
    ensures Nodes(SliceTree(t, 0, mid)) + Nodes(SliceTree(t, mid, Kids(t))) == Nodes(t) + 1
  {
    if t.Inner? {
      assert t.kids == t.kids[0..mid] + t.kids[mid..|t.kids|];
      NodesConcat(t.kids[0..mid], t.kids[mid..|t.kids|]);
    }
  }

  /** Two neighbours taken out. */
  lemma PtsWithout(kids: seq<Spatial>, lo: nat)
    requires lo + 1 < |kids|
    ensures PtsAll(kids[..lo] + kids[lo + 2..]) + Pts(kids[lo]) + Pts(kids[lo + 1]) == PtsAll(kids)
  {
    PtsAround(kids, lo);
    var rest := kids[lo + 1..];
    PtsAround(rest, 0);
    assert rest[..0] == [] && rest[1..] == kids[lo + 2..];
    PtsConcat(kids[..lo], kids[lo + 2..]);
  }

  lemma NodesWithout(kids: seq<Spatial>, lo: nat)
    requires lo + 1 < |kids|
    ensures NodesAll(kids[..lo] + kids[lo + 2..]) + Nodes(kids[lo]) + Nodes(kids[lo + 1]) == NodesAll(kids)
  {
    NodesAround(kids, lo);
    var rest := kids[lo + 1..];
    NodesAround(rest, 0);
    assert rest[..0] == [] && rest[1..] == kids[lo + 2..];
    NodesConcat(kids[..lo], kids[lo + 2..]);
  }

  /** Nodes of a placed subtree. */
  ghost function PlacedNodes(r: Placed, a: Spatial, b: Spatial): nat {
    Nodes(a) + if r.Halves? then Nodes(b) else 0
  }

  /** The points after a merge. */
  lemma MergedPts(kids: seq<Spatial>, lo: nat, r: Placed, x1: Spatial, x2: Spatial, a: multiset<Pt>, sib: multiset<Pt>,
                  c: multiset<Pt>,
                  kids2: seq<Spatial>)
    requires lo + 1 < |kids|
             && ((c == Pts(kids[lo]) && sib == Pts(kids[lo + 1])) || (sib == Pts(kids[lo]) && c == Pts(kids[lo + 1])))
    requires a + sib == if r.Halves? then Pts(x1) + Pts(x2) else Pts(x1)
    requires kids2 == var kept := kids[..lo] + kids[lo + 2..]; if r.Halves? then kept + [x1] + [x2] else kept + [x1]
    ensures PtsAll(kids2) + c == PtsAll(kids) + a
  {
    var kept := kids[..lo] + kids[lo + 2..];
    PtsWithout(kids, lo);
    PtsSnoc(kept, x1);
    PtsSnoc(kept + [x1], x2);
    Rebalance(PtsAll(kids2), PtsAll(kept), c, sib, PtsAll(kids), a + sib, a);
  }

  lemma MergedNodes(kids: seq<Spatial>, lo: nat, r: Placed, x1: Spatial, x2: Spatial)
    requires lo + 1 < |kids|
    ensures var kept := kids[..lo] + kids[lo + 2..];
            NodesAll(if r.Halves? then kept + [x1] + [x2] else kept + [x1]) + Nodes(kids[lo]) + Nodes(kids[lo + 1])
            == NodesAll(kids) + PlacedNodes(r, x1, x2)
  {
    var kept := kids[..lo] + kids[lo + 2..];
    NodesWithout(kids, lo);
    NodesSnoc(kept, x1);
    NodesSnoc(kept + [x1], x2);
  }

  /** The children as a sequence of saved subtrees of height `h`. */
  ghost predicate AllStored(s: RStore, len: nat, ps: seq<nat>, bs: seq<Box>, kids: seq<Spatial>, h: nat, cap: nat) {
    |ps| == |bs| == |kids| && forall i :: 0 <= i < |kids| ==> Stored(s, len, ps[i], bs[i], kids[i], h, cap)
  }

  lemma AllStoredIs(s: RStore, nd: RNode, below: nat, kids: seq<Spatial>, h: nat, cap: nat)
    requires h >= 1 && !nd.isLeaf
    ensures AllStored(s, below, nd.children, nd.cbs, kids, h - 1, cap)
       <==> Shape(s, nd, below, Inner(kids)) && forall i :: 0 <= i < |kids| ==> Fits(kids[i], h - 1, cap)
  {
    if AllStored(s, below, nd.children, nd.cbs, kids, h - 1, cap) {
      forall i | 0 <= i < |kids|
        ensures KidOk(s, nd.children[i], nd.cbs[i], below, kids[i]) && Fits(kids[i], h - 1, cap) {
        assert Stored(s, below, nd.children[i], nd.cbs[i], kids[i], h - 1, cap);
      }
    }
    if Shape(s, nd, below, Inner(kids)) && forall i :: 0 <= i < |kids| ==> Fits(kids[i], h - 1, cap) {
      forall i | 0 <= i < |kids| ensures Stored(s, below, nd.children[i], nd.cbs[i], kids[i], h - 1, cap) {
        assert KidOk(s, nd.children[i], nd.cbs[i], below, kids[i]);
      }
    }
  }

  /** The list without the two neighbours at `lo` and `lo + 1`. */
  method Without<T>(xs: seq<T>, lo: nat) returns (r: seq<T>)
    requires lo + 1 < |xs|
    ensures r == xs[..lo] + xs[lo + 2..]
  {
    r := [];
    for i := 0 to |xs|
      invariant r == if i <= lo then xs[..i] else if i == lo + 1 then xs[..lo] else xs[..lo] + xs[lo + 2..i]
    {
      if i == lo || i == lo + 1 {
        continue;
      }
      r := r + [xs[i]];
    }
  }

  /** The points of the replaced neighbours balance. */
  lemma Rebalance(new_: multiset<Pt>, kept: multiset<Pt>, c: multiset<Pt>, sib: multiset<Pt>, all: multiset<Pt>,
                  put: multiset<Pt>, a: multiset<Pt>)
    requires (kept + c + sib == all || kept + sib + c == all) && put == a + sib && new_ == kept + put
    ensures new_ + c == all + a
  {
    forall v: Pt ensures (new_ + c)[v] == (all + a)[v] {
      assert (kept + c + sib)[v] == kept[v] + c[v] + sib[v] && (kept + sib + c)[v] == kept[v] + c[v] + sib[v];
    }
  }

  /** `before` is `after` and one entry with the id. */
  ghost predicate LostOne(after: multiset<Pt>, before: multiset<Pt>, oid: Bytes) {
    exists x: Pt :: x in before && x.oid == oid && before == after + multiset{x}
  }

  class RTree {
    var store: RStore
    var len: nat
    var root: nat
    var nextId: nat
    var size: int
    var cap: nat
    var minEntries: nat
    ghost var tree: Spatial
    ghost var height: nat

    /** Records lie below the end, none in fewer than eight bytes. */
    ghost predicate FileOk()
      reads this
    {
      (forall o :: o in store ==> o < len) && 8 * |store| <= len
    }

    ghost predicate Valid()
      reads this
    {
      && FileOk() && cap >= 2 && minEntries == MinEntriesFor(cap)
      && Repr(store, root, tree) && root < len && Fits(tree, height, cap) && size == |Pts(tree)|
      && Nodes(tree) <= |store|
    }

    twostate predicate Appended()
      reads this
    {
      FileOk() && Grows(old(store), store) && old(len) <= len
    }

    /** A tree has grown by no more nodes than records were appended. */
    twostate predicate Paid(was: nat, now: nat)
      reads this
    {
      now + old(|store|) <= was + |store|
    }

    method SaveNode(nd: RNode, box: Box, ghost t: Spatial) returns (off: nat)
      requires FileOk() && Shape(store, nd, len, t) && Covers(box, t)
      modifies this`store, this`len
      ensures Appended() && KidOk(store, off, box, len, t) && |store| == old(|store|) + 1
      ensures off in store && store[off] == nd.(bbox := box)
    {
      off := len;
      ghost var s0 := store;
      store := store[len := nd.(bbox := box)];
      len := len + NodeSize(nd.(bbox := box));
      assert store.Keys == s0.Keys + {off};
      ShapeExtends(s0, store, nd, off, off, t);
      SameShape(store, nd, nd.(bbox := box), off, t);
    }

    lemma SameShape(s: RStore, nd: RNode, n2: RNode, below: nat, t: Spatial)
      requires Shape(s, nd, below, t) && n2 == nd.(bbox := n2.bbox)
      ensures Shape(s, n2, below, t)
    {
      if t.Inner? {
        forall i | 0 <= i < |t.kids| ensures KidOk(s, n2.children[i], n2.cbs[i], below, t.kids[i]) {
          assert KidOk(s, nd.children[i], nd.cbs[i], below, t.kids[i]);
        }
      }
    }

    lemma StoredExtends(s: RStore, l: nat, p: nat, box: Box, t: Spatial, h: nat)
      requires Stored(s, l, p, box, t, h, cap) && Grows(s, store) && l <= len
      ensures Stored(store, len, p, box, t, h, cap)
    {
      ReprExtends(s, store, p, t);
    }

    /** Save an overfull node as two. */
    method SplitNode(nd: RNode, ghost t: Spatial, ghost h: nat, ghost bx: Box)
      returns (r: Placed, ghost a: Spatial, ghost b: Spatial)
      requires FileOk() && cap >= 2 && Shape(store, nd, len, t) && FitsTop(t, h, cap, cap + 1) && Kids(t) >= 2
      modifies this`store, this`len, this`nextId
      ensures Appended() && r.Halves? && Inserted(store, len, r, a, b, Pts(t), h, cap)
      ensures Paid(Nodes(t), PlacedNodes(r, a, b))
      ensures Overpiled(old(store), nd, t, bx) ==> PiledHalves(store, r, a, b, bx)
    {
      var n := Count(nd);
      var cb := seq(n, i requires 0 <= i < n => ChildBox(nd, i));
      var grp, gb1, gb2 := Partition(cb);
      GroupBounds(grp);
      var n1, n2;
      n1, n2 := GatherGroups(nd, grp);
      a, b := PickTree(t, Places(grp, 1)), PickTree(t, Places(grp, 2));
      SplitTrees(store, len, cap, nd, t, h, cb, grp, gb1, gb2, n1, n2, a, b);
      r := SaveHalves(n1, gb1, a, n2, gb2, b);
      if Overpiled(old(store), nd, t, bx) {
        PiledBoxes(old(store), nd, old(len), t, cb, bx);
        PiledSplit(old(store), store, nd, t, grp, n1, n2, r, a, b, bx);
      }
    }

    /** The two groups as nodes; the second gets a new id. */
    method GatherGroups(nd: RNode, grp: seq<nat>) returns (n1: RNode, n2: RNode)
      requires Consistent(nd) && |grp| == Count(nd)
      modifies this`nextId
      ensures InGroups(nd, grp, n1, n2) && n1.id == nd.id && n2.id == old(nextId)
    {
      if nd.isLeaf {
        var e1 := Gather(nd.entries, grp, 1);
        var e2 := Gather(nd.entries, grp, 2);
        n1, n2 := MakeLeaf(nd.id, e1), MakeLeaf(nextId, e2);
      } else {
        var p1 := Gather(nd.children, grp, 1);
        var b1 := Gather(nd.cbs, grp, 1);
        var p2 := Gather(nd.children, grp, 2);
        var b2 := Gather(nd.cbs, grp, 2);
        n1, n2 := MakeInner(nd.id, p1, b1), MakeInner(nextId, p2, b2);
      }
      nextId := nextId + 1;
    }

    method SaveHalves(n1: RNode, gb1: Box, ghost a: Spatial, n2: RNode, gb2: Box, ghost b: Spatial) returns (r: Placed)
      requires FileOk() && Shape(store, n1, len, a) && Covers(gb1, a) && Shape(store, n2, len, b) && Covers(gb2, b)
      modifies this`store, this`len
      ensures Appended() && r.Halves? && r.box == gb1 && r.box2 == gb2 && |store| == old(|store|) + 2
      ensures KidOk(store, r.ptr, gb1, len, a) && KidOk(store, r.ptr2, gb2, len, b)
      ensures r.ptr in store && store[r.ptr] == n1.(bbox := gb1)
      ensures r.ptr2 in store && store[r.ptr2] == n2.(bbox := gb2)
    {
      ghost var s0, l0 := store, len;
      var lp := SaveNode(n1, gb1, a);
      ShapeExtends(s0, store, n2, l0, len, b);
      ghost var s1 := store;
      var rp := SaveNode(n2, gb2, b);
      ReprExtends(s1, store, lp, a);
      r := Halves(lp, gb1, rp, gb2);
    }

    /** Save a node that may have one child too many. */
    method SaveOrSplit(nd: RNode, ghost t: Spatial, ghost h: nat, ghost bx: Box)
      returns (r: Placed, ghost a: Spatial, ghost b: Spatial)
      requires FileOk() && cap >= 2 && Shape(store, nd, len, t) && FitsTop(t, h, cap, cap + 1)
      modifies this`store, this`len, this`nextId
      ensures Appended() && Inserted(store, len, r, a, b, Pts(t), h, cap) && Paid(Nodes(t), PlacedNodes(r, a, b))
      ensures Kids(t) <= cap ==> r.Whole? && a == t
      ensures Overpiled(old(store), nd, t, bx) && cap == 2 ==> PiledHalves(store, r, a, b, bx)
    {
      if Count(nd) > cap {
        r, a, b := SplitNode(nd, t, h, bx);
        return;
      }
      var box := ComputeBox(nd);
      BoxCovers(store, nd, len, t, box);
      var p := SaveNode(nd, box, t);
      r, a, b := Whole(p, box), t, t;
    }

    method InsertNode(ptr: nat, e: Pt, depth: nat, ghost t: Spatial, ghost h: nat)
      returns (st: Status, r: Placed, ghost a: Spatial, ghost b: Spatial)
      requires FileOk() && cap >= 2 && Repr(store, ptr, t) && Fits(t, h, cap) && ptr < len
      modifies this`store, this`len, this`nextId
      decreases h
      ensures Appended()
      ensures st == if depth + h > RT_MAX_DEPTH then TooDeep else Ok
      ensures st == Ok ==>
                Inserted(store, len, r, a, b, Pts(t) + multiset{e}, h, cap) && Paid(Nodes(t), PlacedNodes(r, a, b))
      ensures st == Ok && t.Leaf? && |t.es| < cap ==> r.Whole? && a == Leaf(t.es + [e])
      ensures st == Ok && cap == 2 && Piled(old(store), ptr, t, PointBox(e)) ==>
                PiledHalves(store, r, a, b, PointBox(e))
    {
      r, a, b := Whole(0, NULL_BOX), t, t;
      if depth > RT_MAX_DEPTH {
        return TooDeep, r, a, b;
      }
      var nd := store[ptr];
      ShapeExtends(store, store, nd, ptr, len, t);
      if nd.isLeaf {
        nd := nd.(entries := nd.entries + [e]);
        r, a, b := SaveOrSplit(nd, Leaf(t.es + [e]), h, PointBox(e));
        return Ok, r, a, b;
      }
      st, r, a, b := InsertBelow(nd, e, depth, t, h);
    }

    method InsertBelow(nd0: RNode, e: Pt, depth: nat, ghost t: Spatial, ghost h: nat)
      returns (st: Status, r: Placed, ghost a: Spatial, ghost b: Spatial)
      requires FileOk() && cap >= 2 && t.Inner? && Shape(store, nd0, len, t) && Fits(t, h, cap) && depth <= RT_MAX_DEPTH
      modifies this`store, this`len, this`nextId
      decreases h, 0
      ensures Appended()
      ensures st == if depth + h > RT_MAX_DEPTH then TooDeep else Ok
      ensures st == Ok ==>
                Inserted(store, len, r, a, b, Pts(t) + multiset{e}, h, cap) && Paid(Nodes(t), PlacedNodes(r, a, b))
      ensures st == Ok && cap == 2 && FirstFull(t) && AllBoxes(old(store), nd0, t, PointBox(e)) ==>
                PiledHalves(store, r, a, b, PointBox(e))
    {
      var nd := nd0;
      var idx := ChooseSubtree(nd, PointBox(e));
      ghost var s0, l0, kid := store, len, t.kids[idx];
      assert KidOk(store, nd.children[idx], nd.cbs[idx], len, kid);
      var cr;
      ghost var ka, kb;
      st, cr, ka, kb := InsertNode(nd.children[idx], e, depth + 1, kid, h - 1);
      r, a, b := cr, t, t;
      if st != Ok {
        return;
      }
      ShapeExtends(s0, store, nd, l0, len, t);
      if cap == 2 && FirstFull(t) && AllBoxes(s0, nd, t, PointBox(e)) {
        AllBoxesLater(s0, store, nd, nd, t, PointBox(e));
      }
      r, a, b := PutBack(nd, idx, cr, e, t, h, ka, kb);
    }

    /** The rewritten child, or both its halves, in place of the old one. */
    method PutBack(nd0: RNode, idx: nat, cr: Placed, e: Pt, ghost t: Spatial, ghost h: nat, ghost ka: Spatial,
                   ghost kb: Spatial)
      returns (r: Placed, ghost a: Spatial, ghost b: Spatial)
      requires FileOk() && cap >= 2 && t.Inner? && Shape(store, nd0, len, t) && Fits(t, h, cap) && idx < |t.kids|
      requires Inserted(store, len, cr, ka, kb, Pts(t.kids[idx]) + multiset{e}, h - 1, cap)
      modifies this`store, this`len, this`nextId
      ensures Appended() && Inserted(store, len, r, a, b, Pts(t) + multiset{e}, h, cap)
      ensures Paid(Nodes(t) + PlacedNodes(cr, ka, kb), Nodes(t.kids[idx]) + PlacedNodes(r, a, b))
      ensures (cap == 2 && idx == 0 && |t.kids| == 2 && AllBoxes(old(store), nd0, t, PointBox(e))
               && PiledHalves(old(store), cr, ka, kb, PointBox(e))) ==> PiledHalves(store, r, a, b, PointBox(e))
    {
      var nd;
      ghost var kids;
      nd, kids := TakeBack(nd0, idx, cr, e, t, h, ka, kb);
      if (cap == 2 && idx == 0 && |t.kids| == 2 && AllBoxes(store, nd0, t, PointBox(e))
          && PiledHalves(store, cr, ka, kb, PointBox(e))) {
        PiledPutBack(store, nd0, nd, t.kids, cr, ka, kb, PointBox(e));
      }
      r, a, b := SaveOrSplit(nd, Inner(kids), h, PointBox(e));
    }

    /** `nd` and its children are `nd0` and `t` with the rewritten child, or both its halves, for child `idx`. */
    ghost predicate InPlace(nd0: RNode, idx: nat, cr: Placed, t: Spatial, ka: Spatial, kb: Spatial, nd: RNode,
                            kids: seq<Spatial>)
      requires t.Inner? && idx < |t.kids| == |nd0.children| == |nd0.cbs|
    {
      if cr.Halves? then
        && kids == t.kids[idx := ka] + [kb] && nd.children == nd0.children[idx := cr.ptr] + [cr.ptr2]
        && nd.cbs == nd0.cbs[idx := cr.box] + [cr.box2]
      else
        kids == t.kids[idx := ka] && nd.children == nd0.children[idx := cr.ptr] && nd.cbs == nd0.cbs[idx := cr.box]
    }

    /** The node with the rewritten child, before it is saved. */
    method TakeBack(nd0: RNode, idx: nat, cr: Placed, ghost e: Pt, ghost t: Spatial, ghost h: nat, ghost ka: Spatial,
                    ghost kb: Spatial)
      returns (nd: RNode, ghost kids: seq<Spatial>)
      requires FileOk() && cap >= 2 && t.Inner? && Shape(store, nd0, len, t) && Fits(t, h, cap) && idx < |t.kids|
      requires Inserted(store, len, cr, ka, kb, Pts(t.kids[idx]) + multiset{e}, h - 1, cap)
      ensures InPlace(nd0, idx, cr, t, ka, kb, nd, kids)
      ensures Shape(store, nd, len, Inner(kids)) && FitsTop(Inner(kids), h, cap, cap + 1)
      ensures PtsAll(kids) == PtsAll(t.kids) + multiset{e}
      ensures NodesAll(kids) + Nodes(t.kids[idx]) == NodesAll(t.kids) + PlacedNodes(cr, ka, kb)
    {
      nd := nd0;
      ghost var kid := t.kids[idx];
      ShapeReplaced(store, nd, len, t.kids, h, cap, idx, cr.ptr, cr.box, ka);
      nd := nd.(children := nd.children[idx := cr.ptr], cbs := nd.cbs[idx := cr.box]);
      kids := t.kids[idx := ka];
      NodesReplaced(t.kids, idx, ka);
      if cr.Halves? {
        NodesSnoc(kids, kb);
        ShapeAdded(store, nd, len, kids, h, cap, cr.ptr2, cr.box2, kb);
        nd := nd.(children := nd.children + [cr.ptr2], cbs := nd.cbs + [cr.box2]);
        kids := kids + [kb];
      }
      ghost var more := if cr.Halves? then Pts(kb) else multiset{};
      Exchange(PtsAll(t.kids[idx := ka]), more, Pts(kid), PtsAll(t.kids), Pts(ka), multiset{e});
    }

    /** Insert an entry, up to the commit. */
    method InsertRoot(e: Pt) returns (st: Status)
      requires Valid()
      modifies this
      ensures cap == old(cap) && minEntries == old(minEntries)
              && st == if old(height) > RT_MAX_DEPTH then TooDeep else Ok
      ensures st == Ok ==>
                && Valid()
                && Pts(tree) == old(Pts(tree)) + multiset{e}
                && size == old(size) + 1
                && Grows(old(store), store)
      ensures st == Ok ==> RaisedBy(old(tree), old(height), e)
      ensures st == Ok && cap == 2 && Piled(old(store), old(root), old(tree), PointBox(e)) ==>
                Piled(store, root, tree, PointBox(e)) && height == old(height) + 1
    {
      var r;
      ghost var a, b;
      st, r, a, b := InsertNode(root, e, 0, tree, height);
      if st == Ok {
        ghost var s1 := store;
        GrowRoot(r, a, b);
        size := size + 1;
      }
    }

    /** An insert raises the tree by one level at most, and a leaf with room not at all. */
    ghost predicate RaisedBy(t0: Spatial, h0: nat, e: Pt)
      reads this
    {
      && h0 <= height <= h0 + 1
      && (t0.Leaf? && |t0.es| < cap ==> height == h0 && tree == Leaf(t0.es + [e]))
    }

    /** Insert an entry; on failure nothing has changed. */
    method Insert(e: Pt, hostOk: bool) returns (st: Status)
      requires Valid()
      modifies this
      ensures Valid() && cap == old(cap)
      ensures st == if old(height) > RT_MAX_DEPTH then TooDeep else if hostOk then Ok else HostError
      ensures st == Ok ==>
                Pts(tree) == old(Pts(tree)) + multiset{e} && size == old(size) + 1 && Grows(old(store), store)
      ensures st != Ok ==>
                && store == old(store)
                && len == old(len)
                && root == old(root)
                && nextId == old(nextId)
                && size == old(size)
      ensures st != Ok ==> tree == old(tree) && height == old(height)
      ensures st == Ok ==> RaisedBy(old(tree), old(height), e)
      ensures st == Ok && cap == 2 && Piled(old(store), old(root), old(tree), PointBox(e)) ==>
                Piled(store, root, tree, PointBox(e)) && height == old(height) + 1
    {
      var store0, len0, root0, nextId0, size0 := store, len, root, nextId, size;
      ghost var tree0, height0 := tree, height;
      st := InsertRoot(e);
      if st == Ok && !hostOk {
        st := HostError;
      }
      if st != Ok {
        store, len, root, nextId, size := store0, len0, root0, nextId0, size0;
        tree, height := tree0, height0;
      }
    }

    /** The rewritten root, or a new root over its halves. */
    method GrowRoot(r: Placed, ghost a: Spatial, ghost b: Spatial)
      requires FileOk() && cap >= 2
               && Inserted(store, len, r, a, b, if r.Whole? then Pts(a) else Pts(a) + Pts(b), height, cap)
      modifies this`store, this`len, this`nextId, this`root, this`tree, this`height
      ensures Paid(PlacedNodes(r, a, b), Nodes(tree))
      ensures Appended() && Repr(store, root, tree) && root < len && Fits(tree, height, cap)
      ensures Pts(tree) == if r.Whole? then Pts(a) else Pts(a) + Pts(b)
      ensures if r.Whole? then height == old(height) && tree == a else height == old(height) + 1
      ensures forall bx: Box :: PiledHalves(old(store), r, a, b, bx) ==> Piled(store, root, tree, bx)
    {
      if r.Whole? {
        root, tree := r.ptr, a;
        return;
      }
      root := NewRoot(r, a, b);
      tree, height := Inner([a, b]), height + 1;
      PairTree(a, b);
      assert Repr(store, root, tree);
    }

    /** An inner node over two saved subtrees. */
    method NewRoot(r: Placed, ghost a: Spatial, ghost b: Spatial) returns (p: nat)
      requires FileOk() && cap >= 2 && r.Halves?
      requires Stored(store, len, r.ptr, r.box, a, height, cap) && Stored(store, len, r.ptr2, r.box2, b, height, cap)
      modifies this`store, this`len, this`nextId
      ensures Appended() && |store| == old(|store|) + 1
      ensures p < len && Repr(store, p, Inner([a, b])) && Fits(Inner([a, b]), height + 1, cap)
      ensures forall bx: Box :: PiledHalves(old(store), r, a, b, bx) ==> Piled(store, p, Inner([a, b]), bx)
    {
      var nr := MakeInner(nextId, [r.ptr, r.ptr2], [r.box, r.box2]);
      nextId := nextId + 1;
      ghost var kids := [a, b];
      AllStoredIs(store, nr, len, kids, height + 1, cap);
      var box := ComputeBox(nr);
      BoxCovers(store, nr, len, Inner(kids), box);
      ghost var s0 := store;
      p := SaveNode(nr, box, Inner(kids));
      forall bx: Box | PiledHalves(s0, r, a, b, bx) ensures Piled(store, p, Inner(kids), bx) {
        PiledPair(s0, store, nr, r, a, b, bx);
        AllBoxesLater(store, store, nr, store[p], Inner(kids), bx);
      }
    }

    static lemma PairTree(a: Spatial, b: Spatial)
      ensures Pts(Inner([a, b])) == Pts(a) + Pts(b) && Nodes(Inner([a, b])) == 1 + Nodes(a) + Nodes(b)
    {
      assert [a, b] == [a] + [b] && [] + [a] == [a];
      PtsOne(a);
      PtsSnoc([a], b);
      NodesSnoc([], a);
      NodesSnoc([a], b);
    }

    static lemma OnlyKid(t: Spatial)
      requires t.Inner? && |t.kids| == 1
      ensures Pts(t) == Pts(t.kids[0]) && Nodes(t) == 1 + Nodes(t.kids[0])
    {
      assert t.kids == [t.kids[0]] && [] + [t.kids[0]] == [t.kids[0]];
      PtsOne(t.kids[0]);
      NodesSnoc([], t.kids[0]);
    }

    // ---- remove ----

    /** What a removal needs to know of the rewritten child. */
    ghost predicate Removed(p: nat, nd: RNode, a: Spatial, pts: multiset<Pt>, x: Pt, oid: Bytes, h: nat)
      reads this
    {
      && Stored(store, len, p, nd.bbox, a, h, cap) && Shape(store, nd, len, a) && x.oid == oid
         && pts == Pts(a) + multiset{x}
    }

    /** No entry with the id, or none at the place it is looked for. */
    static ghost predicate Missing(t: Spatial, oid: Bytes, q: Option<Box>) {
      forall e :: e in Pts(t) && e.oid == oid ==> q.Some? && !Inside(q.value, e)
    }

    /** Save a node after one of its children went. */
    method SaveShrunk(nd: RNode, ghost t: Spatial) returns (p: nat, n2: RNode)
      requires FileOk() && Shape(store, nd, len, t)
      modifies this`store, this`len
      ensures Appended() && n2 == nd.(bbox := n2.bbox) && Shape(store, n2, len, t) && KidOk(store, p, n2.bbox, len, t)
      ensures |store| == old(|store|) + 1
    {
      var box := ComputeBox(nd);
      BoxCovers(store, nd, len, t, box);
      ghost var s0, l0 := store, len;
      p := SaveNode(nd, box, t);
      n2 := nd.(bbox := box);
      ShapeExtends(s0, store, nd, l0, len, t);
      SameShape(store, nd, n2, len, t);
    }

    method RemoveFromLeaf(nd: RNode, oid: Bytes, q: Option<Box>, ghost t: Spatial)
      returns (found: bool, p: nat, n2: RNode, ghost a: Spatial, ghost x: Pt)
      requires FileOk() && t.Leaf? && Shape(store, nd, len, t) && Fits(t, 0, cap)
      modifies this`store, this`len
      ensures Appended()
      ensures found ==> Removed(p, n2, a, Pts(t), x, oid, 0) && Paid(Nodes(t), Nodes(a))
      ensures !found ==> Missing(t, oid, q) && store == old(store) && len == old(len)
    {
      var idx := 0;
      p, n2, a, x := 0, nd, t, Pt(0.0, 0.0, []);
      while idx < |nd.entries| && nd.entries[idx].oid != oid
        invariant idx <= |nd.entries| && forall k :: 0 <= k < idx ==> nd.entries[k].oid != oid
      {
        idx := idx + 1;
      }
      found := idx < |nd.entries|;
      if !found {
        return;
      }
      x := nd.entries[idx];
      var es := nd.entries[..idx] + nd.entries[idx + 1..];
      assert nd.entries == nd.entries[..idx] + [x] + nd.entries[idx + 1..];
      a := Leaf(es);
      p, n2 := SaveShrunk(nd.(entries := es), a);
    }

    /** Load the sibling at `si`. */
    method Sibling(parent: RNode, si: nat, ghost kids: seq<Spatial>, ghost h: nat) returns (nd: RNode)
      requires FileOk() && !parent.isLeaf && AllStored(store, len, parent.children, parent.cbs, kids, h, cap)
               && si < |kids|
      ensures Shape(store, nd, len, kids[si]) && Fits(kids[si], h, cap) && Count(nd) == Kids(kids[si])
    {
      assert Stored(store, len, parent.children[si], parent.cbs[si], kids[si], h, cap);
      assert Repr(store, parent.children[si], kids[si]);
      nd := store[parent.children[si]];
      assert NodeRepr(store, nd, parent.children[si], kids[si]);
      ShapeExtends(store, store, nd, parent.children[si], len, kids[si]);
    }

    lemma AllStoredLater(s: RStore, l: nat, ps: seq<nat>, bs: seq<Box>, kids: seq<Spatial>, h: nat)
      requires AllStored(s, l, ps, bs, kids, h, cap) && Grows(s, store) && l <= len
      ensures AllStored(store, len, ps, bs, kids, h, cap)
    {
      forall i | 0 <= i < |kids| ensures Stored(store, len, ps[i], bs[i], kids[i], h, cap) {
        assert Stored(s, l, ps[i], bs[i], kids[i], h, cap);
        StoredExtends(s, l, ps[i], bs[i], kids[i], h);
      }
    }

    /** The children of two nodes shared between two new ones. */
    method ShareOut(cn: RNode, sib: RNode, ghost h: nat, ghost a: Spatial, ghost b: Spatial)
      returns (r: Placed, ghost x1: Spatial, ghost x2: Spatial)
      requires FileOk() && Shape(store, cn, len, a) && Fits(a, h, cap) && Shape(store, sib, len, b) && Fits(b, h, cap)
      requires 2 <= Kids(a) + Kids(b) <= 2 * cap
      modifies this`store, this`len
      ensures Appended() && r.Halves? && Pts(x1) + Pts(x2) == Pts(a) + Pts(b)
      ensures Nodes(x1) + Nodes(x2) == Nodes(a) + Nodes(b) && |store| >= old(|store|)
      ensures Stored(store, len, r.ptr, r.box, x1, h, cap) && Stored(store, len, r.ptr2, r.box2, x2, h, cap)
    {
      JoinShape(store, cn, sib, len, a, b, h, cap, 0);
      var all := JoinNode(0, cn, sib);
      ghost var whole := JoinTree(a, b);
      var total := Count(all);
      var mid := (total + 1) / 2;
      SliceShape(store, all, len, whole, h, cap, 0, mid, cn.id);
      SliceShape(store, all, len, whole, h, cap, mid, total, sib.id);
      SlicePts(whole, mid);
      JoinNodes(a, b);
      SliceNodes(whole, mid);
      x1, x2 := SliceTree(whole, 0, mid), SliceTree(whole, mid, total);
      var n1, n2 := SliceNode(cn.id, all, 0, mid), SliceNode(sib.id, all, mid, total);
      var b1 := ComputeBox(n1);
      var b2 := ComputeBox(n2);
      BoxCovers(store, n1, len, x1, b1);
      BoxCovers(store, n2, len, x2, b2);
      r := SaveHalves(n1, b1, x1, n2, b2, x2);
    }

    /** Share the children of an underfull node and a sibling with some to spare. */
    method Redistribute(parent: RNode, ci: nat, si: nat, cn: RNode, sib: RNode, ghost kids: seq<Spatial>, ghost h: nat,
                        ghost a: Spatial)
      returns (newc: seq<nat>, newb: seq<Box>, ghost kids2: seq<Spatial>)
      requires FileOk() && AllStored(store, len, parent.children, parent.cbs, kids, h, cap) && ci < |kids|
               && si < |kids| && ci != si
      requires Shape(store, cn, len, a) && Fits(a, h, cap) && Shape(store, sib, len, kids[si]) && Fits(kids[si], h, cap)
      requires 2 <= Kids(a) + Kids(kids[si]) <= 2 * cap
      modifies this`store, this`len
      ensures Appended() && AllStored(store, len, newc, newb, kids2, h, cap) && |kids2| == |kids|
      ensures PtsAll(kids2) + Pts(kids[ci]) == PtsAll(kids) + Pts(a)
      ensures Paid(NodesAll(kids) + Nodes(a), NodesAll(kids2) + Nodes(kids[ci]))
    {
      ghost var s0, l0 := store, len;
      var r;
      ghost var x1, x2;
      r, x1, x2 := ShareOut(cn, sib, h, a, kids[si]);
      AllStoredLater(s0, l0, parent.children, parent.cbs, kids, h);
      var lo, hi := if ci < si then ci else si, if ci < si then si else ci;
      newc, newb := parent.children[lo := r.ptr][hi := r.ptr2], parent.cbs[lo := r.box][hi := r.box2];
      kids2 := kids[lo := x1][hi := x2];
      AllStoredPut(store, len, parent.children, parent.cbs, kids, h, cap, lo, r.ptr, r.box, x1);
      AllStoredPut(store, len, parent.children[lo := r.ptr], parent.cbs[lo := r.box], kids[lo := x1], h, cap, hi,
          r.ptr2, r.box2, x2);
      PtsReplaced(kids, lo, x1);
      PtsReplaced(kids[lo := x1], hi, x2);
      NodesReplaced(kids, lo, x1);
      NodesReplaced(kids[lo := x1], hi, x2);
      SwapBalance(PtsAll(kids2), PtsAll(kids[lo := x1]), Pts(kids[ci]), Pts(kids[si]), PtsAll(kids), Pts(x1), Pts(x2),
          Pts(a));
    }

    /** Merge an underfull node with a sibling; split again when the result is too large. */
    method MergeWith(parent: RNode, ci: nat, si: nat, cn: RNode, sib: RNode, ghost kids: seq<Spatial>, ghost h: nat,
                     ghost a: Spatial)
      returns (newc: seq<nat>, newb: seq<Box>, ghost kids2: seq<Spatial>)
      requires FileOk() && cap >= 2 && AllStored(store, len, parent.children, parent.cbs, kids, h, cap)
      requires ci < |kids| && si < |kids| && (si == ci + 1 || ci == si + 1)
      requires Shape(store, cn, len, a) && Fits(a, h, cap) && Shape(store, sib, len, kids[si]) && Fits(kids[si], h, cap)
      requires 1 <= Kids(a) + Kids(kids[si]) <= cap + 1
      modifies this`store, this`len, this`nextId
      ensures Appended() && AllStored(store, len, newc, newb, kids2, h, cap) && 1 <= |kids2| <= |kids|
      ensures PtsAll(kids2) + Pts(kids[ci]) == PtsAll(kids) + Pts(a)
      ensures Paid(NodesAll(kids) + Nodes(a), NodesAll(kids2) + Nodes(kids[ci]))
    {
      JoinNodes(a, kids[si]);
      JoinShape(store, cn, sib, len, a, kids[si], h, cap, nextId);
      var m := JoinNode(nextId, cn, sib);
      nextId := nextId + 1;
      ghost var s0, l0 := store, len;
      var r;
      ghost var x1, x2;
      r, x1, x2 := SaveOrSplit(m, JoinTree(a, kids[si]), h, NULL_BOX);
      AllStoredLater(s0, l0, parent.children, parent.cbs, kids, h);
      newc, newb, kids2 := PlaceMerged(parent, ci, si, r, kids, h, a, x1, x2);
    }

    /** The merged node, or its halves, instead of the two neighbours. */
    method PlaceMerged(parent: RNode, ci: nat, si: nat, r: Placed, ghost kids: seq<Spatial>, ghost h: nat,
                       ghost a: Spatial, ghost x1: Spatial, ghost x2: Spatial)
      returns (newc: seq<nat>, newb: seq<Box>, ghost kids2: seq<Spatial>)
      requires AllStored(store, len, parent.children, parent.cbs, kids, h, cap)
      requires ci < |kids| && si < |kids| && (si == ci + 1 || ci == si + 1)
      requires Inserted(store, len, r, x1, x2, Pts(a) + Pts(kids[si]), h, cap)
      ensures AllStored(store, len, newc, newb, kids2, h, cap) && 1 <= |kids2| <= |kids|
      ensures PtsAll(kids2) + Pts(kids[ci]) == PtsAll(kids) + Pts(a)
      ensures NodesAll(kids2) + Nodes(kids[ci]) + Nodes(kids[si]) == NodesAll(kids) + PlacedNodes(r, x1, x2)
    {
      var lo := if ci < si then ci else si;
      newc := Without(parent.children, lo);
      newb := Without(parent.cbs, lo);
      ghost var kept := kids[..lo] + kids[lo + 2..];
      AllStoredCut(store, len, parent.children, parent.cbs, kids, h, cap, lo);
      MergedNodes(kids, lo, r, x1, x2);
      kids2 := kept + [x1];
      AllStoredAdd(store, len, newc, newb, kept, h, cap, r.ptr, r.box, x1);
      newc, newb := newc + [r.ptr], newb + [r.box];
      if r.Halves? {
        AllStoredAdd(store, len, newc, newb, kids2, h, cap, r.ptr2, r.box2, x2);
        newc, newb, kids2 := newc + [r.ptr2], newb + [r.box2], kids2 + [x2];
      }
      MergedPts(kids, lo, r, x1, x2, Pts(a), Pts(kids[si]), Pts(kids[ci]), kids2);
    }

    /** Repair an underfull child: borrow from a sibling with some to spare, else merge with the first one. */
    method HandleUnderflow(parent: RNode, ci: nat, cn: RNode, ghost kids: seq<Spatial>, ghost h: nat, ghost a: Spatial)
      returns (merged: bool, newc: seq<nat>, newb: seq<Box>, ghost kids2: seq<Spatial>)
      requires FileOk() && cap >= 2 && minEntries == MinEntriesFor(cap) && !parent.isLeaf
      requires AllStored(store, len, parent.children, parent.cbs, kids, h, cap) && ci < |kids|
      requires Shape(store, cn, len, a) && Fits(a, h, cap) && 1 <= Count(cn) == Kids(a) < minEntries
      modifies this`store, this`len, this`nextId
      ensures Appended()
      ensures merged ==> AllStored(store, len, newc, newb, kids2, h, cap) && 1 <= |kids2| <= |kids|
      ensures merged ==> PtsAll(kids2) + Pts(kids[ci]) == PtsAll(kids) + Pts(a)
      ensures merged ==> Paid(NodesAll(kids) + Nodes(a), NodesAll(kids2) + Nodes(kids[ci]))
      ensures !merged ==> store == old(store)
    {
      merged, newc, newb, kids2 := false, [], [], [];
      var sibs: seq<nat> := (if ci > 0 then [ci - 1] else []) + (if ci + 1 < |parent.children| then [ci + 1] else []);
      for k := 0 to |sibs|
        invariant store == old(store) && len == old(len) && nextId == old(nextId)
        invariant forall j :: 0 <= j < k ==> Kids(kids[sibs[j]]) <= minEntries
      {
        var sib := Sibling(parent, sibs[k], kids, h);
        if Count(sib) <= minEntries {
          continue;
        }
        SiblingBound(kids[sibs[k]], h);
        newc, newb, kids2 := Redistribute(parent, ci, sibs[k], cn, sib, kids, h, a);
        merged := true;
        return;
      }
      if |sibs| > 0 {
        var sib := Sibling(parent, sibs[0], kids, h);
        newc, newb, kids2 := MergeWith(parent, ci, sibs[0], cn, sib, kids, h, a);
        merged := true;
      }
    }

    lemma SiblingBound(t: Spatial, h: nat)
      requires Fits(t, h, cap)
      ensures Kids(t) <= cap
    {
    }

    /** The child list around a rewritten child, repaired when that child is underfull. */
    method Repair(nd: RNode, i: nat, p: nat, cn: RNode, underflow: bool, ghost kids: seq<Spatial>, ghost h: nat,
                  ghost ka: Spatial)
      returns (useC: seq<nat>, useB: seq<Box>, ghost kids2: seq<Spatial>)
      requires FileOk() && cap >= 2 && minEntries == MinEntriesFor(cap) && !nd.isLeaf
      requires AllStored(store, len, nd.children, nd.cbs, kids, h, cap) && i < |kids|
      requires Stored(store, len, p, cn.bbox, ka, h, cap) && Shape(store, cn, len, ka)
      requires underflow == (0 < Count(cn) < minEntries) && Count(cn) == Kids(ka)
      modifies this`store, this`len, this`nextId
      ensures Appended() && AllStored(store, len, useC, useB, kids2, h, cap) && 1 <= |kids2| <= |kids|
      ensures PtsAll(kids2) + Pts(kids[i]) == PtsAll(kids) + Pts(ka)
      ensures Paid(NodesAll(kids) + Nodes(ka), NodesAll(kids2) + Nodes(kids[i]))
    {
      if underflow {
        var merged;
        ghost var s0, l0 := store, len;
        merged, useC, useB, kids2 := HandleUnderflow(nd, i, cn, kids, h, ka);
        if merged {
          return;
        }
        AllStoredLater(s0, l0, nd.children, nd.cbs, kids, h);
        StoredExtends(s0, l0, p, cn.bbox, ka, h);
      }
      useC, useB, kids2 := nd.children[i := p], nd.cbs[i := cn.bbox], kids[i := ka];
      AllStoredPut(store, len, nd.children, nd.cbs, kids, h, cap, i, p, cn.bbox, ka);
      PtsReplaced(kids, i, ka);
      NodesReplaced(kids, i, ka);
    }

    /** The inner node around a rewritten child. */
    method Rewrap(nd: RNode, i: nat, p: nat, cn: RNode, underflow: bool, oid: Bytes, ghost t: Spatial, ghost h: nat,
                  ghost ka: Spatial, ghost x: Pt)
      returns (p2: nat, n2: RNode, ghost a: Spatial)
      requires FileOk() && cap >= 2 && minEntries == MinEntriesFor(cap) && t.Inner? && h >= 1
      requires Shape(store, nd, len, t) && Fits(t, h, cap) && i < |t.kids|
               && Removed(p, cn, ka, Pts(t.kids[i]), x, oid, h - 1)
      requires underflow == (0 < Count(cn) < minEntries) && Count(cn) == Kids(ka)
      modifies this`store, this`len, this`nextId
      ensures Appended() && Removed(p2, n2, a, Pts(t), x, oid, h)
      ensures Paid(Nodes(t) + Nodes(ka), Nodes(a) + Nodes(t.kids[i]))
    {
      AllStoredIs(store, nd, len, t.kids, h, cap);
      var useC, useB;
      ghost var kids2;
      useC, useB, kids2 := Repair(nd, i, p, cn, underflow, t.kids, h - 1, ka);
      DropOne(PtsAll(kids2), Pts(t.kids[i]), Pts(t), Pts(ka), multiset{x});
      a := Inner(kids2);
      Rebuilt(MakeInner(nd.id, useC, useB), kids2, h);
      p2, n2 := SaveShrunk(MakeInner(nd.id, useC, useB), a);
    }

    lemma Rebuilt(un: RNode, kids: seq<Spatial>, h: nat)
      requires h >= 1 && !un.isLeaf && AllStored(store, len, un.children, un.cbs, kids, h - 1, cap)
               && 1 <= |kids| <= cap
      ensures Shape(store, un, len, Inner(kids)) && Fits(Inner(kids), h, cap)
    {
      AllStoredIs(store, un, len, kids, h, cap);
      AllFit(store, len, un.children, un.cbs, kids, h - 1);
    }

    method RemoveNode(ptr: nat, oid: Bytes, q: Option<Box>, depth: nat, ghost t: Spatial, ghost h: nat)
      returns (st: Status, found: bool, underflow: bool, p: nat, nd2: RNode, ghost a: Spatial, ghost x: Pt)
      requires FileOk() && cap >= 2 && minEntries == MinEntriesFor(cap) && Repr(store, ptr, t) && Fits(t, h, cap)
               && ptr < len
      modifies this`store, this`len, this`nextId
      decreases h, 1
      ensures Appended()
      ensures st == Ok || st == TooDeep
      ensures depth + h <= RT_MAX_DEPTH ==> st == Ok
      ensures depth + h > RT_MAX_DEPTH ==> !(st == Ok && found) && (Sought(t, q) ==> st == TooDeep)
      ensures st == Ok && found ==>
                Removed(p, nd2, a, Pts(t), x, oid, h) && Count(nd2) == Kids(a) && Paid(Nodes(t), Nodes(a))
      ensures st == Ok && found ==> underflow == (0 < Count(nd2) < minEntries)
      ensures st == Ok && !found ==> Missing(t, oid, q) && store == old(store) && len == old(len)
    {
      found, underflow, p, a, x := false, false, ptr, t, Pt(0.0, 0.0, []);
      var nd := store[ptr];
      nd2 := nd;
      if depth > RT_MAX_DEPTH {
        return TooDeep, found, underflow, p, nd2, a, x;
      }
      ShapeExtends(store, store, nd, ptr, len, t);
      if nd.isLeaf {
        st := Ok;
        found, p, nd2, a, x := RemoveFromLeaf(nd, oid, q, t);
        underflow := Count(nd2) < minEntries && Count(nd2) > 0;
        return;
      }
      st, found, p, nd2, a, x := RemoveBelow(nd, oid, q, depth, t, h);
      underflow := Count(nd2) < minEntries && Count(nd2) > 0;
    }

    /** Try the children whose box can hold the place, in order. */
    method RemoveBelow(nd: RNode, oid: Bytes, q: Option<Box>, depth: nat, ghost t: Spatial, ghost h: nat)
      returns (st: Status, found: bool, p: nat, nd2: RNode, ghost a: Spatial, ghost x: Pt)
      requires FileOk() && cap >= 2 && minEntries == MinEntriesFor(cap) && t.Inner? && Shape(store, nd, len, t)
               && Fits(t, h, cap)
      modifies this`store, this`len, this`nextId
      decreases h, 0
      ensures Appended()
      ensures st == Ok || st == TooDeep
      ensures depth + h <= RT_MAX_DEPTH ==> st == Ok
      ensures depth + h > RT_MAX_DEPTH ==> !(st == Ok && found) && (Sought(t, q) ==> st == TooDeep)
      ensures st == Ok && found ==>
                Removed(p, nd2, a, Pts(t), x, oid, h) && Count(nd2) == Kids(a) && Paid(Nodes(t), Nodes(a))
      ensures st == Ok && !found ==> Missing(t, oid, q) && store == old(store) && len == old(len)
    {
      st, found, p, nd2, a, x := Ok, false, 0, nd, t, Pt(0.0, 0.0, []);
      for i := 0 to |nd.children|
        invariant store == old(store) && len == old(len) && st == Ok && !found
        invariant forall k :: 0 <= k < i ==> Missing(t.kids[k], oid, q)
        invariant depth + h > RT_MAX_DEPTH ==> forall k :: 0 <= k < i ==> !Sought(t.kids[k], q)
      {
        ghost var kid := t.kids[i];
        assert KidOk(store, nd.children[i], nd.cbs[i], len, kid);
        if q.Some? && (!nd.cbs[i].valid || !Intersects(q.value, nd.cbs[i])) {
          PrunedKid(nd.cbs[i], kid, oid, q);
          continue;
        }
        ghost var s0, l0 := store, len;
        var underflow, cp, cn;
        ghost var ka;
        assert Repr(store, nd.children[i], kid);
        st, found, underflow, cp, cn, ka, x := RemoveNode(nd.children[i], oid, q, depth + 1, kid, h - 1);
        if st != Ok {
          return;
        }
        if found {
          ShapeExtends(s0, store, nd, l0, len, t);
          p, nd2, a := Rewrap(nd, i, cp, cn, underflow, oid, t, h, ka, x);
          return;
        }
      }
      MissingAll(t.kids, oid, q);
      if depth + h > RT_MAX_DEPTH && Sought(t, q) {
        var k := SoughtBelow(t.kids, q);
        assert false;
      }
    }

    /** A removal has to look into the tree: no place is given, or an entry lies there. */
    static ghost predicate Sought(t: Spatial, q: Option<Box>) {
      q.None? || exists e :: e in Pts(t) && Inside(q.value, e)
    }

    static lemma SoughtBelow(kids: seq<Spatial>, q: Option<Box>) returns (i: nat)
      requires Sought(Inner(kids), q) && kids != []
      ensures i < |kids| && Sought(kids[i], q)
    {
      if q.None? {
        i := 0;
      } else {
        var e :| e in Pts(Inner(kids)) && Inside(q.value, e);
        i := PtsFrom(kids, e);
      }
    }

    static lemma PrunedKid(cb: Box, kid: Spatial, oid: Bytes, q: Option<Box>)
      requires Covers(cb, kid) && q.Some? && (!cb.valid || !Intersects(q.value, cb))
      ensures Missing(kid, oid, q) && !Sought(kid, q)
    {
    }

    static lemma MissingAll(kids: seq<Spatial>, oid: Bytes, q: Option<Box>)
      requires forall k :: 0 <= k < |kids| ==> Missing(kids[k], oid, q)
      ensures Missing(Inner(kids), oid, q)
    {
      forall e | e in Pts(Inner(kids)) && e.oid == oid ensures q.Some? && !Inside(q.value, e) {
        var i := PtsFrom(kids, e);
      }
    }

    lemma AllFit(s: RStore, l: nat, ps: seq<nat>, bs: seq<Box>, kids: seq<Spatial>, h: nat)
      requires AllStored(s, l, ps, bs, kids, h, cap)
      ensures forall i :: 0 <= i < |kids| ==> Fits(kids[i], h, cap)
    {
      forall i | 0 <= i < |kids| ensures Fits(kids[i], h, cap) {
        assert Stored(s, l, ps[i], bs[i], kids[i], h, cap);
      }
    }

    /** Remove one entry with the id, up to the commit. */
    method RemoveRoot(oid: Bytes, q: Option<Box>) returns (st: Status, removed: bool, ghost x: Pt)
      requires Valid()
      modifies this
      ensures cap == old(cap) && minEntries == old(minEntries) && (st == Ok || st == TooDeep)
      ensures old(height) <= RT_MAX_DEPTH ==> st == Ok
      ensures old(height) > RT_MAX_DEPTH ==> !(st == Ok && removed) && (Sought(old(tree), q) ==> st == TooDeep)
      ensures height <= old(height)
      ensures st == Ok ==> Valid() && Grows(old(store), store)
      ensures st == Ok && removed ==> x.oid == oid && old(Pts(tree)) == Pts(tree) + multiset{x} && size == old(size) - 1
      ensures st == Ok && !removed ==> Missing(old(tree), oid, q) && tree == old(tree) && size == old(size)
    {
      var underflow, p, nd;
      ghost var a;
      st, removed, underflow, p, nd, a, x := RemoveNode(root, oid, q, 0, tree, height);
      if st != Ok || !removed {
        return;
      }
      if underflow && !nd.isLeaf && Count(nd) == 1 {
        OnlyKid(a);
        assert KidOk(store, nd.children[0], nd.cbs[0], len, a.kids[0]);
        root, tree, height := nd.children[0], a.kids[0], height - 1;
      } else {
        root, tree := p, a;
      }
      size := size - 1;
    }

    /**
     * Remove one entry with the id: exactly one goes, and none only when there is none (or, when a
     * place is given, none at that place).  On failure nothing has changed.
     */
    method Remove(oid: Bytes, q: Option<Box>, hostOk: bool) returns (st: Status, removed: bool)
      requires Valid()
      modifies this
      ensures Valid() && cap == old(cap) && height <= old(height)
      ensures old(height) <= RT_MAX_DEPTH ==> st == if removed && !hostOk then HostError else Ok
      ensures old(height) > RT_MAX_DEPTH ==> !(st == Ok && removed) && (Sought(old(tree), q) ==> st == TooDeep)
      ensures st == Ok && removed ==> LostOne(Pts(tree), old(Pts(tree)), oid) && size == old(size) - 1
      ensures st == Ok && !removed ==> Missing(old(tree), oid, q) && tree == old(tree)
      ensures st != Ok ==> store == old(store) && len == old(len) && root == old(root) && nextId == old(nextId)
      ensures st != Ok ==> size == old(size) && tree == old(tree) && height == old(height)
    {
      var store0, len0, root0, nextId0, size0 := store, len, root, nextId, size;
      ghost var tree0, height0 := tree, height;
      ghost var x;
      st, removed, x := RemoveRoot(oid, q);
      assert st == Ok && removed ==> x in old(Pts(tree));
      if st == Ok && removed && !hostOk {
        st := HostError;
      }
      if st != Ok {
        store, len, root, nextId, size := store0, len0, root0, nextId0, size0;
        tree, height := tree0, height0;
      }
    }

    // ---- create and clear ----

    constructor ()
      ensures store == map[] && len == 0 && size == 0 && tree == Leaf([]) && height == 0
    {
      store, len, root, nextId, size, cap, minEntries := map[], 0, 0, 0, 0, 0, 0;
      tree, height := Leaf([]), 0;
    }

    static method Create(maxEntries: int, hostOk: bool) returns (ok: bool, t: RTree)
      ensures fresh(t) && (ok <==> maxEntries >= 2 && hostOk)
      ensures ok ==> t.Valid() && t.cap == maxEntries && t.tree == Leaf([]) && t.height == 0
    {
      t := new RTree();
      if maxEntries < 2 || !hostOk {
        return false, t;
      }
      t.cap, t.minEntries, t.nextId := maxEntries, MinEntriesFor(maxEntries), 1;
      t.root := t.SaveNode(MakeLeaf(0, []), NULL_BOX, Leaf([]));
      ok := true;
    }

    /** Start over with an empty leaf. */
    method Clear(hostOk: bool) returns (st: Status)
      requires Valid()
      modifies this
      ensures Valid() && cap == old(cap) && st == if hostOk then Ok else HostError
      ensures st == Ok ==> tree == Leaf([]) && height == 0 && size == 0 && Grows(old(store), store)
      ensures st != Ok ==> store == old(store) && root == old(root) && size == old(size) && tree == old(tree)
      ensures st != Ok ==> height == old(height)
    {
      if !hostOk {
        return HostError;
      }
      ghost var s0 := store;
      root := SaveNode(MakeLeaf(nextId, []), NULL_BOX, Leaf([]));
      nextId, size, tree, height := nextId + 1, 0, Leaf([]), 0;
      st := Ok;
    }
  }

  /** The whole lost what the child lost. */
  lemma DropOne(p2: multiset<Pt>, kid: multiset<Pt>, all: multiset<Pt>, ka: multiset<Pt>, x: multiset<Pt>)
    requires p2 + kid == all + ka && kid == ka + x
    ensures all == p2 + x
  {
    forall v: Pt ensures all[v] == (p2 + x)[v] {
      assert (p2 + kid)[v] == (all + ka)[v];
    }
  }

  lemma AllStoredPut(s: RStore, len: nat, ps: seq<nat>, bs: seq<Box>, kids: seq<Spatial>, h: nat, cap: nat, i: nat,
                     p: nat, b: Box, x: Spatial)
    requires AllStored(s, len, ps, bs, kids, h, cap) && i < |kids| && Stored(s, len, p, b, x, h, cap)
    ensures AllStored(s, len, ps[i := p], bs[i := b], kids[i := x], h, cap)
  {
    var p2, b2, k2 := ps[i := p], bs[i := b], kids[i := x];
    forall k | 0 <= k < |kids| ensures Stored(s, len, p2[k], b2[k], k2[k], h, cap) {
      assert Stored(s, len, ps[k], bs[k], kids[k], h, cap);
    }
  }

  lemma AllStoredAdd(s: RStore, len: nat, ps: seq<nat>, bs: seq<Box>, kids: seq<Spatial>, h: nat, cap: nat, p: nat,
                     b: Box, x: Spatial)
    requires AllStored(s, len, ps, bs, kids, h, cap) && Stored(s, len, p, b, x, h, cap)
    ensures AllStored(s, len, ps + [p], bs + [b], kids + [x], h, cap) && PtsAll(kids + [x]) == PtsAll(kids) + Pts(x)
  {
    PtsSnoc(kids, x);
    forall k | 0 <= k <= |kids| ensures Stored(s, len, (ps + [p])[k], (bs + [b])[k], (kids + [x])[k], h, cap) {
      assert k < |kids| ==> Stored(s, len, ps[k], bs[k], kids[k], h, cap);
    }
  }

  lemma AllStoredCut(s: RStore, len: nat, ps: seq<nat>, bs: seq<Box>, kids: seq<Spatial>, h: nat, cap: nat, lo: nat)
    requires AllStored(s, len, ps, bs, kids, h, cap) && lo + 1 < |kids|
    ensures AllStored(s, len, ps[..lo] + ps[lo + 2..], bs[..lo] + bs[lo + 2..], kids[..lo] + kids[lo + 2..], h, cap)
  {
    var p2, b2, k2 := ps[..lo] + ps[lo + 2..], bs[..lo] + bs[lo + 2..], kids[..lo] + kids[lo + 2..];
    forall k | 0 <= k < |k2| ensures Stored(s, len, p2[k], b2[k], k2[k], h, cap) {
      var i := if k < lo then k else k + 2;
      assert Stored(s, len, ps[i], bs[i], kids[i], h, cap);
    }
  }

  lemma SwapBalance(p2: multiset<Pt>, p1: multiset<Pt>, c: multiset<Pt>, sib: multiset<Pt>, p0: multiset<Pt>,
                    x1: multiset<Pt>, x2: multiset<Pt>, a: multiset<Pt>)
    requires (p1 + c == p0 + x1 && p2 + sib == p1 + x2) || (p1 + sib == p0 + x1 && p2 + c == p1 + x2)
    requires x1 + x2 == a + sib
    ensures p2 + c == p0 + a
  {
    forall v: Pt ensures (p2 + c)[v] == (p0 + a)[v] {
      assert (p1 + c)[v] == p1[v] + c[v] && (p2 + sib)[v] == p2[v] + sib[v] && (x1 + x2)[v] == (a + sib)[v];
      assert (p1 + sib)[v] == p1[v] + sib[v] && (p2 + c)[v] == p2[v] + c[v];
    }
  }

  // ---- search ----

  /** `out` holds exactly the points of `m` in the box, each as often as it is stored. */
  ghost predicate Answers(out: seq<Pt>, m: multiset<Pt>, q: Box) {
    forall e :: multiset(out)[e] == if Inside(q, e) then m[e] else 0
  }

  lemma AnswersNone(t: Spatial, b: Box, q: Box)
    requires Covers(b, t) && (!b.valid || !Intersects(q, b))
    ensures Answers([], Pts(t), q)
  {
    forall e ensures multiset([])[e] == if Inside(q, e) then Pts(t)[e] else 0 {
      if e in Pts(t) && Inside(q, e) {
        PruneSafely(q, b, e);
      }
    }
  }

  lemma AnswersJoin(o1: seq<Pt>, o2: seq<Pt>, m1: multiset<Pt>, m2: multiset<Pt>, q: Box)
    requires Answers(o1, m1, q) && Answers(o2, m2, q)
    ensures Answers(o1 + o2, m1 + m2, q)
  {
  }

  lemma AnswersMore(out: seq<Pt>, more: seq<Pt>, kids: seq<Spatial>, i: nat, q: Box)
    requires i < |kids| && Answers(out, PtsAll(kids[..i]), q) && Answers(more, Pts(kids[i]), q)
    ensures Answers(out + more, PtsAll(kids[..i + 1]), q)
  {
    PtsSnoc(kids[..i], kids[i]);
    assert kids[..i + 1] == kids[..i] + [kids[i]];
    AnswersJoin(out, more, PtsAll(kids[..i]), Pts(kids[i]), q);
  }

  lemma AnswersSnoc(out: seq<Pt>, es: seq<Pt>, x: Pt, q: Box)
    requires Answers(out, multiset(es), q)
    ensures Answers(if Inside(q, x) then out + [x] else out, multiset(es + [x]), q)
  {
    assert multiset(es + [x]) == multiset(es) + multiset{x};
  }

  /** The entries of one leaf that meet the query box. */
  method ScanLeaf(nd: RNode, q: Box) returns (out: seq<Pt>)
    ensures Answers(out, multiset(nd.entries), q)
  {
    out := [];
    for i := 0 to |nd.entries|
      invariant Answers(out, multiset(nd.entries[..i]), q)
    {
      AnswersSnoc(out, nd.entries[..i], nd.entries[i], q);
      assert nd.entries[..i + 1] == nd.entries[..i] + [nd.entries[i]];
      if !Intersects(q, PointBox(nd.entries[i])) {
        continue;
      }
      out := out + [nd.entries[i]];
    }
    assert nd.entries[..|nd.entries|] == nd.entries;
  }

  /** The search from a node goes `k` levels down: boxes on a way from it meet the query. */
  ghost predicate Descends(s: RStore, nd: RNode, t: Spatial, q: Box, k: nat)
    decreases t, 0
  {
    k == 0 ||
    (&& nd.bbox.valid && Intersects(q, nd.bbox) && t.Inner? && |nd.children| == |nd.cbs| == |t.kids|
     && exists i :: 0 <= i < |t.kids| && DescendsKid(s, nd.children[i], nd.cbs[i], t.kids[i], q, k - 1))
  }

  ghost predicate DescendsKid(s: RStore, p: nat, cb: Box, t: Spatial, q: Box, k: nat)
    decreases t, 1
  {
    cb.valid && Intersects(q, cb) && p in s && Descends(s, s[p], t, q, k)
  }

  /** Where a stored point is looked for, the search goes all the way down. */
  lemma {:induction false} PointReached(s: RStore, p: nat, t: Spatial, h: nat, cap: nat, q: Box, e: Pt, k: nat)
    requires Repr(s, p, t) && Fits(t, h, cap) && e in Pts(t) && Inside(q, e) && k <= h
    ensures Descends(s, s[p], t, q, k)
    decreases t
  {
    var nd := s[p];
    assert NodeRepr(s, nd, p, t) && Shape(s, nd, p, t);
    PruneSafely(q, nd.bbox, e);
    if k > 0 {
      var i := PtsFrom(t.kids, e);
      assert KidOk(s, nd.children[i], nd.cbs[i], p, t.kids[i]);
      PruneSafely(q, nd.cbs[i], e);
      PointReached(s, nd.children[i], t.kids[i], h - 1, cap, q, e, k - 1);
      assert DescendsKid(s, nd.children[i], nd.cbs[i], t.kids[i], q, k - 1);
    }
  }

  /** A query that meets every box goes all the way down. */
  ghost predicate MeetsAll(s: RStore, nd: RNode, t: Spatial, q: Box)
    decreases t
  {
    && nd.bbox.valid && Intersects(q, nd.bbox)
    && (t.Inner? && |nd.children| == |nd.cbs| == |t.kids| ==> forall i :: 0 <= i < |t.kids| ==>
          && nd.cbs[i].valid && Intersects(q, nd.cbs[i])
          && nd.children[i] in s && MeetsAll(s, s[nd.children[i]], t.kids[i], q))
  }

  lemma {:induction false} AllReached(s: RStore, p: nat, t: Spatial, h: nat, cap: nat, q: Box, k: nat)
    requires Repr(s, p, t) && Fits(t, h, cap) && MeetsAll(s, s[p], t, q) && k <= h
    ensures Descends(s, s[p], t, q, k)
    decreases t
  {
    if k > 0 {
      var nd := s[p];
      assert NodeRepr(s, nd, p, t) && Shape(s, nd, p, t);
      assert KidOk(s, nd.children[0], nd.cbs[0], p, t.kids[0]);
      AllReached(s, nd.children[0], t.kids[0], h - 1, cap, q, k - 1);
      assert DescendsKid(s, nd.children[0], nd.cbs[0], t.kids[0], q, k - 1);
    }
  }

  /** No search goes deeper than the leaves. */
  lemma {:induction false} DescentEnds(s: RStore, nd: RNode, t: Spatial, h: nat, cap: nat, q: Box, k: nat)
    requires Fits(t, h, cap) && Descends(s, nd, t, q, k)
    ensures k <= h
    decreases t
  {
    if k > 0 {
      var i :| 0 <= i < |t.kids| && DescendsKid(s, nd.children[i], nd.cbs[i], t.kids[i], q, k - 1);
      DescentEnds(s, s[nd.children[i]], t.kids[i], h - 1, cap, q, k - 1);
    }
  }

  /** All stored points in the box, skipping the subtrees whose box misses it. */
  method Search(s: RStore, ptr: nat, q: Box, depth: nat, ghost t: Spatial, ghost h: nat, ghost cap: nat)
    returns (st: Status, out: seq<Pt>)
    requires Repr(s, ptr, t) && Fits(t, h, cap) && depth <= RT_MAX_DEPTH + 1
    decreases h, 2
    ensures st == if Descends(s, s[ptr], t, q, RT_MAX_DEPTH + 1 - depth) then TooDeep else Ok
    ensures st == Ok ==> Answers(out, Pts(t), q)
  {
    out := [];
    if depth > RT_MAX_DEPTH {
      return TooDeep, out;
    }
    var nd := s[ptr];
    assert NodeRepr(s, nd, ptr, t) && Shape(s, nd, ptr, t);
    if !nd.bbox.valid || !Intersects(q, nd.bbox) {
      AnswersNone(t, nd.bbox, q);
      return Ok, out;
    }
    if nd.isLeaf {
      out := ScanLeaf(nd, q);
      return Ok, out;
    }
    st, out := SearchKids(s, ptr, nd, q, depth, t.kids, h, cap);
  }

  /** The search goes `k` levels below one of the first `n` children. */
  ghost predicate KidsDescend(s: RStore, nd: RNode, kids: seq<Spatial>, n: nat, q: Box, k: nat)
    requires |nd.children| == |nd.cbs| == |kids| && n <= |kids|
  {
    exists i :: 0 <= i < n && DescendsKid(s, nd.children[i], nd.cbs[i], kids[i], q, k)
  }

  /** The children of a node, one after another. */
  method SearchKids(s: RStore, ptr: nat, nd: RNode, q: Box, depth: nat, ghost kids: seq<Spatial>, ghost h: nat,
                    ghost cap: nat)
    returns (st: Status, out: seq<Pt>)
    requires Shape(s, nd, ptr, Inner(kids)) && Fits(Inner(kids), h, cap) && depth <= RT_MAX_DEPTH
    decreases h, 1
    ensures st == if KidsDescend(s, nd, kids, |kids|, q, RT_MAX_DEPTH - depth) then TooDeep else Ok
    ensures st == Ok ==> Answers(out, PtsAll(kids), q)
  {
    st, out := Ok, [];
    for i := 0 to |nd.children|
      invariant st == Ok && Answers(out, PtsAll(kids[..i]), q)
      invariant !KidsDescend(s, nd, kids, i, q, RT_MAX_DEPTH - depth)
    {
      assert KidOk(s, nd.children[i], nd.cbs[i], ptr, kids[i]);
      var more;
      st, more := SearchKid(s, ptr, nd.children[i], nd.cbs[i], q, depth, kids[i], h - 1, cap);
      if st != Ok {
        return;
      }
      AnswersMore(out, more, kids, i, q);
      out := out + more;
    }
    assert kids[..|kids|] == kids;
  }

  /** One child, skipped when its box misses the query. */
  method SearchKid(s: RStore, ptr: nat, p: nat, cb: Box, q: Box, depth: nat, ghost kid: Spatial, ghost h: nat,
                   ghost cap: nat)
    returns (st: Status, out: seq<Pt>)
    requires KidOk(s, p, cb, ptr, kid) && Fits(kid, h, cap) && depth <= RT_MAX_DEPTH
    decreases h + 1, 0
    ensures st == if DescendsKid(s, p, cb, kid, q, RT_MAX_DEPTH - depth) then TooDeep else Ok
    ensures st == Ok ==> Answers(out, Pts(kid), q)
  {
    if !cb.valid || !Intersects(q, cb) {
      AnswersNone(kid, cb, q);
      return Ok, [];
    }
    st, out := Search(s, p, q, depth + 1, kid, h, cap);
  }

  /**
   * Search a tree from its root.  A query with an answer gets it exactly if the tree is not too deep to
   * walk, and so does one that meets every box.
   */
  method SearchTree(t: RTree, q: Box) returns (st: Status, out: seq<Pt>)
    requires t.Valid()
    ensures st == if Descends(t.store, t.store[t.root], t.tree, q, RT_MAX_DEPTH + 1) then TooDeep else Ok
    ensures t.height <= RT_MAX_DEPTH ==> st == Ok
    ensures (exists e :: e in Pts(t.tree) && Inside(q, e)) || MeetsAll(t.store, t.store[t.root], t.tree, q) ==>
              (st == Ok <==> t.height <= RT_MAX_DEPTH)
    ensures st == Ok ==> Answers(out, Pts(t.tree), q)
  {
    st, out := Search(t.store, t.root, q, 0, t.tree, t.height, t.cap);
    if st == TooDeep {
      DescentEnds(t.store, t.store[t.root], t.tree, t.height, t.cap, q, RT_MAX_DEPTH + 1);
    }
    if t.height > RT_MAX_DEPTH {
      forall e | e in Pts(t.tree) && Inside(q, e) ensures st == TooDeep {
        PointReached(t.store, t.root, t.tree, t.height, t.cap, q, e, RT_MAX_DEPTH + 1);
      }
      if MeetsAll(t.store, t.store[t.root], t.tree, q) {
        AllReached(t.store, t.root, t.tree, t.height, t.cap, q, RT_MAX_DEPTH + 1);
      }
    }
  }
}
