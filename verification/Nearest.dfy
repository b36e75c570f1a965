// Nearest neighbours: a binary heap in an array, and the best-first search that runs on it.
module Nearest {
  import opened RecordFile
  import opened SpatialModel
  import RTree

  /** A queue item: a node still to open, or an entry, with a distance. */
  datatype Item = NodeItem(dist: real, ptr: nat) | EntryItem(dist: real, pt: Pt)

  // ---- the heap ----

  function Parent(k: nat): nat
    requires k > 0
  {
    (k - 1) / 2
  }

  ghost predicate Ordered(s: seq<Item>, k: nat)
    requires 0 < k < |s|
  {
    s[Parent(k)].dist <= s[k].dist
  }

  ghost predicate IsHeap(s: seq<Item>) {
    forall k :: 0 < k < |s| ==> Ordered(s, k)
  }

  /** The root is the least. */
  lemma {:induction false} RootIsLeast(s: seq<Item>, k: nat)
    requires IsHeap(s) && k < |s|
    ensures s[0].dist <= s[k].dist
    decreases k
  {
    if k > 0 {
      assert Ordered(s, k);
      RootIsLeast(s, Parent(k));
    }
  }

  /** All in order but at `i`, whose children are no less than its parent. */
  ghost predicate AlmostUp(s: seq<Item>, i: nat) {
    && i < |s| && (forall k :: 0 < k < |s| && k != i ==> Ordered(s, k))
    && (i > 0 ==> forall k :: 0 < k < |s| && Parent(k) == i ==> s[Parent(i)].dist <= s[k].dist)
  }

  /** All in order but below `i`, whose children are no less than its parent. */
  ghost predicate AlmostDown(s: seq<Item>, i: nat) {
    && i < |s| && (forall k :: 0 < k < |s| && Parent(k) != i ==> Ordered(s, k))
    && (i > 0 ==> forall k :: 0 < k < |s| && Parent(k) == i ==> s[Parent(i)].dist <= s[k].dist)
  }

  /** Moving the parent down into the hole and the item up. */
  lemma SiftUpStep(s: seq<Item>, i: nat)
    requires AlmostUp(s, i) && i > 0 && s[i].dist < s[Parent(i)].dist
    ensures AlmostUp(s[i := s[Parent(i)]][Parent(i) := s[i]], Parent(i))
  {
    var p := Parent(i);
    var t := s[i := s[p]][p := s[i]];
    forall k | 0 < k < |t| && k != p ensures Ordered(t, k) {
      assert k != i ==> Ordered(s, k);
    }
    if p > 0 {
      assert Ordered(s, p);
      forall k | 0 < k < |t| && Parent(k) == p ensures t[Parent(p)].dist <= t[k].dist {
        assert k != i ==> Ordered(s, k);
      }
    }
  }

  lemma SiftUpDone(s: seq<Item>, i: nat)
    requires AlmostUp(s, i) && (i > 0 ==> s[Parent(i)].dist <= s[i].dist)
    ensures IsHeap(s)
  {
  }

  /** Moving the smaller child `m` up into the hole and the item down. */
  lemma SiftDownStep(s: seq<Item>, i: nat, m: nat)
    requires AlmostDown(s, i) && 0 < m < |s| && Parent(m) == i && s[m].dist < s[i].dist
    requires forall k :: 0 < k < |s| && Parent(k) == i ==> s[m].dist <= s[k].dist
    ensures AlmostDown(s[i := s[m]][m := s[i]], m)
  {
    var t := s[i := s[m]][m := s[i]];
    forall k | 0 < k < |t| && Parent(k) != m ensures Ordered(t, k) {
      assert Parent(k) != i ==> Ordered(s, k);
    }
    forall k | 0 < k < |t| && Parent(k) == m ensures t[Parent(m)].dist <= t[k].dist {
      assert Ordered(s, k);
    }
  }

  lemma SiftDownDone(s: seq<Item>, i: nat)
    requires AlmostDown(s, i) && forall k :: 0 < k < |s| && Parent(k) == i ==> s[i].dist <= s[k].dist
    ensures IsHeap(s)
  {
    forall k | 0 < k < |s| ensures Ordered(s, k) {
    }
  }

  lemma SwapMultiset(s: seq<Item>, i: nat, j: nat)
    requires i < |s| && j < |s|
    ensures multiset(s[i := s[j]][j := s[i]]) == multiset(s)
  {
  }

  /** Move the hole at `i0` up until `it` fits into it. */
  method SiftUp(a: array<Item>, n: nat, i0: nat, it: Item)
    requires i0 < n <= a.Length && AlmostUp(a[..n][i0 := it], i0)
    modifies a
    ensures IsHeap(a[..n]) && multiset(a[..n]) == multiset(old(a[..n])[i0 := it])
  {
    var i := i0;
    ghost var v := a[..n][i := it];
    while i > 0
      invariant i < n && v == a[..n][i := it] && AlmostUp(v, i) && multiset(v) == multiset(old(a[..n])[i0 := it])
    {
      var p := (i - 1) / 2;
      if a[p].dist <= it.dist {
        break;
      }
      SiftUpStep(v, i);
      SwapMultiset(v, i, p);
      ghost var w := v[i := v[p]][p := v[i]];
      a[i] := a[p];
      v, i := w, p;
      assert v == a[..n][i := it];
    }
    SiftUpDone(v, i);
    a[i] := it;
    assert a[..n] == v;
  }

  /** The smaller child of `i` that is below `last`, or `i` itself. */
  method SmallerChild(a: array<Item>, n: nat, i: nat, last: Item, ghost v: seq<Item>) returns (m: nat)
    requires i < n <= a.Length && v == a[..n][i := last]
    ensures m < n && (m != i ==> 0 < m && Parent(m) == i && v[m].dist < v[i].dist && a[m] == v[m])
    ensures forall k :: 0 < k < n && Parent(k) == i ==> v[m].dist <= v[k].dist
  {
    var l := 2 * i + 1;
    var r := l + 1;
    m := i;
    if l < n && a[l].dist < last.dist {
      m := l;
    }
    if r < n && a[r].dist < (if m == i then last.dist else a[l].dist) {
      m := r;
    }
    assert forall k :: 0 < k < n && Parent(k) == i ==> k == l || k == r;
  }

  lemma HoleMoved(s: seq<Item>, v: seq<Item>, m: nat)
    requires |s| == |v| && m < |v| && forall k :: 0 <= k < |v| && k != m ==> v[k] == s[k]
    ensures v == s[m := v[m]]
  {
  }

  /** Move the hole at the root down until `last` fits into it. */
  method SiftDown(a: array<Item>, n: nat, last: Item)
    requires 0 < n <= a.Length && AlmostDown(a[..n][0 := last], 0)
    modifies a
    ensures IsHeap(a[..n]) && multiset(a[..n]) == multiset(old(a[..n])[0 := last])
  {
    var i := 0;
    ghost var v := a[..n][i := last];
    while true
      invariant i < n && v == a[..n][i := last] && multiset(v) == multiset(old(a[..n])[0 := last])
      invariant AlmostDown(v, i)
      decreases n - i
    {
      var m := SmallerChild(a, n, i, last, v);
      if m == i {
        SiftDownDone(v, i);
        break;
      }
      v := MoveHole(a, n, i, m, last, v);
      i := m;
    }
    a[i] := last;
    assert a[..n] == v;
  }

  /** The child moves up into the hole at `i`, and its place is the hole; `v` is the heap with `last` in the hole. */
  method MoveHole(a: array<Item>, n: nat, i: nat, m: nat, last: Item, ghost v: seq<Item>) returns (ghost w: seq<Item>)
    requires i < n <= a.Length && v == a[..n][i := last] && AlmostDown(v, i)
    requires 0 < m < n && Parent(m) == i && i < m && v[m].dist < v[i].dist
    requires forall k :: 0 < k < n && Parent(k) == i ==> v[m].dist <= v[k].dist
    modifies a
    ensures w == a[..n][m := last] && multiset(w) == multiset(v) && AlmostDown(w, m)
  {
    SiftDownStep(v, i, m);
    SwapMultiset(v, i, m);
    a[i] := a[m];
    w := v[i := v[m]][m := v[i]];
    HoleMoved(a[..n], w, m);
  }

  lemma PushStarts(s: seq<Item>, it: Item)
    requires IsHeap(s)
    ensures AlmostUp(s + [it], |s|) && multiset(s + [it]) == multiset(s) + multiset{it}
  {
    var t := s + [it];
    forall k | 0 < k < |t| && k != |s| ensures Ordered(t, k) {
      assert Ordered(s, k);
    }
  }

  /** The last item over the popped root. */
  lemma PopStarts(s: seq<Item>)
    requires IsHeap(s) && |s| > 1
    ensures var t := s[..|s| - 1][0 := s[|s| - 1]];
            AlmostDown(t, 0) && multiset(s) == multiset(t) + multiset{s[0]}
  {
    var n := |s| - 1;
    var t := s[..n][0 := s[n]];
    forall k | 0 < k < |t| && Parent(k) != 0 ensures Ordered(t, k) {
      assert Ordered(s, k);
    }
    assert s == [s[0]] + s[1..n] + [s[n]];
    assert t == [s[n]] + s[1..n];
  }

  class KnnHeap {
    var a: array<Item>
    var n: nat

    ghost predicate Valid()
      reads this, a
    {
      n <= a.Length && IsHeap(a[..n])
    }

    ghost function Contents(): multiset<Item>
      reads this, a
      requires n <= a.Length
    {
      multiset(a[..n])
    }

    constructor ()
      ensures Valid() && Contents() == multiset{} && fresh(a) && n == 0
    {
      a, n := new Item[0], 0;
    }

    /** Room for one more item, doubling the array when it is full. */
    method Reserve()
      requires Valid()
      modifies this`a
      ensures n < a.Length && a[..n] == old(a[..n]) && (a == old(a) || fresh(a))
    {
      if n == a.Length {
        var m, old_ := n, a;
        var b := new Item[if m > 0 then 2 * m else 64](_ => NodeItem(0.0, 0));
        for k := 0 to m
          invariant b[..k] == old_[..k]
        {
          b[k] := old_[k];
          assert b[..k + 1] == b[..k] + [b[k]] && old_[..k + 1] == old_[..k] + [old_[k]];
        }
        a := b;
      }
    }

    method Push(it: Item)
      requires Valid()
      modifies this, a
      ensures Valid() && Contents() == old(Contents()) + multiset{it} && n == old(n) + 1 && (a == old(a) || fresh(a))
    {
      Reserve();
      PushStarts(a[..n], it);
      n := n + 1;
      assert a[..n][n - 1 := it] == a[..n - 1] + [it];
      SiftUp(a, n, n - 1, it);
    }

    /** Take out the least item. */
    method Pop() returns (top: Item)
      requires Valid() && n > 0
      modifies this, a
      ensures Valid() && old(Contents()) == Contents() + multiset{top} && n == old(n) - 1 && a == old(a)
      ensures forall it :: it in Contents() ==> top.dist <= it.dist
    {
      top := a[0];
      ghost var s := a[..n];
      forall k | 0 <= k < n ensures top.dist <= s[k].dist {
        RootIsLeast(s, k);
      }
      n := n - 1;
      var last := a[n];
      if n > 0 {
        PopStarts(s);
        assert a[..n] == s[..n];
        SiftDown(a, n, last);
      } else {
        a[0] := last;
        assert s == [top] && a[..n] == [];
      }
      forall it | it in Contents() ensures top.dist <= it.dist {
        assert it in multiset(s);
        assert it in s;
      }
    }
  }

  // ---- what the items stand for ----

  /** Node records determine their tree. */
  lemma {:induction false} ReprUnique(s: RStore, p: nat, t: Spatial, u: Spatial)
    requires Repr(s, p, t) && Repr(s, p, u)
    ensures t == u
    decreases t
  {
    assert Shape(s, s[p], p, t) && Shape(s, s[p], p, u);
    if t.Inner? && u.Inner? {
      forall i | 0 <= i < |t.kids| ensures t.kids[i] == u.kids[i] {
        assert KidOk(s, s[p].children[i], s[p].cbs[i], p, t.kids[i])
            && KidOk(s, s[p].children[i], s[p].cbs[i], p, u.kids[i]);
        ReprUnique(s, s[p].children[i], t.kids[i], u.kids[i]);
      }
      assert t.kids == u.kids;
    }
  }

  ghost predicate IsTree(s: RStore, p: nat) {
    exists t :: Repr(s, p, t)
  }

  ghost function TreeAt(s: RStore, p: nat): Spatial
    requires IsTree(s, p)
  {
    var t :| Repr(s, p, t);
    t
  }

  /** The points an item stands for. */
  ghost function ItemPts(s: RStore, it: Item): multiset<Pt> {
    match it
    case NodeItem(_, p) => if IsTree(s, p) then Pts(TreeAt(s, p)) else multiset{}
    case EntryItem(_, e) => multiset{e}
  }

  /** The nodes below an item that may still be opened. */
  ghost function ItemNodes(s: RStore, it: Item): nat {
    if it.NodeItem? && IsTree(s, it.ptr) then Nodes(TreeAt(s, it.ptr)) else 0
  }

  // ---- sums over the queue ----

  type PtsOf = Item -> multiset<Pt>

  type NodesOf = Item -> nat

  ghost function ListPts(f: PtsOf, l: seq<Item>): multiset<Pt> {
    if l == [] then multiset{} else ListPts(f, l[..|l| - 1]) + f(l[|l| - 1])
  }

  ghost function ListNodes(g: NodesOf, l: seq<Item>): nat {
    if l == [] then 0 else ListNodes(g, l[..|l| - 1]) + g(l[|l| - 1])
  }

  lemma ListSnoc(f: PtsOf, g: NodesOf, l: seq<Item>, it: Item)
    ensures ListPts(f, l + [it]) == ListPts(f, l) + f(it) && ListNodes(g, l + [it]) == ListNodes(g, l) + g(it)
  {
    assert (l + [it])[..|l|] == l;
  }

  lemma {:induction false} ListConcat(f: PtsOf, g: NodesOf, l: seq<Item>, r: seq<Item>)
    ensures ListPts(f, l + r) == ListPts(f, l) + ListPts(f, r)
            && ListNodes(g, l + r) == ListNodes(g, l) + ListNodes(g, r)
  {
    if r == [] {
      assert l + r == l;
    } else {
      var n := |r| - 1;
      ListConcat(f, g, l, r[..n]);
      ListSnoc(f, g, l + r[..n], r[n]);
      assert l + r == l + r[..n] + [r[n]];
    }
  }

  /** One item taken out of the list. */
  lemma ListWithout(f: PtsOf, g: NodesOf, l: seq<Item>, k: nat)
    requires k < |l|
    ensures ListPts(f, l) == ListPts(f, l[..k] + l[k + 1..]) + f(l[k])
    ensures ListNodes(g, l) == ListNodes(g, l[..k] + l[k + 1..]) + g(l[k])
    ensures multiset(l) == multiset(l[..k] + l[k + 1..]) + multiset{l[k]}
  {
    CutAt(l, k);
    var a, b := l[..k], l[k + 1..];
    ListSnoc(f, g, a, l[k]);
    ListConcat(f, g, a + [l[k]], b);
    ListConcat(f, g, a, b);
  }

  lemma {:induction false} ListFrom(f: PtsOf, l: seq<Item>, e: Pt) returns (k: nat)
    requires e in ListPts(f, l)
    ensures k < |l| && e in f(l[k])
  {
    if e in f(l[|l| - 1]) {
      k := |l| - 1;
    } else {
      k := ListFrom(f, l[..|l| - 1], e);
    }
  }

  // ---- distances ----

  /** The bound of a box never exceeds the distance of a point in it, and no distance is negative. */
  ghost predicate Admissible(dist: Pt -> real, bound: Box -> real) {
    (forall b, e :: Has(b, e) ==> bound(b) <= dist(e)) && forall e :: 0.0 <= dist(e)
  }

  /** An item's distance never exceeds that of a point it stands for; an entry's is exact. */
  ghost predicate ItemOk(s: RStore, dist: Pt -> real, it: Item) {
    && (it.NodeItem? ==> IsTree(s, it.ptr))
    && (forall e :: e in ItemPts(s, it) ==> it.dist <= dist(e))
    && (it.EntryItem? ==> it.dist == dist(it.pt))
  }

  ghost function PtsIn(s: RStore): PtsOf {
    (it: Item) => ItemPts(s, it)
  }

  ghost function NodesIn(s: RStore): NodesOf {
    (it: Item) => ItemNodes(s, it)
  }

  // ---- the search ----

  /**
   * A queue of items: a list with the heap's contents, what it stands for, and the nodes it may
   * still open.
   */
  datatype Queue = Queue(l: seq<Item>) {
    ghost predicate Valid(s: RStore, dist: Pt -> real, contents: multiset<Item>) {
      multiset(l) == contents && forall k :: 0 <= k < |l| ==> ItemOk(s, dist, l[k])
    }

    ghost function Points(s: RStore): multiset<Pt> {
      ListPts(PtsIn(s), l)
    }

    ghost function Open(s: RStore): nat {
      ListNodes(NodesIn(s), l)
    }

    ghost function Plus(it: Item): Queue {
      Queue(l + [it])
    }
  }

  lemma QueuePlus(s: RStore, dist: Pt -> real, q: Queue, c: multiset<Item>, it: Item)
    requires q.Valid(s, dist, c) && ItemOk(s, dist, it)
    ensures q.Plus(it).Valid(s, dist, c + multiset{it})
    ensures q.Plus(it).Points(s) == q.Points(s) + ItemPts(s, it) && q.Plus(it).Open(s) == q.Open(s) + ItemNodes(s, it)
  {
    ListSnoc(PtsIn(s), NodesIn(s), q.l, it);
  }

  lemma QueueMinus(s: RStore, dist: Pt -> real, q: Queue, c: multiset<Item>, it: Item) returns (q2: Queue)
    requires q.Valid(s, dist, c + multiset{it})
    ensures q2.Valid(s, dist, c) && ItemOk(s, dist, it)
    ensures q.Points(s) == q2.Points(s) + ItemPts(s, it) && q.Open(s) == q2.Open(s) + ItemNodes(s, it)
  {
    assert it in multiset(q.l);
    var k :| 0 <= k < |q.l| && q.l[k] == it;
    ListWithout(PtsIn(s), NodesIn(s), q.l, k);
    var rest := q.l[..k] + q.l[k + 1..];
    q2 := Queue(rest);
    CancelItem(multiset(rest), c, it);
    forall j | 0 <= j < |rest| ensures ItemOk(s, dist, rest[j]) {
      WithoutAt(q.l, k, j);
    }
  }

  lemma WithoutAt<T>(l: seq<T>, k: nat, j: nat)
    requires k < |l| && j < |l| - 1
    ensures (l[..k] + l[k + 1..])[j] == l[if j < k then j else j + 1]
  {
  }

  lemma CancelItem(x: multiset<Item>, c: multiset<Item>, it: Item)
    requires x + multiset{it} == c + multiset{it}
    ensures x == c
  {
    forall v: Item ensures x[v] == c[v] {
      assert (x + multiset{it})[v] == (c + multiset{it})[v];
    }
  }

  /** Every point the queue stands for is at least as far as a least item. */
  lemma QueueFar(s: RStore, dist: Pt -> real, q: Queue, c: multiset<Item>, d: real, e: Pt)
    requires q.Valid(s, dist, c) && (forall it :: it in c ==> d <= it.dist) && e in q.Points(s)
    ensures d <= dist(e)
  {
    var k := ListFrom(PtsIn(s), q.l, e);
    assert q.l[k] in multiset(q.l);
    assert ItemOk(s, dist, q.l[k]);
  }

  /** What has been emitted: real entries with their distances, nearest first. */
  ghost predicate Ascending(dist: Pt -> real, out: seq<Item>) {
    && (forall i :: 0 <= i < |out| ==> out[i].EntryItem? && out[i].dist == dist(out[i].pt))
    && (forall i, j :: 0 <= i < j < |out| ==> out[i].dist <= out[j].dist)
  }

  ghost function Emitted(out: seq<Item>): multiset<Pt>
    requires forall i :: 0 <= i < |out| ==> out[i].EntryItem?
  {
    if out == [] then multiset{} else Emitted(out[..|out| - 1]) + multiset{out[|out| - 1].pt}
  }

  lemma EmittedSnoc(out: seq<Item>, it: Item)
    requires (forall i :: 0 <= i < |out| ==> out[i].EntryItem?) && it.EntryItem?
    ensures Emitted(out + [it]) == Emitted(out) + multiset{it.pt}
  {
    assert (out + [it])[..|out|] == out;
  }

  lemma {:induction false} EmittedCount(out: seq<Item>)
    requires forall i :: 0 <= i < |out| ==> out[i].EntryItem?
    ensures |Emitted(out)| == |out|
  {
    if out != [] {
      EmittedCount(out[..|out| - 1]);
    }
  }

  /**
   * The state of the search: emitted and queued points are all the points of the tree, what is
   * emitted is in order, and nothing left is nearer than anything emitted.
   */
  ghost predicate Searching(s: RStore, dist: Pt -> real, t: Spatial, q: Queue, c: multiset<Item>, out: seq<Item>) {
    && q.Valid(s, dist, c) && Ascending(dist, out) && Emitted(out) + q.Points(s) == Pts(t)
    && NoneNearer(dist, out, q.Points(s))
  }

  /** No point of `m` is nearer than anything emitted. */
  ghost predicate NoneNearer(dist: Pt -> real, out: seq<Item>, m: multiset<Pt>) {
    forall i, e :: 0 <= i < |out| && e in m ==> out[i].dist <= dist(e)
  }

  lemma EmittedNearest(dist: Pt -> real, out: seq<Item>, it: Item, m: multiset<Pt>)
    requires Ascending(dist, out) && it.EntryItem? && it.dist == dist(it.pt)
    requires NoneNearer(dist, out, m + multiset{it.pt}) && forall e :: e in m ==> it.dist <= dist(e)
    ensures Ascending(dist, out + [it]) && NoneNearer(dist, out + [it], m)
  {
    forall i, e | 0 <= i < |out| + 1 && e in m ensures (out + [it])[i].dist <= dist(e) {
      assert e in m + multiset{it.pt};
    }
    forall i | 0 <= i < |out| ensures out[i].dist <= it.dist {
      assert it.pt in m + multiset{it.pt};
    }
  }

  /** Emitting the least item. */
  lemma EmitStep(s: RStore, dist: Pt -> real, t: Spatial, q: Queue, c: multiset<Item>, out: seq<Item>, it: Item)
    returns (q2: Queue)
    requires Searching(s, dist, t, q, c + multiset{it}, out) && it.EntryItem?
             && (forall x :: x in c ==> it.dist <= x.dist)
    ensures Searching(s, dist, t, q2, c, out + [it]) && q2.Open(s) == q.Open(s)
  {
    q2 := QueueMinus(s, dist, q, c, it);
    EmittedSnoc(out, it);
    forall e | e in q2.Points(s) ensures it.dist <= dist(e) {
      QueueFar(s, dist, q2, c, it.dist, e);
    }
    EmittedNearest(dist, out, it, q2.Points(s));
  }

  /** Opening a node: what it stands for is put back piece by piece. */
  ghost predicate Opening(s: RStore, dist: Pt -> real, t: Spatial, q: Queue, c: multiset<Item>, out: seq<Item>,
                          left: multiset<Pt>, open: nat) {
    && q.Valid(s, dist, c) && Ascending(dist, out) && Emitted(out) + (q.Points(s) + left) == Pts(t)
    && NoneNearer(dist, out, q.Points(s) + left) && q.Open(s) <= open
  }

  lemma OpenStart(s: RStore, dist: Pt -> real, t: Spatial, q: Queue, c: multiset<Item>, out: seq<Item>, it: Item)
    returns (q2: Queue)
    requires Searching(s, dist, t, q, c + multiset{it}, out) && it.NodeItem?
    ensures IsTree(s, it.ptr) && Opening(s, dist, t, q2, c, out, Pts(TreeAt(s, it.ptr)), q2.Open(s))
    ensures q.Open(s) == q2.Open(s) + Nodes(TreeAt(s, it.ptr))
  {
    q2 := QueueMinus(s, dist, q, c, it);
  }

  /** One piece of the opened node is queued; `rest` is still to come. */
  lemma OpenPiece(s: RStore, dist: Pt -> real, t: Spatial, q: Queue, c: multiset<Item>, out: seq<Item>,
                  left: multiset<Pt>, open: nat,
                  it: Item, rest: multiset<Pt>)
    requires Opening(s, dist, t, q, c, out, left, open) && ItemOk(s, dist, it) && left == ItemPts(s, it) + rest
    ensures Opening(s, dist, t, q.Plus(it), c + multiset{it}, out, rest, open + ItemNodes(s, it))
  {
    QueuePlus(s, dist, q, c, it);
    assert q.Points(s) + left == q.Plus(it).Points(s) + rest;
  }

  lemma OpenDone(s: RStore, dist: Pt -> real, t: Spatial, q: Queue, c: multiset<Item>, out: seq<Item>, open: nat)
    requires Opening(s, dist, t, q, c, out, multiset{}, open)
    ensures Searching(s, dist, t, q, c, out) && q.Open(s) <= open
  {
    assert q.Points(s) + multiset{} == q.Points(s);
  }

  lemma TreeAtIs(s: RStore, p: nat, t: Spatial)
    requires Repr(s, p, t)
    ensures IsTree(s, p) && TreeAt(s, p) == t
  {
    ReprUnique(s, p, t, TreeAt(s, p));
  }

  /** A child in the queue. */
  lemma KidItem(s: RStore, dist: Pt -> real, bound: Box -> real, p: nat, cb: Box, kid: Spatial)
    requires Admissible(dist, bound) && Repr(s, p, kid) && Covers(cb, kid)
    ensures ItemOk(s, dist, NodeItem(bound(cb), p))
    ensures ItemPts(s, NodeItem(bound(cb), p)) == Pts(kid) && ItemNodes(s, NodeItem(bound(cb), p)) == Nodes(kid)
  {
    TreeAtIs(s, p, kid);
  }

  /** Queue one piece of an opened node. */
  method PushPiece(h: KnnHeap, it: Item, ghost s: RStore, ghost dist: Pt -> real, ghost t: Spatial, ghost q0: Queue,
                   ghost out: seq<Item>,
                   ghost left: multiset<Pt>, ghost open: nat, ghost rest: multiset<Pt>)
    returns (ghost q: Queue)
    requires h.Valid() && Opening(s, dist, t, q0, h.Contents(), out, left, open)
    requires ItemOk(s, dist, it) && left == ItemPts(s, it) + rest
    modifies h, h.a
    ensures h.Valid() && (h.a == old(h.a) || fresh(h.a))
    ensures Opening(s, dist, t, q, h.Contents(), out, rest, open + ItemNodes(s, it))
  {
    OpenPiece(s, dist, t, q0, h.Contents(), out, left, open, it, rest);
    h.Push(it);
    q := q0.Plus(it);
  }

  /** An entry in the queue. */
  lemma EntryItemOk(s: RStore, dist: Pt -> real, es: seq<Pt>, i: nat)
    requires i < |es|
    ensures var it := EntryItem(dist(es[i]), es[i]);
            ItemOk(s, dist, it) && ItemNodes(s, it) == 0 && multiset(es[i..]) == ItemPts(s, it) + multiset(es[i + 1..])
  {
    assert es[i..] == [es[i]] + es[i + 1..];
  }

  /** Queue the entries of an opened leaf. */
  method QueueEntries(h: KnnHeap, nd: RNode, dist: Pt -> real, ghost s: RStore, ghost t: Spatial, ghost q0: Queue,
                      ghost out: seq<Item>, ghost open: nat)
    returns (ghost q: Queue)
    requires h.Valid() && Opening(s, dist, t, q0, h.Contents(), out, multiset(nd.entries), open)
    modifies h, h.a
    ensures h.Valid() && Searching(s, dist, t, q, h.Contents(), out) && q.Open(s) <= open
            && (h.a == old(h.a) || fresh(h.a))
  {
    q := q0;
    assert nd.entries[0..] == nd.entries;
    for i := 0 to |nd.entries|
      invariant h.Valid() && (h.a == old(h.a) || fresh(h.a))
      invariant Opening(s, dist, t, q, h.Contents(), out, multiset(nd.entries[i..]), open)
    {
      var it := EntryItem(dist(nd.entries[i]), nd.entries[i]);
      EntryItemOk(s, dist, nd.entries, i);
      q := PushPiece(h, it, s, dist, t, q, out, multiset(nd.entries[i..]), open, multiset(nd.entries[i + 1..]));
    }
    OpenDone(s, dist, t, q, h.Contents(), out, open);
  }

  lemma KidsLeft(kids: seq<Spatial>, i: nat)
    requires i < |kids|
    ensures PtsAll(kids[i..]) == Pts(kids[i]) + PtsAll(kids[i + 1..])
            && NodesAll(kids[..i + 1]) == NodesAll(kids[..i]) + Nodes(kids[i])
  {
    PtsAround(kids[i..], 0);
    assert kids[i..][..0] == [] && kids[i..][1..] == kids[i + 1..];
    assert kids[..i + 1][..i] == kids[..i];
  }

  /** What child `i` adds to the queue. */
  lemma KidStep(s: RStore, dist: Pt -> real, bound: Box -> real, nd: RNode, below: nat, kids: seq<Spatial>, i: nat)
    requires Admissible(dist, bound) && Shape(s, nd, below, Inner(kids)) && i < |kids|
    ensures NodesAll(kids[..i]) <= NodesAll(kids[..i + 1])
    ensures !nd.cbs[i].valid ==> PtsAll(kids[i..]) == PtsAll(kids[i + 1..])
    ensures var it := NodeItem(bound(nd.cbs[i]), nd.children[i]);
            && ItemOk(s, dist, it) && PtsAll(kids[i..]) == ItemPts(s, it) + PtsAll(kids[i + 1..])
            && NodesAll(kids[..i + 1]) == NodesAll(kids[..i]) + ItemNodes(s, it)
  {
    KidsLeft(kids, i);
    assert KidOk(s, nd.children[i], nd.cbs[i], below, kids[i]);
    KidItem(s, dist, bound, nd.children[i], nd.cbs[i], kids[i]);
    if !nd.cbs[i].valid {
      NoPoints(nd.cbs[i], kids[i]);
      assert multiset{} + PtsAll(kids[i + 1..]) == PtsAll(kids[i + 1..]);
    }
  }

  /** The first `i` children of the opened node are queued. */
  ghost predicate KidsQueued(s: RStore, dist: Pt -> real, t: Spatial, q: Queue, c: multiset<Item>, out: seq<Item>,
                             kids: seq<Spatial>, i: nat, open: nat) {
    i <= |kids| && Opening(s, dist, t, q, c, out, PtsAll(kids[i..]), open + NodesAll(kids[..i]))
  }

  lemma NoneQueued(s: RStore, dist: Pt -> real, t: Spatial, q: Queue, c: multiset<Item>, out: seq<Item>,
                   kids: seq<Spatial>, open: nat)
    requires Opening(s, dist, t, q, c, out, PtsAll(kids), open)
    ensures KidsQueued(s, dist, t, q, c, out, kids, 0, open)
  {
    assert kids[0..] == kids && kids[..0] == [];
  }

  lemma AllQueued(s: RStore, dist: Pt -> real, t: Spatial, q: Queue, c: multiset<Item>, out: seq<Item>,
                  kids: seq<Spatial>, open: nat)
    requires KidsQueued(s, dist, t, q, c, out, kids, |kids|, open)
    ensures Searching(s, dist, t, q, c, out) && q.Open(s) <= open + NodesAll(kids)
  {
    assert kids[..|kids|] == kids && kids[|kids|..] == [];
    OpenDone(s, dist, t, q, c, out, open + NodesAll(kids));
  }

  /** Queue child `i` of an opened node; a child without a box has no points. */
  method QueueKid(h: KnnHeap, nd: RNode, i: nat, bound: Box -> real, ghost dist: Pt -> real, ghost s: RStore,
                  ghost below: nat, ghost kids: seq<Spatial>,
                  ghost t: Spatial, ghost q0: Queue, ghost out: seq<Item>, ghost open: nat)
    returns (ghost q: Queue)
    requires Admissible(dist, bound) && h.Valid() && Shape(s, nd, below, Inner(kids)) && i < |kids|
    requires KidsQueued(s, dist, t, q0, h.Contents(), out, kids, i, open)
    modifies h, h.a
    ensures h.Valid() && (h.a == old(h.a) || fresh(h.a))
    ensures KidsQueued(s, dist, t, q, h.Contents(), out, kids, i + 1, open)
  {
    KidStep(s, dist, bound, nd, below, kids, i);
    if nd.cbs[i].valid {
      var it := NodeItem(bound(nd.cbs[i]), nd.children[i]);
      q := PushPiece(h, it, s, dist, t, q0, out, PtsAll(kids[i..]), open + NodesAll(kids[..i]), PtsAll(kids[i + 1..]));
    } else {
      q := q0;
    }
  }

  /** Queue the children of an opened node. */
  method QueueKids(h: KnnHeap, nd: RNode, bound: Box -> real, ghost dist: Pt -> real, ghost s: RStore, ghost below: nat,
                   ghost kids: seq<Spatial>,
                   ghost t: Spatial, ghost q0: Queue, ghost out: seq<Item>, ghost open: nat)
    returns (ghost q: Queue)
    requires Admissible(dist, bound) && h.Valid() && Shape(s, nd, below, Inner(kids))
    requires Opening(s, dist, t, q0, h.Contents(), out, PtsAll(kids), open)
    modifies h, h.a
    ensures h.Valid() && Searching(s, dist, t, q, h.Contents(), out) && q.Open(s) <= open + NodesAll(kids)
    ensures h.a == old(h.a) || fresh(h.a)
  {
    q := q0;
    NoneQueued(s, dist, t, q, h.Contents(), out, kids, open);
    for i := 0 to |nd.children|
      invariant h.Valid() && (h.a == old(h.a) || fresh(h.a))
                && KidsQueued(s, dist, t, q, h.Contents(), out, kids, i, open)
    {
      q := QueueKid(h, nd, i, bound, dist, s, below, kids, t, q, out, open);
    }
    AllQueued(s, dist, t, q, h.Contents(), out, kids, open);
  }

  lemma NoPoints(b: Box, t: Spatial)
    requires Covers(b, t) && !b.valid
    ensures Pts(t) == multiset{}
  {
    forall e: Pt ensures Pts(t)[e] == 0 {
      assert e !in Pts(t);
    }
  }

  /** Open one node: its entries or its children take its place in the queue. */
  method OpenNode(h: KnnHeap, s: RStore, it: Item, dist: Pt -> real, bound: Box -> real, ghost t: Spatial,
                  ghost q0: Queue, ghost out: seq<Item>)
    returns (ghost q: Queue)
    requires Admissible(dist, bound) && h.Valid() && it.NodeItem?
    requires Searching(s, dist, t, q0, h.Contents() + multiset{it}, out)
    modifies h, h.a
    ensures h.Valid() && Searching(s, dist, t, q, h.Contents(), out) && q.Open(s) < q0.Open(s)
    ensures h.a == old(h.a) || fresh(h.a)
  {
    ghost var q1 := OpenStart(s, dist, t, q0, h.Contents(), out, it);
    ghost var u := TreeAt(s, it.ptr);
    var nd := s[it.ptr];
    assert NodeRepr(s, nd, it.ptr, u) && Shape(s, nd, it.ptr, u);
    if nd.isLeaf {
      q := QueueEntries(h, nd, dist, s, t, q1, out, q1.Open(s));
    } else {
      q := QueueKids(h, nd, bound, dist, s, it.ptr, u.kids, t, q1, out, q1.Open(s));
    }
  }

  /** What is left in the queue is no nearer than what was emitted. */
  ghost predicate NearestFirst(dist: Pt -> real, out: seq<Item>, rest: multiset<Pt>) {
    Ascending(dist, out) && NoneNearer(dist, out, rest)
  }

  lemma StartQueue(s: RStore, dist: Pt -> real, root: nat, t: Spatial)
    requires Repr(s, root, t) && forall e :: 0.0 <= dist(e)
    ensures Searching(s, dist, t, Queue([NodeItem(0.0, root)]), multiset{NodeItem(0.0, root)}, [])
    ensures Queue([NodeItem(0.0, root)]).Open(s) == Nodes(t)
  {
    var it := NodeItem(0.0, root);
    TreeAtIs(s, root, t);
    ListSnoc(PtsIn(s), NodesIn(s), [], it);
    assert [] + [it] == [it];
  }

  /** The search itself, with its cap on the nodes opened. */
  method Walk(s: RStore, root: nat, k: int, dist: Pt -> real, bound: Box -> real, budget0: nat, ghost t: Spatial)
    returns (st: Status, out: seq<Item>, ghost rest: multiset<Pt>)
    requires Repr(s, root, t) && Admissible(dist, bound) && Nodes(t) <= budget0
    ensures st == if k < 0 then State else Ok
    ensures st == Ok ==> NearestFirst(dist, out, rest) && Emitted(out) + rest == Pts(t)
    ensures st == Ok ==> |out| == if k < |Pts(t)| then k else |Pts(t)|
  {
    out, rest := [], Pts(t);
    if k < 0 {
      return State, out, rest;
    }
    var h := new KnnHeap();
    var budget := budget0;
    ghost var q := Queue([]);
    if k > 0 {
      h.Push(NodeItem(0.0, root));
      StartQueue(s, dist, root, t);
      q := Queue([NodeItem(0.0, root)]);
    }
    while h.n > 0 && |out| < k
      invariant h.Valid() && fresh(h) && fresh(h.a) && |out| <= k
      invariant k > 0 ==> Searching(s, dist, t, q, h.Contents(), out) && q.Open(s) <= budget
      decreases budget + (k - |out|)
    {
      var it := h.Pop();
      if it.EntryItem? {
        q := EmitStep(s, dist, t, q, h.Contents(), out, it);
        out := out + [it];
        continue;
      }
      OpensSome(s, dist, q, h.Contents(), it);
      if budget == 0 {
        return State, out, rest;
      }
      budget := budget - 1;
      q := OpenNode(h, s, it, dist, bound, t, q, out);
    }
    st := Ok;
    if k > 0 {
      rest := q.Points(s);
      EmittedCount(out);
      if h.n == 0 {
        assert multiset(q.l) == multiset{} && q.l == [];
      }
    }
  }

  /** A queued node still has itself to open. */
  lemma OpensSome(s: RStore, dist: Pt -> real, q: Queue, c: multiset<Item>, it: Item)
    requires q.Valid(s, dist, c + multiset{it}) && it.NodeItem?
    ensures q.Open(s) > 0
  {
    var q2 := QueueMinus(s, dist, q, c, it);
  }

  /**
   * The `k` nearest entries, or all of them when there are fewer: in ascending distance, and with
   * no other entry nearer than an emitted one.  The nodes opened are capped by what a file of `len`
   * bytes could hold, and in a tree of that file the cap is never reached.
   */
  method FindNearest(t: RTree.RTree, k: int, dist: Pt -> real, bound: Box -> real)
    returns (st: Status, out: seq<Item>, ghost rest: multiset<Pt>)
    requires t.Valid() && Admissible(dist, bound)
    ensures st == if k < 0 then State else Ok
    ensures st == Ok ==> NearestFirst(dist, out, rest) && Emitted(out) + rest == Pts(t.tree)
    ensures st == Ok ==> |out| == if k < |Pts(t.tree)| then k else |Pts(t.tree)|
  {
    st, out, rest := Walk(t.store, t.root, k, dist, bound, t.len / 8 + 64, t.tree);
  }
}
