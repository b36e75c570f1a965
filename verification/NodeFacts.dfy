// Node-level facts of the B+ tree: what replacing, splitting and merging nodes does to the records
// and to the tree they stand for, and what one committed version of the tree is.
module NodeFacts {
  import opened SortedEntries
  import opened RecordFile
  import opened TreeModel

  const MAX_DEPTH: nat := 128
  const OUT_OF_LINE_THRESHOLD: nat := 256
  const UINT32_MAX: nat := 0xFFFF_FFFF

  /** Result of adding below a node: its replacement, or two halves around a new separator; not saved yet. */
  datatype AddRes =
    | Whole(node: Node, updated: bool)
    | Halves(left: Node, sep: real, right: Node)

  /** Result of deleting below a node: its replacement, not saved yet, or nothing. */
  datatype DelRes = Absent | Removed(node: Node)

  function MakeLeaf(id: nat, keys: seq<real>, vals: seq<Cell>): Node {
    Node(id, true, keys, vals, [])
  }

  function MakeInternal(id: nat, keys: seq<real>, children: seq<nat>): Node {
    Node(id, false, keys, [], children)
  }

  // ---- values ----

  ghost function ValueOf(s: Store, c: Cell): Bytes {
    match Resolve(s, c)
    case Some(v) => v
    case None => []
  }

  /** The entries with every cell followed to its value. */
  ghost function Resolved(s: Store, es: seq<Entry<Cell>>): seq<Entry<Bytes>> {
    if es == [] then [] else [Entry(es[0].key, ValueOf(s, es[0].val))] + Resolved(s, es[1..])
  }

  ghost predicate CellsOk(s: Store, es: seq<Entry<Cell>>) {
    forall i :: 0 <= i < |es| ==> Resolve(s, es[i].val).Some?
  }

  lemma {:induction false} ResolvedExtends(s1: Store, s2: Store, es: seq<Entry<Cell>>)
    requires Extends(s1, s2) && CellsOk(s1, es)
    ensures CellsOk(s2, es) && Resolved(s2, es) == Resolved(s1, es)
  {
    if es != [] {
      assert forall i :: 0 <= i < |es[1..]| ==> es[1..][i] == es[i + 1];
      assert Resolve(s1, es[0].val).Some?;
      ResolvedExtends(s1, s2, es[1..]);
      forall i | 0 <= i < |es| ensures Resolve(s2, es[i].val).Some? {
        assert Resolve(s1, es[i].val).Some?;
      }
    }
  }

  lemma {:induction false} ResolvedShape(s: Store, es: seq<Entry<Cell>>)
    ensures |Resolved(s, es)| == |es|
    ensures forall i :: 0 <= i < |es| ==> Resolved(s, es)[i] == Entry(es[i].key, ValueOf(s, es[i].val))
  {
    if es != [] {
      ResolvedShape(s, es[1..]);
    }
  }

  lemma ResolvedAscending(s: Store, es: seq<Entry<Cell>>)
    requires Ascending(es)
    ensures Ascending(Resolved(s, es))
  {
    ResolvedShape(s, es);
  }

  lemma {:induction false} ResolvedPut(s: Store, es: seq<Entry<Cell>>, k: real, c: Cell)
    requires CellsOk(s, es) && Resolve(s, c).Some?
    ensures Resolved(s, Put(es, k, c)) == Put(Resolved(s, es), k, ValueOf(s, c))
    ensures CellsOk(s, Put(es, k, c))
  {
    var p := Put(es, k, c);
    if es == [] || k < es[0].key {
      assert p[1..] == es;
    } else if k == es[0].key {
      assert p[1..] == es[1..];
    } else {
      assert forall i :: 0 <= i < |es[1..]| ==> es[1..][i] == es[i + 1];
      ResolvedPut(s, es[1..], k, c);
      assert p[1..] == Put(es[1..], k, c);
      forall i | 0 <= i < |p| ensures Resolve(s, p[i].val).Some? {
        if i > 0 {
          assert p[i] == Put(es[1..], k, c)[i - 1];
        }
      }
    }
  }

  lemma {:induction false} ResolvedDel(s: Store, es: seq<Entry<Cell>>, k: real)
    requires CellsOk(s, es)
    ensures Resolved(s, Del(es, k)) == Del(Resolved(s, es), k)
    ensures CellsOk(s, Del(es, k))
  {
    if es != [] {
      assert forall i :: 0 <= i < |es[1..]| ==> es[1..][i] == es[i + 1];
      if k != es[0].key {
        ResolvedDel(s, es[1..], k);
        var q := Del(es[1..], k);
        assert Del(es, k)[1..] == q;
        forall i | 0 <= i < |Del(es, k)| ensures Resolve(s, Del(es, k)[i].val).Some? {
          if i > 0 {
            assert Del(es, k)[i] == q[i - 1];
          }
        }
      }
    }
  }

  // ---- versions: what one committed metadata record describes ----

  /**
   * How well the nodes of a tree are filled.  `Full`: the minimum everywhere below the root, as
   * adds and deletes keep it.  `Edge`: the same off the right edge, as compaction leaves it.
   * `Sparse`: anything.  `Loose`: anything, and a child may have an empty range of keys.
   */
  datatype Fill = Loose | Sparse | Edge | Full

  /** `fill` says what the tree guarantees about its fill, which no record tells. */
  datatype Version = Version(meta: Meta, tree: Tree, height: nat, fill: Fill)

  /** Minimum fill of a tree created with this order. */
  function MinKeysFor(order: nat): int {
    (order + 1) / 2 - 1
  }

  function FillConfig(order: nat, fill: Fill): Config {
    var m: nat := if order >= 3 then MinKeysFor(order) else 0;
    match fill
    case Loose => AnyFill(order)
    case Sparse => Config(order, 0, 0, true)
    case Edge => Config(order, m, 0, true)
    case Full => Config(order, m, m, true)
  }

  ghost function RootMin(fill: Fill, h: nat): nat {
    if h > 0 && fill in {Edge, Full} then 1 else 0
  }

  /** What the operations need to know of a configuration. */
  ghost predicate Workable(c: Config) {
    c.order >= 3 && c.edge <= c.minKeys <= MinKeysFor(c.order)
  }

  /** The least number of entries that makes a tree of this fill too deep to walk. */
  ghost function DeepSize(fill: Fill): nat {
    match fill
    case Full => Pow2(MAX_DEPTH + 1)
    case Edge => Pow2(MAX_DEPTH)
    case _ => 0
  }

  /** The minimum that the code works with; a tree that promises fill has been created with it. */
  ghost predicate MinOk(m: Meta, fill: Fill) {
    m.order >= 3 && 1 <= m.minKeys < m.order && (fill in {Edge, Full} ==> m.minKeys == MinKeysFor(m.order))
  }

  ghost predicate VersionOk(s: Store, v: Version) {
    && MinOk(v.meta, v.fill)
    && Repr(s, v.meta.root, v.tree)
    && Good(v.tree, v.height, Inf, Inf, FillConfig(v.meta.order, v.fill), RootMin(v.fill, v.height))
    && v.meta.size == |Entries(v.tree)|
    && CellsOk(s, Entries(v.tree))
  }

  lemma VersionExtends(s1: Store, s2: Store, v: Version)
    requires Extends(s1, s2) && VersionOk(s1, v)
    ensures VersionOk(s2, v)
    ensures Resolved(s2, Entries(v.tree)) == Resolved(s1, Entries(v.tree))
  {
    ReprExtends(s1, s2, v.meta.root, v.tree);
    ResolvedExtends(s1, s2, Entries(v.tree));
  }

  /** Half of a node that was cut: filled, whatever the tree demands. */
  ghost predicate Half(t: Tree, h: nat, lo: Bound, hi: Bound, c: Config) {
    c.order >= 3 && Good(t, h, lo, hi, c, MinKeysFor(c.order))
  }

  lemma HalfIsGood(t: Tree, h: nat, lo: Bound, hi: Bound, c: Config)
    requires Half(t, h, lo, hi, c) && Workable(c)
    ensures Good(t, h, lo, hi, c, MinFor(c, hi)) && Good(t, h, lo, hi, c, c.minKeys) && NKeys(t) >= 1
  {
  }

  /** What an add below a node of height `h` and bounds [lo, hi) yields. */
  ghost predicate AddResOk(s: Store, below: nat, res: AddRes, cell: Cell, a: Tree, b: Tree, t: Tree, h: nat, lo: Bound,
                           hi: Bound,
                           c: Config, key: real)
  {
    match res
    case Whole(n, updated) =>
      && NodeRepr(s, n, below, a) && Routed(a, h, lo, hi, c) && NKeys(t) <= NKeys(a) < c.order
      && Entries(a) == Put(Entries(t), key, cell)
      && (updated <==> HasKey(Entries(t), key))
    case Halves(l, sep, r) =>
      && NodeRepr(s, l, below, a) && NodeRepr(s, r, below, b)
      && InRange(lo, hi, sep)
      && Half(a, h, lo, At(sep), c) && Half(b, h, At(sep), hi, c)
      && Entries(a) + Entries(b) == Put(Entries(t), key, cell)
      && !HasKey(Entries(t), key)
  }

  /** The child was replaced whole: the node keeps its keys. */
  lemma KidReplaced(s: Store, nd: Node, b1: nat, b2: nat, keys: seq<real>, kids: seq<Tree>, h: nat, lo: Bound,
                    hi: Bound,
                    g: Config, key: real, i: nat, p: nat, a: Tree, cell: Cell, updated: bool, b: Tree)
    requires NodeRepr(s, nd, b1, TNode(keys, kids)) && b1 <= b2
    requires Routed(TNode(keys, kids), h, lo, hi, g) && |keys| < g.order && RoutesTo(keys, key, i)
    requires Repr(s, p, a) && p < b2
    requires Good(a, h - 1, KidLo(keys, lo, i), KidHi(keys, hi, i), g, MinFor(g, KidHi(keys, hi, i)))
    requires Entries(a) == Put(Entries(kids[i]), key, cell)
    requires updated <==> HasKey(Entries(kids[i]), key)
    ensures AddResOk(s, b2, Whole(MakeInternal(nd.id, nd.keys, nd.children[i := p]), updated), cell,
                     TNode(keys, kids[i := a]), b, TNode(keys, kids), h, lo, hi, g, key)
  {
    ReplaceKid(keys, kids, h, lo, hi, g, i, a);
    RouteSplit(keys, kids, h, lo, hi, g, key, i);
    RouteHasKey(keys, kids, h, lo, hi, g, key, i);
    PutMiddle(Flat(kids[..i]), Entries(kids[i]), Flat(kids[i + 1..]), key, cell);
  }

  lemma SplicedRepr(s: Store, nd: Node, b1: nat, b2: nat, keys: seq<real>, kids: seq<Tree>, i: nat, lp: nat, rp: nat,
                    a: Tree, sep: real, b: Tree)
    requires NodeRepr(s, nd, b1, TNode(keys, kids)) && b1 <= b2 && i <= |keys|
    requires Repr(s, lp, a) && Repr(s, rp, b) && lp < b2 && rp < b2
    ensures var ks, ts := keys[..i] + [sep] + keys[i..], kids[..i] + [a, b] + kids[i + 1..];
            NodeRepr(s, MakeInternal(nd.id, ks, nd.children[..i] + [lp, rp] + nd.children[i + 1..]), b2, TNode(ks, ts))
  {
    var ts, cs := kids[..i] + [a, b] + kids[i + 1..], nd.children[..i] + [lp, rp] + nd.children[i + 1..];
    forall j | 0 <= j < |ts| ensures cs[j] < b2 && Repr(s, cs[j], ts[j]) {
      if j < i {
        assert cs[j] == nd.children[j] && ts[j] == kids[j];
      } else if j > i + 1 {
        assert cs[j] == nd.children[j - 1] && ts[j] == kids[j - 1];
      }
    }
  }

  /** The child came back in halves: separator and both pointers are spliced in. */
  lemma KidSpliced(s: Store, nd: Node, b1: nat, b2: nat, keys: seq<real>, kids: seq<Tree>, h: nat, lo: Bound, hi: Bound,
                   g: Config, key: real, i: nat, lp: nat, rp: nat, a: Tree, sep: real, b: Tree, cell: Cell)
    requires Workable(g)
    requires NodeRepr(s, nd, b1, TNode(keys, kids)) && b1 <= b2
    requires Routed(TNode(keys, kids), h, lo, hi, g) && RoutesTo(keys, key, i)
    requires Repr(s, lp, a) && Repr(s, rp, b) && lp < b2 && rp < b2
    requires InRange(KidLo(keys, lo, i), KidHi(keys, hi, i), sep)
    requires Half(a, h - 1, KidLo(keys, lo, i), At(sep), g) && Half(b, h - 1, At(sep), KidHi(keys, hi, i), g)
    requires Entries(a) + Entries(b) == Put(Entries(kids[i]), key, cell)
    requires !HasKey(Entries(kids[i]), key)
    ensures var ks, ts := keys[..i] + [sep] + keys[i..], kids[..i] + [a, b] + kids[i + 1..];
            && NodeRepr(s, MakeInternal(nd.id, ks, nd.children[..i] + [lp, rp] + nd.children[i + 1..]), b2,
               TNode(ks, ts))
            && Routed(TNode(ks, ts), h, lo, hi, g)
            && Flat(ts) == Put(Flat(kids), key, cell)
    ensures !HasKey(Flat(kids), key)
  {
    SplicedRepr(s, nd, b1, b2, keys, kids, i, lp, rp, a, sep, b);
    HalfIsGood(a, h - 1, KidLo(keys, lo, i), At(sep), g);
    HalfIsGood(b, h - 1, At(sep), KidHi(keys, hi, i), g);
    SpliceKids(keys, kids, h, lo, hi, g, i, a, sep, b);
    FlatPair(kids[..i], a, b, kids[i + 1..]);
    RouteSplit(keys, kids, h, lo, hi, g, key, i);
    RouteHasKey(keys, kids, h, lo, hi, g, key, i);
    PutMiddle(Flat(kids[..i]), Entries(kids[i]), Flat(kids[i + 1..]), key, cell);
  }

  /** The same for a node that was stored before the two halves were appended. */
  lemma KidSplicedLater(s0: Store, s: Store, nd: Node, b1: nat, b2: nat, t: Tree, h: nat, lo: Bound, hi: Bound,
                        g: Config, key: real, i: nat, lp: nat, rp: nat, a: Tree, sep: real, b: Tree, cell: Cell)
    requires Workable(g) && Extends(s0, s) && t.TNode? && NodeRepr(s0, nd, b1, t) && b1 <= b2
    requires Routed(t, h, lo, hi, g) && RoutesTo(t.keys, key, i)
    requires Repr(s, lp, a) && Repr(s, rp, b) && lp < b2 && rp < b2
    requires InRange(KidLo(t.keys, lo, i), KidHi(t.keys, hi, i), sep)
    requires Half(a, h - 1, KidLo(t.keys, lo, i), At(sep), g) && Half(b, h - 1, At(sep), KidHi(t.keys, hi, i), g)
    requires Entries(a) + Entries(b) == Put(Entries(t.kids[i]), key, cell) && !HasKey(Entries(t.kids[i]), key)
    ensures var ks, ts := t.keys[..i] + [sep] + t.keys[i..], t.kids[..i] + [a, b] + t.kids[i + 1..];
            && NodeRepr(s, MakeInternal(nd.id, ks, nd.children[..i] + [lp, rp] + nd.children[i + 1..]), b2,
               TNode(ks, ts))
            && Routed(TNode(ks, ts), h, lo, hi, g) && Entries(TNode(ks, ts)) == Put(Entries(t), key, cell)
    ensures !HasKey(Entries(t), key)
  {
    NodeReprExtends(s0, s, nd, b1, t);
    KidSpliced(s, nd, b1, b2, t.keys, t.kids, h, lo, hi, g, key, i, lp, rp, a, sep, b, cell);
  }

  lemma LeafPosition(s: Store, nd: Node, below: nat, t: Tree, i: nat, key: real)
    requires t.TLeaf? && NodeRepr(s, nd, below, t) && Ascending(t.es) && i <= |nd.keys|
    requires forall j :: 0 <= j < i ==> nd.keys[j] < key
    requires forall j :: i <= j < |nd.keys| ==> key <= nd.keys[j]
    ensures AllBelow(t.es[..i], key) && AllFrom(t.es[i..], key)
    ensures i < |t.es| ==> t.es[i].key == nd.keys[i]
  {
    assert forall j :: 0 <= j < |t.es| ==> t.es[j].key == nd.keys[j];
  }

  lemma PutEntriesOk(es: seq<Entry<Cell>>, key: real, c: Cell, lo: Bound, hi: Bound)
    requires EntriesOk(es, lo, hi) && InRange(lo, hi, key)
    ensures EntriesOk(Put(es, key, c), lo, hi)
  {
    var p := Put(es, key, c);
    PutAscending(es, key, c);
    PutKeys(es, key, c);
    forall i | 0 <= i < |p| ensures InRange(lo, hi, p[i].key) {
      if p[i].key != key {
        var j :| 0 <= j < |es| && es[j].key == p[i].key;
      }
    }
  }

  /** A value replaced in a leaf. */
  lemma LeafReplaced(s: Store, nd: Node, b1: nat, b2: nat, es: seq<Entry<Cell>>, i: nat, c: Cell)
    requires NodeRepr(s, nd, b1, TLeaf(es)) && b1 <= b2 && i < |nd.keys| && (c.Marker? ==> c.off < b2)
    ensures NodeRepr(s, MakeLeaf(nd.id, nd.keys, nd.vals[i := c]), b2, TLeaf(es[i := Entry(nd.keys[i], c)]))
  {
  }

  /** The key is in the leaf: its value is replaced. */
  lemma LeafUpdate(s: Store, nd: Node, b1: nat, b2: nat, t: Tree, i: nat, key: real, c: Cell, lo: Bound, hi: Bound,
                   b: Tree, g: Config)
    requires t.TLeaf? && NodeRepr(s, nd, b1, t) && EntriesOk(t.es, lo, hi) && InRange(lo, hi, key) && b1 <= b2
    requires i < |nd.keys| && nd.keys[i] == key && (c.Marker? ==> c.off < b2)
    requires forall j :: 0 <= j < i ==> nd.keys[j] < key
    requires forall j :: i <= j < |nd.keys| ==> key <= nd.keys[j]
    requires |t.es| < g.order
    ensures AddResOk(s, b2, Whole(MakeLeaf(nd.id, nd.keys, nd.vals[i := c]), true), c, TLeaf(Put(t.es, key, c)), b, t,
            0, lo, hi, g, key)
  {
    LeafPosition(s, nd, b1, t, i, key);
    PutAt(t.es, i, key, c);
    LeafReplaced(s, nd, b1, b2, t.es, i, c);
    PutEntriesOk(t.es, key, c, lo, hi);
  }

  /** An entry spliced into a leaf. */
  lemma LeafWith(s: Store, nd: Node, b1: nat, b2: nat, es: seq<Entry<Cell>>, i: nat, key: real, c: Cell)
    requires NodeRepr(s, nd, b1, TLeaf(es)) && b1 <= b2 && i <= |nd.keys| && (c.Marker? ==> c.off < b2)
    ensures NodeRepr(s, MakeLeaf(nd.id, nd.keys[..i] + [key] + nd.keys[i..], nd.vals[..i] + [c] + nd.vals[i..]), b2,
                     TLeaf(es[..i] + [Entry(key, c)] + es[i..]))
  {
    var ks, vs, ts := nd.keys[..i] + [key] + nd.keys[i..], nd.vals[..i] + [c] + nd.vals[i..],
        es[..i] + [Entry(key, c)] + es[i..];
    forall j | 0 <= j < |ts| ensures ts[j] == Entry(ks[j], vs[j]) && (ts[j].val.Marker? ==> ts[j].val.off < b2) {
      if j < i {
        assert ts[j] == es[j];
      } else if j > i {
        assert ts[j] == es[j - 1];
      }
    }
  }

  /** An entry cut out of a leaf. */
  lemma LeafWithout(s: Store, nd: Node, b1: nat, b2: nat, es: seq<Entry<Cell>>, i: nat)
    requires NodeRepr(s, nd, b1, TLeaf(es)) && b1 <= b2 && i < |nd.keys|
    ensures NodeRepr(s, MakeLeaf(nd.id, nd.keys[..i] + nd.keys[i + 1..], nd.vals[..i] + nd.vals[i + 1..]), b2,
                     TLeaf(es[..i] + es[i + 1..]))
  {
    var ks, vs, ts := nd.keys[..i] + nd.keys[i + 1..], nd.vals[..i] + nd.vals[i + 1..], es[..i] + es[i + 1..];
    forall j | 0 <= j < |ts| ensures ts[j] == Entry(ks[j], vs[j]) && (ts[j].val.Marker? ==> ts[j].val.off < b2) {
      if j < i {
        assert ts[j] == es[j];
      } else {
        assert ts[j] == es[j + 1];
      }
    }
  }

  /** The key is not in the leaf: it goes in at position `i`. */
  lemma LeafInsert(s: Store, nd: Node, b1: nat, b2: nat, t: Tree, i: nat, key: real, c: Cell, lo: Bound, hi: Bound)
    requires t.TLeaf? && NodeRepr(s, nd, b1, t) && EntriesOk(t.es, lo, hi) && InRange(lo, hi, key) && b1 <= b2
    requires i <= |nd.keys| && !(i < |nd.keys| && nd.keys[i] == key) && (c.Marker? ==> c.off < b2)
    requires forall j :: 0 <= j < i ==> nd.keys[j] < key
    requires forall j :: i <= j < |nd.keys| ==> key <= nd.keys[j]
    ensures var wk, wv := nd.keys[..i] + [key] + nd.keys[i..], nd.vals[..i] + [c] + nd.vals[i..];
            NodeRepr(s, MakeLeaf(nd.id, wk, wv), b2, TLeaf(Put(t.es, key, c)))
    ensures EntriesOk(Put(t.es, key, c), lo, hi) && |Put(t.es, key, c)| == |t.es| + 1 && !HasKey(t.es, key)
  {
    LeafPosition(s, nd, b1, t, i, key);
    PutAt(t.es, i, key, c);
    LeafWith(s, nd, b1, b2, t.es, i, key, c);
    PutEntriesOk(t.es, key, c, lo, hi);
  }

  // ---- cutting a node in two ----

  function MidLeaf(n: nat): nat { (n + 1) / 2 }

  function MidInternal(n: nat): int { (n + 1) / 2 - 1 }

  /** Left half, separator and right half of a node. */
  ghost function Cut(nd: Node, rightId: nat): (Node, real, Node)
    requires NodeShapeOk(nd) && |nd.keys| >= 3
  {
    if nd.isLeaf then
      var mid := MidLeaf(|nd.keys|);
      (MakeLeaf(nd.id, nd.keys[..mid], nd.vals[..mid]), nd.keys[mid], MakeLeaf(rightId, nd.keys[mid..], nd.vals[mid..]))
    else
      var mid := MidInternal(|nd.keys|);
      (MakeInternal(nd.id, nd.keys[..mid], nd.children[..mid + 1]), nd.keys[mid],
       MakeInternal(rightId, nd.keys[mid + 1..], nd.children[mid + 1..]))
  }

  /**
   * Both halves of a node with order to 2 * order - 2 keys are within the fill limits, sit on
   * either side of the separator, and together hold exactly the node's entries.
   */
  lemma CutTrees(s: Store, nd: Node, rightId: nat, below: nat, t: Tree, h: nat, lo: Bound, hi: Bound, c: Config)
    returns (a: Tree, b: Tree)
    requires c.order >= 3 && c.order <= NKeys(t) <= 2 * c.order - 2
    requires NodeRepr(s, nd, below, t) && Routed(t, h, lo, hi, c)
    ensures NodeShapeOk(nd) && |nd.keys| >= 3
    ensures var (left, sep, right) := Cut(nd, rightId);
            && NodeRepr(s, left, below, a) && NodeRepr(s, right, below, b) && InRange(lo, hi, sep)
            && Half(a, h, lo, At(sep), c) && Half(b, h, At(sep), hi, c)
    ensures Entries(a) + Entries(b) == Entries(t)
  {
    if t.TLeaf? {
      a, b := CutOfLeaf(s, nd, rightId, below, t.es, lo, hi, c);
    } else {
      a, b := CutOfNode(s, nd, rightId, below, t, h, lo, hi, c);
    }
  }

  lemma CutOfLeaf(s: Store, nd: Node, rightId: nat, below: nat, es: seq<Entry<Cell>>, lo: Bound, hi: Bound, c: Config)
    returns (a: Tree, b: Tree)
    requires c.order >= 3 && c.order <= |es| <= 2 * c.order - 2
    requires NodeRepr(s, nd, below, TLeaf(es)) && EntriesOk(es, lo, hi)
    ensures nd.isLeaf && NodeShapeOk(nd) && |nd.keys| >= 3
    ensures var (left, sep, right) := Cut(nd, rightId);
            && NodeRepr(s, left, below, a) && NodeRepr(s, right, below, b) && InRange(lo, hi, sep)
            && Half(a, 0, lo, At(sep), c) && Half(b, 0, At(sep), hi, c)
    ensures Entries(a) + Entries(b) == es
  {
    var mid := MidLeaf(|nd.keys|);
    assert es[mid].key == nd.keys[mid];
    a, b := TLeaf(es[..mid]), TLeaf(es[mid..]);
    CutLeaf(es, lo, hi, mid);
    assert es == a.es + b.es;
  }

  lemma CutOfNode(s: Store, nd: Node, rightId: nat, below: nat, t: Tree, h: nat, lo: Bound, hi: Bound, c: Config)
    returns (a: Tree, b: Tree)
    requires t.TNode? && c.order >= 3 && c.order <= |t.keys| <= 2 * c.order - 2
    requires NodeRepr(s, nd, below, t) && Routed(t, h, lo, hi, c)
    ensures !nd.isLeaf && NodeShapeOk(nd) && |nd.keys| >= 3
    ensures var (left, sep, right) := Cut(nd, rightId);
            && NodeRepr(s, left, below, a) && NodeRepr(s, right, below, b) && InRange(lo, hi, sep)
            && Half(a, h, lo, At(sep), c) && Half(b, h, At(sep), hi, c)
    ensures Entries(a) + Entries(b) == Flat(t.kids)
  {
    var mid := MidInternal(|nd.keys|);
    a, b := TNode(t.keys[..mid], t.kids[..mid + 1]), TNode(t.keys[mid + 1..], t.kids[mid + 1..]);
    CutNode(t.keys, t.kids, h, lo, hi, c, mid);
  }

  // ---- delete ----

  /** What a delete below a node of height `h` yields: the entries without the key, maybe one node key fewer. */
  ghost predicate DelOk(s: Store, below: nat, n: Node, a: Tree, t: Tree, h: nat, lo: Bound, hi: Bound, c: Config,
                        key: real) {
    && NodeRepr(s, n, below, a) && Routed(a, h, lo, hi, c) && NKeys(t) <= NKeys(a) + 1 && NKeys(a) < c.order
    && Entries(a) == Del(Entries(t), key)
  }

  lemma DelEntriesOk(es: seq<Entry<Cell>>, key: real, lo: Bound, hi: Bound)
    requires EntriesOk(es, lo, hi)
    ensures EntriesOk(Del(es, key), lo, hi)
  {
    var p := Del(es, key);
    DelAscending(es, key);
    DelKeys(es, key);
    forall i | 0 <= i < |p| ensures InRange(lo, hi, p[i].key) {
      var j :| 0 <= j < |es| && es[j].key == p[i].key;
    }
  }

  lemma LeafDelete(s: Store, nd: Node, b1: nat, b2: nat, t: Tree, i: nat, key: real, lo: Bound, hi: Bound, c: Config)
    requires t.TLeaf? && NodeRepr(s, nd, b1, t) && EntriesOk(t.es, lo, hi) && b1 <= b2 && |t.es| < c.order
    requires i < |nd.keys| && nd.keys[i] == key
    ensures HasKey(t.es, key)
    ensures DelOk(s, b2, MakeLeaf(nd.id, nd.keys[..i] + nd.keys[i + 1..], nd.vals[..i] + nd.vals[i + 1..]),
                  TLeaf(Del(t.es, key)), t, 0, lo, hi, c, key)
  {
    assert t.es[i].key == key;
    DelAt(t.es, i, key);
    LeafWithout(s, nd, b1, b2, t.es, i);
    DelEntriesOk(t.es, key, lo, hi);
  }

  lemma LeafAbsent(s: Store, nd: Node, b1: nat, t: Tree, i: nat, key: real)
    requires t.TLeaf? && NodeRepr(s, nd, b1, t) && Ascending(t.es) && i <= |nd.keys|
    requires forall j :: 0 <= j < i ==> nd.keys[j] < key
    requires forall j :: i <= j < |nd.keys| ==> key <= nd.keys[j]
    requires i < |nd.keys| ==> nd.keys[i] != key
    ensures !HasKey(t.es, key)
  {
    assert forall j :: 0 <= j < |t.es| ==> t.es[j].key == nd.keys[j];
    assert i < |nd.keys| ==> key < nd.keys[i];
  }

  /** The child kept enough keys: only its pointer changes. */
  lemma KidShrunk(s: Store, nd: Node, b1: nat, b2: nat, keys: seq<real>, kids: seq<Tree>, h: nat, lo: Bound, hi: Bound,
                  g: Config, key: real, i: nat, p: nat, a: Tree)
    requires NodeRepr(s, nd, b1, TNode(keys, kids)) && b1 <= b2
    requires Routed(TNode(keys, kids), h, lo, hi, g) && |keys| < g.order && RoutesTo(keys, key, i)
    requires Repr(s, p, a) && p < b2
    requires Good(a, h - 1, KidLo(keys, lo, i), KidHi(keys, hi, i), g, MinFor(g, KidHi(keys, hi, i)))
    requires Entries(a) == Del(Entries(kids[i]), key)
    ensures DelOk(s, b2, MakeInternal(nd.id, nd.keys, nd.children[i := p]), TNode(keys, kids[i := a]),
                  TNode(keys, kids), h, lo, hi, g, key)
  {
    ReplaceKid(keys, kids, h, lo, hi, g, i, a);
    RouteSplit(keys, kids, h, lo, hi, g, key, i);
    DelMiddle(Flat(kids[..i]), Entries(kids[i]), Flat(kids[i + 1..]), key);
  }

  // ---- merging and redistributing a pair of neighbours ----

  /** The concatenation of two neighbours; internal ones pull the separator down between them. */
  ghost function Joined(l: Node, sep: real, r: Node): Node {
    if l.isLeaf then MakeLeaf(l.id, l.keys + r.keys, l.vals + r.vals)
    else MakeInternal(l.id, l.keys + [sep] + r.keys, l.children + r.children)
  }

  ghost function JoinedTree(a: Tree, sep: real, b: Tree): Tree {
    match (a, b)
    case (TLeaf(e1), TLeaf(e2)) => TLeaf(e1 + e2)
    case (TNode(k1, t1), TNode(k2, t2)) => TNode(k1 + [sep] + k2, t1 + t2)
    case _ => a
  }

  lemma JoinTrees(s: Store, l: Node, r: Node, below: nat, a: Tree, sep: real, b: Tree, h: nat, lo: Bound, hi: Bound,
                  c: Config)
    requires c.gap && InRange(lo, hi, sep) && Gap(lo, [sep])
    requires NodeRepr(s, l, below, a) && NodeRepr(s, r, below, b)
    requires Routed(a, h, lo, At(sep), c) && Routed(b, h, At(sep), hi, c)
    ensures NodeRepr(s, Joined(l, sep, r), below, JoinedTree(a, sep, b))
    ensures Routed(JoinedTree(a, sep, b), h, lo, hi, c)
    ensures Entries(JoinedTree(a, sep, b)) == Entries(a) + Entries(b)
    ensures NKeys(JoinedTree(a, sep, b)) == NKeys(a) + NKeys(b) + (if h == 0 then 0 else 1)
  {
    if a.TLeaf? {
      JoinEntries(a.es, b.es, lo, sep, hi);
    } else {
      JoinNodes(a.keys, a.kids, sep, b.keys, b.kids, h, lo, hi, c);
    }
  }

  /**
   * Why a delete needs the gap: nodes that may stand side by side under the separator 5, the right one
   * with an empty range for its first child, join into a node with the separator 5 twice.
   */
  lemma EmptyRangeBreaks()
    ensures var a, b := TNode([], [TLeaf([])]), TNode([5.0], [TLeaf([]), TLeaf([])]);
            && Routed(a, 1, Inf, At(5.0), AnyFill(3)) && Routed(b, 1, At(5.0), Inf, AnyFill(3))
            && Routed(TNode([5.0], [a, b]), 2, Inf, Inf, AnyFill(3))
            && !Routed(JoinedTree(a, 5.0, b), 1, Inf, Inf, AnyFill(3))
  {
    var a, b := TNode([], [TLeaf([])]), TNode([5.0], [TLeaf([]), TLeaf([])]);
    var j := JoinedTree(a, 5.0, b);
    assert j.keys[0] == 5.0 == j.keys[1];
  }

  /** In a tree with gaps every child has a range of keys that is not empty. */
  ghost predicate Gapped(t: Tree, lo: Bound)
    decreases t
  {
    t.TNode? && |t.kids| == |t.keys| + 1 ==>
      Gap(lo, t.keys) && forall i :: 0 <= i < |t.kids| ==> Gapped(t.kids[i], KidLo(t.keys, lo, i))
  }

  /** A readable tree with gaps is a sparse one. */
  lemma {:induction false} GappedIsSparse(t: Tree, h: nat, lo: Bound, hi: Bound, order: nat)
    requires Good(t, h, lo, hi, AnyFill(order), 0)
    ensures Gapped(t, lo) <==> Good(t, h, lo, hi, FillConfig(order, Sparse), 0)
    decreases t
  {
    if t.TNode? {
      forall i | 0 <= i < |t.kids|
        ensures Gapped(t.kids[i], KidLo(t.keys, lo, i)) <==>
                Good(t.kids[i], h - 1, KidLo(t.keys, lo, i), KidHi(t.keys, hi, i), FillConfig(order, Sparse), 0)
      {
        assert Good(t.kids[i], h - 1, KidLo(t.keys, lo, i), KidHi(t.keys, hi, i), AnyFill(order), 0);
        GappedIsSparse(t.kids[i], h - 1, KidLo(t.keys, lo, i), KidHi(t.keys, hi, i), order);
      }
    }
  }

  /** `i`'s pair with its neighbour holds what the parent holds around `i`, once `i` became `ct`. */
  lemma PairAround(kids: seq<Tree>, i: nat, li: nat, ct: Tree)
    requires li + 1 < |kids| && (i == li || i == li + 1)
    ensures var (a, b) := if i == li then (ct, kids[i + 1]) else (kids[i - 1], ct);
            Flat(kids[..li]) + (Entries(a) + Entries(b)) + Flat(kids[li + 2..])
            == Flat(kids[..i]) + Entries(ct) + Flat(kids[i + 1..])
  {
    if i == li {
      assert kids[i + 1..][1..] == kids[i + 2..];
      assert Flat(kids[i + 1..]) == Entries(kids[i + 1]) + Flat(kids[i + 2..]);
    } else {
      assert kids[..i] == kids[..li] + [kids[li]];
      FlatConcat(kids[..li], [kids[li]]);
      FlatOne(kids[li]);
    }
  }

  /** Merge: the parent loses separator `li` and one child. */
  lemma MergedParent(s: Store, par: Node, b1: nat, b2: nat, keys: seq<real>, kids: seq<Tree>, h: nat, lo: Bound,
                     hi: Bound,
                     c: Config, li: nat, p: nat, t: Tree)
    requires NodeRepr(s, par, b1, TNode(keys, kids)) && b1 <= b2 && li < |keys|
    requires Routed(TNode(keys, kids), h, lo, hi, c)
    requires Repr(s, p, t) && p < b2
    requires Good(t, h - 1, KidLo(keys, lo, li), KidHi(keys, hi, li + 1), c, MinFor(c, KidHi(keys, hi, li + 1)))
    ensures var ks, ts := keys[..li] + keys[li + 1..], kids[..li] + [t] + kids[li + 2..];
            && NodeRepr(s, MakeInternal(par.id, ks, par.children[..li] + [p] + par.children[li + 2..]), b2,
               TNode(ks, ts))
            && Routed(TNode(ks, ts), h, lo, hi, c)
            && Flat(ts) == Flat(kids[..li]) + Entries(t) + Flat(kids[li + 2..])
  {
    MergePair(keys, kids, h, lo, hi, c, li, t);
    var ts, cs := kids[..li] + [t] + kids[li + 2..], par.children[..li] + [p] + par.children[li + 2..];
    forall j | 0 <= j < |ts| ensures cs[j] < b2 && Repr(s, cs[j], ts[j]) {
      if j < li {
        assert cs[j] == par.children[j] && ts[j] == kids[j];
      } else if j > li {
        assert cs[j] == par.children[j + 1] && ts[j] == kids[j + 1];
      }
    }
  }

  /** Redistribution: the parent gets a new separator `li` and points at the two new halves. */
  lemma RedistributedParent(s: Store, par: Node, b1: nat, b2: nat, keys: seq<real>, kids: seq<Tree>, h: nat, lo: Bound,
                            hi: Bound,
                            c: Config, li: nat, lp: nat, rp: nat, a: Tree, sep: real, b: Tree)
    requires NodeRepr(s, par, b1, TNode(keys, kids)) && b1 <= b2 && li < |keys| && Workable(c)
    requires Routed(TNode(keys, kids), h, lo, hi, c)
    requires Repr(s, lp, a) && Repr(s, rp, b) && lp < b2 && rp < b2
    requires InRange(KidLo(keys, lo, li), KidHi(keys, hi, li + 1), sep)
    requires Half(a, h - 1, KidLo(keys, lo, li), At(sep), c) && Half(b, h - 1, At(sep), KidHi(keys, hi, li + 1), c)
    ensures var ks, ts := keys[li := sep], kids[..li] + [a, b] + kids[li + 2..];
            && NodeRepr(s, MakeInternal(par.id, ks, par.children[li := lp][li + 1 := rp]), b2, TNode(ks, ts))
            && Routed(TNode(ks, ts), h, lo, hi, c)
            && Flat(ts) == Flat(kids[..li]) + (Entries(a) + Entries(b)) + Flat(kids[li + 2..])
  {
    HalfIsGood(a, h - 1, KidLo(keys, lo, li), At(sep), c);
    HalfIsGood(b, h - 1, At(sep), KidHi(keys, hi, li + 1), c);
    ReplacePair(keys, kids, h, lo, hi, c, li, a, sep, b);
    var ts, cs := kids[..li] + [a, b] + kids[li + 2..], par.children[li := lp][li + 1 := rp];
    forall j | 0 <= j < |ts| ensures cs[j] < b2 && Repr(s, cs[j], ts[j]) {
      if j < li || j > li + 1 {
        assert cs[j] == par.children[j] && ts[j] == kids[j];
      }
    }
  }

  // ---- whole-tree facts ----

  /** The old root's halves under a new root. */
  lemma NewRoot(s: Store, below: nat, id: nat, a: Tree, sep: real, b: Tree, lp: nat, rp: nat, h: nat, c: Config)
    requires Repr(s, lp, a) && Repr(s, rp, b) && lp < below && rp < below
    requires Half(a, h, Inf, At(sep), c) && Half(b, h, At(sep), Inf, c) && Workable(c)
    ensures NodeRepr(s, MakeInternal(id, [sep], [lp, rp]), below, TNode([sep], [a, b]))
    ensures Good(TNode([sep], [a, b]), h + 1, Inf, Inf, c, 1)
    ensures Entries(TNode([sep], [a, b])) == Entries(a) + Entries(b)
  {
    HalfIsGood(a, h, Inf, At(sep), c);
    HalfIsGood(b, h, At(sep), Inf, c);
    FlatPair([], a, b, []);
    assert [] + [a, b] + [] == [a, b];
  }

  /** The version after an add, once its root node is saved at `p`. */
  lemma VersionAfterPut(s0: Store, s1: Store, s2: Store, v: Version, p: nat, t2: Tree, h2: nat, key: real, cell: Cell,
                        nextId: nat)
    requires Extends(s0, s1) && Extends(s1, s2) && VersionOk(s0, v) && Resolve(s1, cell).Some?
    requires Repr(s2, p, t2) && Good(t2, h2, Inf, Inf, FillConfig(v.meta.order, v.fill), RootMin(v.fill, h2))
    requires Entries(t2) == Put(Entries(v.tree), key, cell)
    ensures Resolve(s2, cell) == Resolve(s1, cell)
    ensures var size := if HasKey(Entries(v.tree), key) then v.meta.size else v.meta.size + 1;
            VersionOk(s2, Version(Meta(v.meta.order, v.meta.minKeys, size, p, nextId), t2, h2, v.fill))
  {
    var es := Entries(v.tree);
    ResolvedExtends(s0, s2, es);
    ResolvedPut(s2, es, key, cell);
    RoutedEntries(v.tree, v.height, Inf, Inf, FillConfig(v.meta.order, v.fill));
    PutAscending(es, key, cell);
  }

  /** What `Put` on the entries means for the map of values. */
  lemma ContentsAfterPut(s0: Store, s: Store, t: Tree, h: nat, c: Config, key: real, cell: Cell)
    requires Extends(s0, s) && Routed(t, h, Inf, Inf, c) && CellsOk(s0, Entries(t)) && Resolve(s, cell).Some?
    ensures MapOf(Resolved(s, Put(Entries(t), key, cell))) == MapOf(Resolved(s0, Entries(t)))[key := ValueOf(s, cell)]
    ensures key in MapOf(Resolved(s0, Entries(t))) <==> HasKey(Entries(t), key)
    ensures |Put(Entries(t), key, cell)| == |Entries(t)| + (if HasKey(Entries(t), key) then 0 else 1)
  {
    var es := Entries(t);
    RoutedEntries(t, h, Inf, Inf, c);
    ResolvedExtends(s0, s, es);
    ResolvedPut(s, es, key, cell);
    ResolvedAscending(s, es);
    MapOfPut(Resolved(s, es), key, ValueOf(s, cell));
    ResolvedHasKey(s0, es, key);
    MapOfKeys(Resolved(s0, es));
    PutAscending(es, key, cell);
  }

  lemma ResolvedHasKey(s: Store, es: seq<Entry<Cell>>, k: real)
    ensures HasKey(Resolved(s, es), k) <==> HasKey(es, k)
  {
    ResolvedShape(s, es);
    if HasKey(es, k) {
      var i :| 0 <= i < |es| && es[i].key == k;
      assert Resolved(s, es)[i].key == k;
    }
  }

  /** A tree too deep to walk holds many entries: 2^129 of them, or 2^128 when its right edge may be sparse. */
  lemma DeepIsLarge(s: Store, v: Version)
    requires VersionOk(s, v) && v.height > MAX_DEPTH
    ensures v.meta.size >= DeepSize(v.fill)
  {
    var c := FillConfig(v.meta.order, v.fill);
    match v.fill
    case Full =>
      HeightBound(v.tree, v.height, Inf, Inf, c);
      Pow2Monotone(MAX_DEPTH + 1, v.height);
    case Edge =>
      EdgeHeightBound(v.tree, v.height, c);
      Pow2Monotone(MAX_DEPTH, v.height - 1);
    case _ =>
  }

  /** The version after a delete, once its root node is saved at `p`. */
  lemma VersionAfterDel(s0: Store, s2: Store, v: Version, p: nat, t2: Tree, h2: nat, key: real, nextId: nat)
    requires Extends(s0, s2) && VersionOk(s0, v) && HasKey(Entries(v.tree), key)
    requires Repr(s2, p, t2) && Good(t2, h2, Inf, Inf, FillConfig(v.meta.order, v.fill), RootMin(v.fill, h2))
    requires Entries(t2) == Del(Entries(v.tree), key)
    ensures v.meta.size > 0
    ensures VersionOk(s2, Version(Meta(v.meta.order, v.meta.minKeys, v.meta.size - 1, p, nextId), t2, h2, v.fill))
  {
    var es := Entries(v.tree);
    ResolvedExtends(s0, s2, es);
    ResolvedDel(s2, es, key);
    RoutedEntries(v.tree, v.height, Inf, Inf, FillConfig(v.meta.order, v.fill));
    DelAscending(es, key);
  }

  /** What `Del` on the entries means for the map of values. */
  lemma ContentsAfterDel(s0: Store, s: Store, t: Tree, h: nat, c: Config, key: real)
    requires Extends(s0, s) && Routed(t, h, Inf, Inf, c) && CellsOk(s0, Entries(t))
    ensures MapOf(Resolved(s, Del(Entries(t), key))) == MapOf(Resolved(s0, Entries(t))) - {key}
    ensures key in MapOf(Resolved(s0, Entries(t))) <==> HasKey(Entries(t), key)
  {
    var es := Entries(t);
    RoutedEntries(t, h, Inf, Inf, c);
    ResolvedExtends(s0, s, es);
    ResolvedDel(s, es, key);
    ResolvedAscending(s, es);
    MapOfDel(Resolved(s, es), key);
    ResolvedHasKey(s0, es, key);
    MapOfKeys(Resolved(s0, es));
  }

  // ---- commit boundaries ----

  /** The range checks on a metadata record read at offset `before`. */
  predicate MetaValid(m: Meta, before: nat) {
    m.order >= 3 && 1 <= m.minKeys < m.order && m.root < before
  }

  /** Length `l` is the end of the commit that wrote version `v`. */
  ghost predicate CommitAt(s: Store, l: nat, v: Version) {
    && META_SIZE <= l && l - META_SIZE in s && s[l - META_SIZE] == MetaRec(v.meta)
    && VersionOk(s, v) && v.meta.root < l - META_SIZE
  }

  /** `s1` holds every record of `s2` at or below `at`. */
  ghost predicate KeepsUpTo(s1: Store, s2: Store, at: nat) {
    forall o :: o in s2 && o <= at ==> o in s1 && s1[o] == s2[o]
  }

  lemma {:induction false} ReprCut(s1: Store, s2: Store, at: nat, p: nat, t: Tree)
    requires KeepsUpTo(s1, s2, at) && p <= at && Repr(s2, p, t)
    ensures Repr(s1, p, t)
    decreases t
  {
    if t.TNode? {
      forall i | 0 <= i < |t.kids| ensures Repr(s1, s1[p].node.children[i], t.kids[i]) {
        ReprCut(s1, s2, at, s2[p].node.children[i], t.kids[i]);
      }
    }
  }

  /** Values stored out of line lie before the node that points at them. */
  lemma {:induction false} MarkersBelow(s: Store, p: nat, t: Tree)
    requires Repr(s, p, t)
    ensures forall i :: 0 <= i < |Entries(t)| && Entries(t)[i].val.Marker? ==> Entries(t)[i].val.off < p
    decreases t, 1
  {
    if t.TNode? {
      MarkersBelowKids(s, s[p].node, p, t, |t.kids|);
      assert t.kids[..|t.kids|] == t.kids;
    }
  }

  lemma {:induction false} MarkersBelowKids(s: Store, n: Node, p: nat, t: Tree, k: nat)
    requires t.TNode? && NodeRepr(s, n, p, t) && k <= |t.kids|
    ensures forall i :: 0 <= i < |Flat(t.kids[..k])| && Flat(t.kids[..k])[i].val.Marker? ==>
            Flat(t.kids[..k])[i].val.off < p
    decreases t, 0, k
  {
    if k > 0 {
      MarkersBelowKids(s, n, p, t, k - 1);
      assert t.kids[..k] == t.kids[..k - 1] + [t.kids[k - 1]];
      FlatConcat(t.kids[..k - 1], [t.kids[k - 1]]);
      FlatOne(t.kids[k - 1]);
      MarkersBelow(s, n.children[k - 1], t.kids[k - 1]);
      assert n.children[k - 1] < p;
    }
  }

  /** A version survives a cut anywhere above its root. */
  lemma VersionCut(s2: Store, s1: Store, at: nat, v: Version)
    requires KeepsUpTo(s1, s2, at) && Extends(s1, s2) && VersionOk(s2, v) && v.meta.root <= at
    ensures VersionOk(s1, v)
    ensures Resolved(s1, Entries(v.tree)) == Resolved(s2, Entries(v.tree))
  {
    ReprCut(s1, s2, at, v.meta.root, v.tree);
    MarkersBelow(s2, v.meta.root, v.tree);
    var es := Entries(v.tree);
    forall i | 0 <= i < |es| ensures Resolve(s1, es[i].val).Some? {
      assert Resolve(s2, es[i].val).Some?;
    }
    ResolvedExtends(s1, s2, es);
  }
}
