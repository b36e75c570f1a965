// The tree a root pointer stands for, its invariant, and the facts about cutting, joining and
// rerouting nodes that every B+ tree operation rests on.
module TreeModel {
  import opened SortedEntries
  import opened RecordFile

  datatype Tree = TLeaf(es: seq<Entry<Cell>>) | TNode(keys: seq<real>, kids: seq<Tree>)

  datatype Bound = Inf | At(r: real)

  /**
   * What a tree guarantees: fewer than `order` keys in every node; at least `minKeys` in every node
   * but the root and those on the right edge, `edge` there; and, when `gap`, that the range of keys
   * routed to a child is never empty.
   */
  datatype Config = Config(order: nat, minKeys: nat, edge: nat, gap: bool)

  /** No demands beyond what reading needs. */
  function AnyFill(order: nat): Config {
    Config(order, 0, 0, false)
  }

  /** The fill of a node with upper bound `hi`; the right edge is where there is none. */
  function MinFor(c: Config, hi: Bound): nat {
    if hi.Inf? then c.edge else c.minKeys
  }

  ghost function NKeys(t: Tree): nat {
    match t
    case TLeaf(es) => |es|
    case TNode(keys, _) => |keys|
  }

  ghost function Entries(t: Tree): seq<Entry<Cell>>
    decreases t, 0
  {
    match t
    case TLeaf(es) => es
    case TNode(_, kids) => Flat(kids)
  }

  ghost function Flat(ts: seq<Tree>): seq<Entry<Cell>>
    decreases ts, 1
  {
    if ts == [] then [] else Entries(ts[0]) + Flat(ts[1..])
  }

  // ---- what the records at a pointer say ----

  /** Node `n`, saved or not, stands for `t`: its pointers all lie below offset `below`. */
  ghost predicate NodeRepr(s: Store, n: Node, below: nat, t: Tree)
    decreases t, 0
  {
    match t
    case TLeaf(es) =>
      && n.isLeaf && |n.keys| == |es| && |n.vals| == |es|
      && (forall i :: 0 <= i < |es| ==> es[i] == Entry(n.keys[i], n.vals[i]))
      && (forall i :: 0 <= i < |es| ==> es[i].val.Marker? ==> es[i].val.off < below)
    case TNode(keys, kids) =>
      && !n.isLeaf && n.keys == keys && |n.children| == |kids| && |kids| == |keys| + 1
      && (forall i :: 0 <= i < |kids| ==> n.children[i] < below && Repr(s, n.children[i], kids[i]))
  }

  /** The record at `p` is a node that stands for `t`. */
  ghost predicate Repr(s: Store, p: nat, t: Tree)
    decreases t, 1
  {
    p in s && s[p].NodeRec? && NodeRepr(s, s[p].node, p, t)
  }

  lemma {:induction false} NodeReprExtends(s1: Store, s2: Store, n: Node, below: nat, t: Tree)
    requires Extends(s1, s2) && NodeRepr(s1, n, below, t)
    ensures NodeRepr(s2, n, below, t)
    decreases t, 0
  {
    if t.TNode? {
      forall i | 0 <= i < |t.kids| ensures Repr(s2, n.children[i], t.kids[i]) {
        ReprExtends(s1, s2, n.children[i], t.kids[i]);
      }
    }
  }

  /** Appending never changes the tree below a pointer: this is what isolates snapshots. */
  lemma {:induction false} ReprExtends(s1: Store, s2: Store, p: nat, t: Tree)
    requires Extends(s1, s2) && Repr(s1, p, t)
    ensures Repr(s2, p, t)
    decreases t, 1
  {
    NodeReprExtends(s1, s2, s1[p].node, p, t);
  }

  lemma NodeReprLater(s: Store, n: Node, b1: nat, b2: nat, t: Tree)
    requires NodeRepr(s, n, b1, t) && b1 <= b2
    ensures NodeRepr(s, n, b2, t)
  {
  }

  lemma ReprParses(s: Store, p: nat, t: Tree)
    requires Repr(s, p, t)
    ensures ParseNode(s, p) == (Ok, s[p].node)
  {
    match t
    case TLeaf(_) =>
    case TNode(_, _) =>
  }

  /** A pointer stands for one tree only. */
  lemma {:induction false} ReprUnique(s: Store, p: nat, t1: Tree, t2: Tree)
    requires Repr(s, p, t1) && Repr(s, p, t2)
    ensures t1 == t2
    decreases t1
  {
    if t1.TNode? {
      forall i | 0 <= i < |t1.kids| ensures t1.kids[i] == t2.kids[i] {
        ReprUnique(s, s[p].node.children[i], t1.kids[i], t2.kids[i]);
      }
      assert t1.kids == t2.kids;
    } else {
      assert t1.es == t2.es;
    }
  }

  // ---- the tree invariant ----

  ghost predicate AtLeast(lo: Bound, k: real) {
    lo.At? ==> lo.r <= k
  }

  ghost predicate Under(hi: Bound, k: real) {
    hi.At? ==> k < hi.r
  }

  ghost predicate InRange(lo: Bound, hi: Bound, k: real) {
    AtLeast(lo, k) && Under(hi, k)
  }

  ghost predicate KeysOk(ks: seq<real>, lo: Bound, hi: Bound) {
    && (forall i, j :: 0 <= i < j < |ks| ==> ks[i] < ks[j])
    && (forall i :: 0 <= i < |ks| ==> InRange(lo, hi, ks[i]))
  }

  /** The first child's range is not empty. */
  ghost predicate Gap(lo: Bound, ks: seq<real>) {
    lo.At? && ks != [] ==> lo.r < ks[0]
  }

  ghost predicate EntriesOk(es: seq<Entry<Cell>>, lo: Bound, hi: Bound) {
    && Ascending(es)
    && (forall i :: 0 <= i < |es| ==> InRange(lo, hi, es[i].key))
  }

  ghost function KidLo(ks: seq<real>, lo: Bound, i: nat): Bound
    requires i <= |ks|
  {
    if i == 0 then lo else At(ks[i - 1])
  }

  ghost function KidHi(ks: seq<real>, hi: Bound, i: nat): Bound
    requires i <= |ks|
  {
    if i == |ks| then hi else At(ks[i])
  }

  /**
   * Everything the invariant says about `t` except how many keys its own node holds: keys
   * ascending in [lo, hi), child i routed between separators i-1 and i, all leaves at depth `h`,
   * and every node below within its fill limits.
   */
  ghost predicate Routed(t: Tree, h: nat, lo: Bound, hi: Bound, c: Config)
    decreases t, 0
  {
    match t
    case TLeaf(es) => h == 0 && EntriesOk(es, lo, hi)
    case TNode(keys, kids) =>
      && h > 0 && KeysOk(keys, lo, hi) && |kids| == |keys| + 1 && (c.gap ==> Gap(lo, keys))
      && forall i :: 0 <= i < |kids| ==>
           Good(kids[i], h - 1, KidLo(keys, lo, i), KidHi(keys, hi, i), c, MinFor(c, KidHi(keys, hi, i)))
  }

  /** `Routed`, with between `m` and order - 1 keys in the node itself. */
  ghost predicate Good(t: Tree, h: nat, lo: Bound, hi: Bound, c: Config, m: nat)
    decreases t, 1
  {
    m <= NKeys(t) < c.order && Routed(t, h, lo, hi, c)
  }

  /** The first configuration demands no more than the second. */
  predicate Weaker(c: Config, d: Config) {
    c.order == d.order && c.minKeys <= d.minKeys && c.edge <= d.edge && (c.gap ==> d.gap)
  }

  /** A tree meets every weaker demand. */
  lemma {:induction false} GoodWeaken(t: Tree, h: nat, lo: Bound, hi: Bound, c: Config, m: nat, c2: Config, m2: nat)
    requires Good(t, h, lo, hi, c, m) && Weaker(c2, c) && m2 <= m
    ensures Good(t, h, lo, hi, c2, m2)
    decreases t
  {
    if t.TNode? {
      forall i | 0 <= i < |t.kids|
        ensures Good(t.kids[i], h - 1, KidLo(t.keys, lo, i), KidHi(t.keys, hi, i), c2, MinFor(c2, KidHi(t.keys, hi, i)))
      {
        var k := KidHi(t.keys, hi, i);
        GoodWeaken(t.kids[i], h - 1, KidLo(t.keys, lo, i), k, c, MinFor(c, k), c2, MinFor(c2, k));
      }
    }
  }

  // ---- lists of subtrees ----

  lemma {:induction false} FlatConcat(a: seq<Tree>, b: seq<Tree>)
    ensures Flat(a + b) == Flat(a) + Flat(b)
  {
    if a == [] {
      assert a + b == b;
    } else {
      assert (a + b)[1..] == a[1..] + b;
      FlatConcat(a[1..], b);
    }
  }

  lemma FlatOne(t: Tree)
    ensures Flat([t]) == Entries(t)
  {
    assert [t][1..] == [];
  }

  lemma FlatAround(ts: seq<Tree>, i: nat)
    requires i < |ts|
    ensures Flat(ts) == Flat(ts[..i]) + Entries(ts[i]) + Flat(ts[i + 1..])
  {
    assert ts == ts[..i] + ts[i..];
    FlatConcat(ts[..i], ts[i..]);
    assert ts[i..][1..] == ts[i + 1..];
  }

  // ---- entries lie where the routing keys say ----

  lemma {:induction false} RoutedEntries(t: Tree, h: nat, lo: Bound, hi: Bound, c: Config)
    requires Routed(t, h, lo, hi, c)
    ensures EntriesOk(Entries(t), lo, hi)
    decreases t, 1
  {
    if t.TNode? {
      KidsEntries(t.keys, t.kids, h, lo, hi, c, |t.kids|);
      assert t.kids[..|t.kids|] == t.kids;
    }
  }

  /** The first `n` children together hold ascending entries between `lo` and child n-1's upper bound. */
  lemma {:induction false} KidsEntries(keys: seq<real>, kids: seq<Tree>, h: nat, lo: Bound, hi: Bound, c: Config,
                                       n: nat)
    requires Routed(TNode(keys, kids), h, lo, hi, c) && 1 <= n <= |kids|
    ensures EntriesOk(Flat(kids[..n]), lo, KidHi(keys, hi, n - 1))
    decreases kids, 0, n
  {
    var last := kids[n - 1];
    assert Good(last, h - 1, KidLo(keys, lo, n - 1), KidHi(keys, hi, n - 1), c, MinFor(c, KidHi(keys, hi, n - 1)));
    RoutedEntries(last, h - 1, KidLo(keys, lo, n - 1), KidHi(keys, hi, n - 1), c);
    assert kids[..n] == kids[..n - 1] + [last];
    FlatConcat(kids[..n - 1], [last]);
    FlatOne(last);
    if n == 1 {
      assert kids[..0] == [];
      assert Flat(kids[..n]) == Entries(last);
    } else {
      KidsEntries(keys, kids, h, lo, hi, c, n - 1);
      JoinEntries(Flat(kids[..n - 1]), Entries(last), lo, keys[n - 2], KidHi(keys, hi, n - 1));
    }
  }

  lemma JoinEntries(a: seq<Entry<Cell>>, b: seq<Entry<Cell>>, lo: Bound, sep: real, hi: Bound)
    requires EntriesOk(a, lo, At(sep)) && EntriesOk(b, At(sep), hi) && InRange(lo, hi, sep)
    ensures EntriesOk(a + b, lo, hi)
  {
  }

  /** Children from `n` on hold keys at or above separator n-1. */
  lemma {:induction false} KidsFrom(keys: seq<real>, kids: seq<Tree>, h: nat, lo: Bound, hi: Bound, c: Config, n: nat)
    requires Routed(TNode(keys, kids), h, lo, hi, c) && 1 <= n <= |keys|
    ensures AllFrom(Flat(kids[n..]), keys[n - 1])
    decreases |kids| - n
  {
    if n < |kids| {
      assert Good(kids[n], h - 1, KidLo(keys, lo, n), KidHi(keys, hi, n), c, MinFor(c, KidHi(keys, hi, n)));
      RoutedEntries(kids[n], h - 1, KidLo(keys, lo, n), KidHi(keys, hi, n), c);
      assert kids[n..] == [kids[n]] + kids[n + 1..];
      assert kids[n..][1..] == kids[n + 1..];
      if n + 1 < |kids| {
        KidsFrom(keys, kids, h, lo, hi, c, n + 1);
      } else {
        assert kids[n + 1..] == [];
      }
    }
  }

  /** `i` is where the descent for `k` goes: separators before are at most `k`, the others above it. */
  ghost predicate RoutesTo(ks: seq<real>, k: real, i: nat) {
    && i <= |ks|
    && (forall j :: 0 <= j < i ==> ks[j] <= k)
    && (forall j :: i <= j < |ks| ==> k < ks[j])
  }

  /** The entries of a node around the child a key is routed to. */
  lemma RouteSplit(keys: seq<real>, kids: seq<Tree>, h: nat, lo: Bound, hi: Bound, c: Config, k: real, i: nat)
    requires Routed(TNode(keys, kids), h, lo, hi, c) && RoutesTo(keys, k, i)
    ensures Flat(kids) == Flat(kids[..i]) + Entries(kids[i]) + Flat(kids[i + 1..])
    ensures AllBelow(Flat(kids[..i]), k) && AllAbove(Flat(kids[i + 1..]), k)
  {
    FlatAround(kids, i);
    if i > 0 {
      KidsEntries(keys, kids, h, lo, hi, c, i);
    }
    if i < |keys| {
      KidsFrom(keys, kids, h, lo, hi, c, i + 1);
    } else {
      assert kids[i + 1..] == [];
    }
  }

  /** A key is in the node exactly when it is in the child it is routed to. */
  lemma RouteHasKey(keys: seq<real>, kids: seq<Tree>, h: nat, lo: Bound, hi: Bound, c: Config, k: real, i: nat)
    requires Routed(TNode(keys, kids), h, lo, hi, c) && RoutesTo(keys, k, i)
    ensures HasKey(Flat(kids), k) <==> HasKey(Entries(kids[i]), k)
  {
    RouteSplit(keys, kids, h, lo, hi, c, k, i);
    MiddleHasKey(Flat(kids[..i]), Entries(kids[i]), Flat(kids[i + 1..]), k);
  }

  // ---- replacing, inserting, cutting and joining ----

  lemma ReplaceKid(keys: seq<real>, kids: seq<Tree>, h: nat, lo: Bound, hi: Bound, c: Config, i: nat, t: Tree)
    requires Routed(TNode(keys, kids), h, lo, hi, c) && i < |kids|
    requires Good(t, h - 1, KidLo(keys, lo, i), KidHi(keys, hi, i), c, MinFor(c, KidHi(keys, hi, i)))
    ensures Routed(TNode(keys, kids[i := t]), h, lo, hi, c)
    ensures Flat(kids[i := t]) == Flat(kids[..i]) + Entries(t) + Flat(kids[i + 1..])
  {
    var ks := kids[i := t];
    FlatAround(ks, i);
    assert ks[..i] == kids[..i] && ks[i + 1..] == kids[i + 1..];
  }

  /** A subtree with a key in it spans a range that is not empty. */
  lemma NonEmptyRange(t: Tree, h: nat, lo: Bound, hi: Bound, c: Config)
    requires Routed(t, h, lo, hi, c) && NKeys(t) >= 1 && lo.At? && hi.At?
    ensures lo.r < hi.r
  {
    var k := if t.TLeaf? then t.es[0].key else t.keys[0];
    assert InRange(lo, hi, k);
  }

  lemma FlatPair(pre: seq<Tree>, a: Tree, b: Tree, post: seq<Tree>)
    ensures Flat(pre + [a, b] + post) == Flat(pre) + (Entries(a) + Entries(b)) + Flat(post)
  {
    FlatConcat(pre + [a, b], post);
    FlatConcat(pre, [a, b]);
    assert [a, b][1..] == [b];
    FlatOne(b);
  }

  /** Child `i` replaced by two halves around a new separator. */
  lemma SpliceKids(keys: seq<real>, kids: seq<Tree>, h: nat, lo: Bound, hi: Bound, c: Config, i: nat,
                   a: Tree, sep: real, b: Tree)
    requires Routed(TNode(keys, kids), h, lo, hi, c) && i < |kids|
    requires InRange(KidLo(keys, lo, i), KidHi(keys, hi, i), sep)
    requires Good(a, h - 1, KidLo(keys, lo, i), At(sep), c, c.minKeys) && NKeys(a) >= 1
    requires Good(b, h - 1, At(sep), KidHi(keys, hi, i), c, MinFor(c, KidHi(keys, hi, i)))
    ensures Routed(TNode(keys[..i] + [sep] + keys[i..], kids[..i] + [a, b] + kids[i + 1..]), h, lo, hi, c)
  {
    var ks, ts := keys[..i] + [sep] + keys[i..], kids[..i] + [a, b] + kids[i + 1..];
    if KidLo(keys, lo, i).At? {
      NonEmptyRange(a, h - 1, KidLo(keys, lo, i), At(sep), c);
    }
    SplicedKeys(keys, lo, hi, i, sep);
    SplicedBounds(keys, lo, hi, i, sep);
    forall j | 0 <= j < |ts|
      ensures Good(ts[j], h - 1, KidLo(ks, lo, j), KidHi(ks, hi, j), c, MinFor(c, KidHi(ks, hi, j)))
    {
      if j < i {
        assert ts[j] == kids[j];
      } else if j > i + 1 {
        assert ts[j] == kids[j - 1];
      }
    }
  }

  /** The bounds of every child after a separator and a child went in. */
  lemma SplicedBounds(keys: seq<real>, lo: Bound, hi: Bound, i: nat, sep: real)
    requires i <= |keys|
    ensures var ks := keys[..i] + [sep] + keys[i..];
            && (forall j :: 0 <= j < i ==>
                  KidLo(ks, lo, j) == KidLo(keys, lo, j) && KidHi(ks, hi, j) == KidHi(keys, hi, j))
            && KidLo(ks, lo, i) == KidLo(keys, lo, i) && KidHi(ks, hi, i) == At(sep)
            && KidLo(ks, lo, i + 1) == At(sep) && KidHi(ks, hi, i + 1) == KidHi(keys, hi, i)
            && (forall j :: i + 1 < j <= |keys| + 1 ==>
               KidLo(ks, lo, j) == KidLo(keys, lo, j - 1) && KidHi(ks, hi, j) == KidHi(keys, hi, j - 1))
  {
  }

  lemma SplicedKeys(keys: seq<real>, lo: Bound, hi: Bound, i: nat, sep: real)
    requires KeysOk(keys, lo, hi) && i <= |keys|
    requires i > 0 ==> keys[i - 1] < sep
    requires i < |keys| ==> sep < keys[i]
    requires InRange(KidLo(keys, lo, i), KidHi(keys, hi, i), sep)
    ensures KeysOk(keys[..i] + [sep] + keys[i..], lo, hi)
  {
  }

  /** An internal node cut at separator `mid`, which moves up. */
  lemma CutNode(keys: seq<real>, kids: seq<Tree>, h: nat, lo: Bound, hi: Bound, c: Config, mid: nat)
    requires Routed(TNode(keys, kids), h, lo, hi, c) && mid < |keys|
    ensures Routed(TNode(keys[..mid], kids[..mid + 1]), h, lo, At(keys[mid]), c)
    ensures Routed(TNode(keys[mid + 1..], kids[mid + 1..]), h, At(keys[mid]), hi, c)
    ensures InRange(lo, hi, keys[mid])
    ensures Flat(kids) == Flat(kids[..mid + 1]) + Flat(kids[mid + 1..])
  {
    CutLeft(keys, kids, h, lo, hi, c, mid);
    CutRight(keys, kids, h, lo, hi, c, mid);
    assert kids == kids[..mid + 1] + kids[mid + 1..];
    FlatConcat(kids[..mid + 1], kids[mid + 1..]);
  }

  lemma CutLeft(keys: seq<real>, kids: seq<Tree>, h: nat, lo: Bound, hi: Bound, c: Config, mid: nat)
    requires Routed(TNode(keys, kids), h, lo, hi, c) && mid < |keys|
    ensures Routed(TNode(keys[..mid], kids[..mid + 1]), h, lo, At(keys[mid]), c)
  {
    var k1, t1, top := keys[..mid], kids[..mid + 1], At(keys[mid]);
    forall j | 0 <= j < |t1|
      ensures Good(t1[j], h - 1, KidLo(k1, lo, j), KidHi(k1, top, j), c, MinFor(c, KidHi(k1, top, j)))
    {
      assert t1[j] == kids[j];
    }
  }

  lemma CutRight(keys: seq<real>, kids: seq<Tree>, h: nat, lo: Bound, hi: Bound, c: Config, mid: nat)
    requires Routed(TNode(keys, kids), h, lo, hi, c) && mid < |keys|
    ensures Routed(TNode(keys[mid + 1..], kids[mid + 1..]), h, At(keys[mid]), hi, c)
  {
    var k2, t2 := keys[mid + 1..], kids[mid + 1..];
    forall j | 0 <= j < |t2|
      ensures Good(t2[j], h - 1, KidLo(k2, At(keys[mid]), j), KidHi(k2, hi, j), c, MinFor(c, KidHi(k2, hi, j)))
    {
      assert t2[j] == kids[mid + 1 + j];
    }
  }

  /** A leaf cut before entry `mid`, whose key becomes the separator. */
  lemma CutLeaf(es: seq<Entry<Cell>>, lo: Bound, hi: Bound, mid: nat)
    requires EntriesOk(es, lo, hi) && mid < |es|
    ensures EntriesOk(es[..mid], lo, At(es[mid].key)) && EntriesOk(es[mid..], At(es[mid].key), hi)
    ensures InRange(lo, hi, es[mid].key)
  {
  }

  /** Two neighbouring internal nodes with the separator between them pulled down. */
  lemma JoinNodes(k1: seq<real>, t1: seq<Tree>, sep: real, k2: seq<real>, t2: seq<Tree>, h: nat, lo: Bound, hi: Bound,
                  c: Config)
    requires Routed(TNode(k1, t1), h, lo, At(sep), c) && Routed(TNode(k2, t2), h, At(sep), hi, c)
    requires InRange(lo, hi, sep) && (c.gap ==> Gap(lo, [sep]))
    ensures Routed(TNode(k1 + [sep] + k2, t1 + t2), h, lo, hi, c) <==> Gap(At(sep), k2)
    ensures Flat(t1 + t2) == Flat(t1) + Flat(t2)
  {
    FlatConcat(t1, t2);
    var ks, ts := k1 + [sep] + k2, t1 + t2;
    if !Gap(At(sep), k2) {
      assert ks[|k1|] == sep && ks[|k1| + 1] == k2[0];
      return;
    }
    JoinedKeys(k1, sep, k2, lo, hi);
    forall j | 0 <= j < |ts|
      ensures Good(ts[j], h - 1, KidLo(ks, lo, j), KidHi(ks, hi, j), c, MinFor(c, KidHi(ks, hi, j)))
    {
      if j < |t1| {
        assert ts[j] == t1[j];
      } else {
        assert ts[j] == t2[j - |t1|];
      }
    }
  }

  lemma JoinedKeys(k1: seq<real>, sep: real, k2: seq<real>, lo: Bound, hi: Bound)
    requires KeysOk(k1, lo, At(sep)) && KeysOk(k2, At(sep), hi) && InRange(lo, hi, sep)
    requires k2 != [] ==> sep < k2[0]
    ensures KeysOk(k1 + [sep] + k2, lo, hi)
  {
    var ks := k1 + [sep] + k2;
    forall i, j | 0 <= i < j < |ks| ensures ks[i] < ks[j] {
      if j > |k1| {
        assert ks[j] == k2[j - |k1| - 1] && k2[0] <= ks[j];
      }
    }
  }

  /** Children `li` and `li + 1` replaced by one, their separator dropped. */
  lemma MergePair(keys: seq<real>, kids: seq<Tree>, h: nat, lo: Bound, hi: Bound, c: Config, li: nat, t: Tree)
    requires Routed(TNode(keys, kids), h, lo, hi, c) && li < |keys|
    requires Good(t, h - 1, KidLo(keys, lo, li), KidHi(keys, hi, li + 1), c, MinFor(c, KidHi(keys, hi, li + 1)))
    ensures Routed(TNode(keys[..li] + keys[li + 1..], kids[..li] + [t] + kids[li + 2..]), h, lo, hi, c)
    ensures Flat(kids[..li] + [t] + kids[li + 2..]) == Flat(kids[..li]) + Entries(t) + Flat(kids[li + 2..])
  {
    MergeEntries(kids, li, t);
    var ks, ts := keys[..li] + keys[li + 1..], kids[..li] + [t] + kids[li + 2..];
    forall j | 0 <= j < |ts|
      ensures Good(ts[j], h - 1, KidLo(ks, lo, j), KidHi(ks, hi, j), c, MinFor(c, KidHi(ks, hi, j)))
    {
      if j < li {
        assert ts[j] == kids[j];
      } else if j > li {
        assert ts[j] == kids[j + 1];
      }
    }
  }

  lemma MergeEntries(kids: seq<Tree>, li: nat, t: Tree)
    requires li + 2 <= |kids|
    ensures Flat(kids[..li] + [t] + kids[li + 2..]) == Flat(kids[..li]) + Entries(t) + Flat(kids[li + 2..])
  {
    var ts := kids[..li] + [t] + kids[li + 2..];
    FlatAround(ts, li);
    assert ts[..li] == kids[..li] && ts[li + 1..] == kids[li + 2..];
  }

  /** Children `li` and `li + 1` replaced by a new pair around a new separator. */
  lemma ReplacePair(keys: seq<real>, kids: seq<Tree>, h: nat, lo: Bound, hi: Bound, c: Config, li: nat,
                    a: Tree, sep: real, b: Tree)
    requires Routed(TNode(keys, kids), h, lo, hi, c) && li < |keys|
    requires Good(a, h - 1, KidLo(keys, lo, li), At(sep), c, c.minKeys) && NKeys(a) >= 1
    requires Good(b, h - 1, At(sep), KidHi(keys, hi, li + 1), c, MinFor(c, KidHi(keys, hi, li + 1)))
    requires InRange(KidLo(keys, lo, li), KidHi(keys, hi, li + 1), sep)
    ensures Routed(TNode(keys[li := sep], kids[..li] + [a, b] + kids[li + 2..]), h, lo, hi, c)
    ensures Flat(kids[..li] + [a, b] + kids[li + 2..])
            == Flat(kids[..li]) + (Entries(a) + Entries(b)) + Flat(kids[li + 2..])
  {
    var ks, ts := keys[li := sep], kids[..li] + [a, b] + kids[li + 2..];
    if KidLo(keys, lo, li).At? {
      NonEmptyRange(a, h - 1, KidLo(keys, lo, li), At(sep), c);
    }
    ReplacedKeys(keys, lo, hi, li, sep);
    forall j | 0 <= j < |ts|
      ensures Good(ts[j], h - 1, KidLo(ks, lo, j), KidHi(ks, hi, j), c, MinFor(c, KidHi(ks, hi, j)))
    {
      if j < li || j > li + 1 {
        assert ts[j] == kids[j];
      }
    }
    FlatPair(kids[..li], a, b, kids[li + 2..]);
  }

  lemma ReplacedKeys(keys: seq<real>, lo: Bound, hi: Bound, i: nat, sep: real)
    requires KeysOk(keys, lo, hi) && i < |keys|
    requires i > 0 ==> keys[i - 1] < sep
    requires InRange(KidLo(keys, lo, i), KidHi(keys, hi, i + 1), sep)
    ensures KeysOk(keys[i := sep], lo, hi)
  {
    var ks := keys[i := sep];
    assert i + 1 < |keys| ==> sep < keys[i + 1];
    assert i + 1 == |keys| ==> Under(hi, sep);
    assert i == 0 ==> AtLeast(lo, sep);
    if i > 0 {
      assert InRange(lo, hi, keys[i - 1]);
    }
    if i + 1 < |keys| {
      assert InRange(lo, hi, keys[i + 1]);
    }
  }

  // ---- height ----

  ghost function Pow2(n: nat): nat {
    if n == 0 then 1 else 2 * Pow2(n - 1)
  }

  lemma {:induction false} Pow2Monotone(m: nat, n: nat)
    requires m <= n
    ensures Pow2(m) <= Pow2(n)
    decreases n
  {
    if m < n {
      Pow2Monotone(m, n - 1);
    }
  }

  /** Minimum fill makes the tree logarithmically flat: 2^height entries at least. */
  lemma {:induction false} HeightBound(t: Tree, h: nat, lo: Bound, hi: Bound, c: Config)
    requires c.minKeys >= 1 && MinFor(c, hi) >= 1 && Good(t, h, lo, hi, c, 1)
    ensures Pow2(h) <= |Entries(t)|
    decreases t
  {
    if t.TNode? {
      var a, b := t.kids[0], t.kids[1];
      var k0, k1 := KidHi(t.keys, hi, 0), KidHi(t.keys, hi, 1);
      assert Good(a, h - 1, KidLo(t.keys, lo, 0), k0, c, MinFor(c, k0));
      assert Good(b, h - 1, KidLo(t.keys, lo, 1), k1, c, MinFor(c, k1));
      HeightBound(a, h - 1, KidLo(t.keys, lo, 0), k0, c);
      HeightBound(b, h - 1, KidLo(t.keys, lo, 1), k1, c);
      FirstKid(t.kids);
      assert t.kids[1..][0] == b;
      FirstKid(t.kids[1..]);
    }
  }

  lemma FirstKid(kids: seq<Tree>)
    requires kids != []
    ensures Flat(kids) == Entries(kids[0]) + Flat(kids[1..])
  {
  }

  /** With the right edge exempt, what stands left of the root's first separator is filled: 2^(height - 1) entries. */
  lemma EdgeHeightBound(t: Tree, h: nat, c: Config)
    requires c.minKeys >= 1 && Good(t, h, Inf, Inf, c, 1) && h >= 1
    ensures Pow2(h - 1) <= |Entries(t)|
  {
    var a, hi := t.kids[0], KidHi(t.keys, Inf, 0);
    assert Good(a, h - 1, KidLo(t.keys, Inf, 0), hi, c, MinFor(c, hi));
    HeightBound(a, h - 1, KidLo(t.keys, Inf, 0), hi, c);
    FirstKid(t.kids);
  }
}
