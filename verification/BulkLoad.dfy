// Compaction: entries streamed in key order into one accumulator per level, each written out the
// moment it is full, give a fully packed tree.
module BulkLoad {
  import opened SortedEntries
  import opened RecordFile
  import opened TreeModel
  import opened NodeFacts

  // ---- the shape of what the loader builds ----

  ghost function Below(ts: seq<Tree>): seq<Tree>
    requires forall i :: 0 <= i < |ts| ==> ts[i].TNode?
  {
    if ts == [] then [] else ts[0].kids + Below(ts[1..])
  }

  ghost function MinKey(t: Tree): real
    requires Entries(t) != []
  {
    Entries(t)[0].key
  }

  /** Keys of an internal node: the smallest key of every child but the first. */
  ghost predicate SepsOf(keys: seq<real>, kids: seq<Tree>) {
    && |kids| == |keys| + 1
    && (forall i :: 0 <= i < |kids| ==> Entries(kids[i]) != [])
    && (forall i :: 0 <= i < |keys| ==> keys[i] == MinKey(kids[i + 1]))
  }

  /** A tree of height `h` with entries in every leaf and smallest keys for separators. */
  ghost predicate Tidy(t: Tree, h: nat, order: nat)
    decreases t
  {
    && NKeys(t) < order
    && match t
       case TLeaf(es) => h == 0 && es != []
       case TNode(keys, kids) =>
         h > 0 && SepsOf(keys, kids) && forall i :: 0 <= i < |kids| ==> Tidy(kids[i], h - 1, order)
  }

  ghost predicate AllTidy(ts: seq<Tree>, h: nat, order: nat) {
    forall i :: 0 <= i < |ts| ==> Tidy(ts[i], h, order)
  }

  ghost predicate AllFull(ts: seq<Tree>, order: nat) {
    forall i :: 0 <= i < |ts| ==> NKeys(ts[i]) == order - 1
  }

  lemma {:induction false} BelowConcat(a: seq<Tree>, b: seq<Tree>)
    requires forall i :: 0 <= i < |a| ==> a[i].TNode?
    requires forall i :: 0 <= i < |b| ==> b[i].TNode?
    ensures forall i :: 0 <= i < |a + b| ==> (a + b)[i].TNode?
    ensures Below(a + b) == Below(a) + Below(b)
  {
    if a == [] {
      assert a + b == b;
    } else {
      assert (a + b)[1..] == a[1..] + b;
      BelowConcat(a[1..], b);
    }
  }

  /** A level holds the same entries as the level below it. */
  lemma {:induction false} BelowEntries(ts: seq<Tree>)
    requires forall i :: 0 <= i < |ts| ==> ts[i].TNode?
    ensures Flat(Below(ts)) == Flat(ts)
  {
    if ts != [] {
      BelowEntries(ts[1..]);
      FlatConcat(ts[0].kids, Below(ts[1..]));
    }
  }

  // ---- a tidy tree over ascending entries is a routed tree ----

  lemma {:induction false} TidyRouted(t: Tree, h: nat, order: nat, lo: Bound, hi: Bound)
    requires Tidy(t, h, order) && EntriesOk(Entries(t), lo, hi)
    ensures Good(t, h, lo, hi, AnyFill(order), 0)
    decreases t, 1
  {
    if t.TNode? {
      TidyKeys(t.keys, t.kids, h, order, lo, hi);
      forall i | 0 <= i < |t.kids|
        ensures Good(t.kids[i], h - 1, KidLo(t.keys, lo, i), KidHi(t.keys, hi, i), AnyFill(order), 0)
      {
        TidyKid(t.keys, t.kids, h, order, lo, hi, i);
        TidyRouted(t.kids[i], h - 1, order, KidLo(t.keys, lo, i), KidHi(t.keys, hi, i));
      }
    }
  }

  /** The entries after child `i` start with those of the next child. */
  lemma FlatAfter(kids: seq<Tree>, i: nat)
    requires i + 1 < |kids|
    ensures Flat(kids[i + 1..]) == Entries(kids[i + 1]) + Flat(kids[i + 2..])
  {
    assert kids[i + 1..][1..] == kids[i + 2..];
  }

  lemma TidyKid(keys: seq<real>, kids: seq<Tree>, h: nat, order: nat, lo: Bound, hi: Bound, i: nat)
    requires SepsOf(keys, kids) && EntriesOk(Flat(kids), lo, hi) && i < |kids|
    ensures EntriesOk(Entries(kids[i]), KidLo(keys, lo, i), KidHi(keys, hi, i))
  {
    FlatAround(kids, i);
    if i + 1 < |kids| {
      FlatAfter(kids, i);
    }
    assert i > 0 ==> keys[i - 1] == MinKey(kids[i - 1 + 1]);
    PartBetween(Flat(kids[..i]), Entries(kids[i]), Flat(kids[i + 1..]), lo, hi, KidLo(keys, lo, i), KidHi(keys, hi, i));
  }

  /** A part of ascending entries lies between its first key and the key that follows it. */
  lemma PartBetween(a: seq<Entry<Cell>>, es: seq<Entry<Cell>>, c: seq<Entry<Cell>>, lo: Bound, hi: Bound, low: Bound,
                    high: Bound)
    requires EntriesOk(a + es + c, lo, hi) && es != []
    requires low == lo || low == At(es[0].key)
    requires high == hi || (c != [] && high == At(c[0].key))
    ensures EntriesOk(es, low, high)
  {
    var all, n := a + es + c, |a|;
    assert forall j :: 0 <= j < |es| ==> all[n + j] == es[j];
    assert c != [] ==> all[n + |es|] == c[0];
    assert all[n..n + |es|] == es;
    forall j | 0 <= j < |es| ensures InRange(low, high, es[j].key) {
      assert InRange(lo, hi, all[n + j].key) && all[n].key <= all[n + j].key;
    }
  }

  /** Where the first entry of child `i` sits in the whole list. */
  lemma FirstAt(kids: seq<Tree>, i: nat)
    requires i < |kids| && Entries(kids[i]) != []
    ensures |Flat(kids[..i])| < |Flat(kids)| && Flat(kids)[|Flat(kids[..i])|] == Entries(kids[i])[0]
  {
    FlatAround(kids, i);
  }

  lemma TidyKeys(keys: seq<real>, kids: seq<Tree>, h: nat, order: nat, lo: Bound, hi: Bound)
    requires SepsOf(keys, kids) && EntriesOk(Flat(kids), lo, hi)
    ensures KeysOk(keys, lo, hi)
  {
    forall i | 0 <= i < |keys| ensures InRange(lo, hi, keys[i]) {
      FirstAt(kids, i + 1);
    }
    forall i, j | 0 <= i < j < |keys| ensures keys[i] < keys[j] {
      FirstAt(kids, i + 1);
      FirstAt(kids, j + 1);
      FlatShorter(kids, i + 1, j + 1);
    }
  }

  lemma FlatShorter(kids: seq<Tree>, i: nat, j: nat)
    requires i < j < |kids| && Entries(kids[i]) != []
    ensures |Flat(kids[..i])| < |Flat(kids[..j])|
  {
    assert kids[..j] == kids[..i] + kids[i..j];
    FlatConcat(kids[..i], kids[i..j]);
    assert Flat(kids[i..j]) == Entries(kids[i]) + Flat(kids[i..j][1..]);
  }

  // ---- packing ----

  function CeilDiv(n: nat, d: nat): nat
    requires d > 0
  {
    (n + d - 1) / d
  }

  lemma CeilDivIs(k: nat, r: nat, d: nat)
    requires d > 0 && 1 <= r <= d
    ensures CeilDiv(k * d + r, d) == k + 1
  {
    var x := k * d + r + d - 1;
    assert x == (k + 1) * d + (r - 1);
    DivOf(k + 1, r - 1, d);
  }

  lemma DivOf(q: nat, r: nat, d: nat)
    requires d > 0 && r < d
    ensures (q * d + r) / d == q
  {
    var p := (q * d + r) / d;
    MulOrder(p, q, d);
    MulOrder(q, p, d);
  }

  lemma {:induction false} MulOrder(a: int, b: int, d: nat)
    requires d > 0
    ensures a < b ==> a * d + d <= b * d
    decreases b - a
  {
    if a < b {
      assert (b - 1) * d + d == b * d;
      MulOrder(a, b - 1, d);
    }
  }

  /**
   * All nodes of one level, left to right, with the levels below: every node but the last of a
   * level is full, and each level has as few nodes as that allows.
   */
  ghost predicate Packed(ts: seq<Tree>, h: nat, order: nat)
    requires order >= 3
    decreases h
  {
    && ts != [] && AllFull(ts[..|ts| - 1], order)
    && if h == 0 then
         |ts| == if Flat(ts) == [] then 1 else CeilDiv(|Flat(ts)|, order - 1)
       else
         && (forall i :: 0 <= i < |ts| ==> ts[i].TNode?) && |Below(ts)| >= 2
         && |ts| == CeilDiv(|Below(ts)|, order) && Packed(Below(ts), h - 1, order)
  }

  lemma CeilDivAbove(m: nat, d: nat, n: nat)
    requires d > 0 && n == CeilDiv(m, d)
    ensures (n - 1) * d < m || n == 0
  {
    var r := (m + d - 1) % d;
    assert m + d - 1 == n * d + r;
    assert (n - 1) * d == n * d - d;
  }

  /** Packed levels at least double downwards, so two or more nodes of height `h` hold many entries. */
  lemma {:induction false} PackedLevel(ts: seq<Tree>, h: nat, order: nat)
    requires order >= 3 && Packed(ts, h, order) && |ts| >= 2
    ensures |Flat(ts)| >= |ts| * Pow2(h)
    decreases h
  {
    if h == 0 {
      CeilDivAbove(|Flat(ts)|, order - 1, |ts|);
      MulGrows(|ts| - 1, 2, order - 1);
    } else {
      CeilDivAbove(|Below(ts)|, order, |ts|);
      MulGrows(|ts| - 1, 3, order);
      PackedLevel(Below(ts), h - 1, order);
      BelowEntries(ts);
      Doubled(|ts|, |Below(ts)|, Pow2(h - 1));
    }
  }

  lemma Doubled(n: nat, m: nat, p: nat)
    requires 2 * n <= m
    ensures n * (2 * p) <= m * p
  {
    assert (m - 2 * n) * p >= 0;
  }

  lemma MulGrows(n: nat, a: nat, b: nat)
    requires a <= b
    ensures n * a <= n * b && n * b == b * n && n * a == a * n
  {
    assert n * (b - a) >= 0;
  }

  /** A packed tree of height `h` holds at least 2^h entries, unless it is a lone leaf. */
  lemma PackedHeight(t: Tree, h: nat, order: nat)
    requires order >= 3 && Packed([t], h, order)
    ensures h > 0 ==> |Entries(t)| >= Pow2(h)
    ensures |Entries(t)| < Pow2(MAX_DEPTH + 1) ==> h <= MAX_DEPTH
  {
    if h > 0 {
      FlatOne(t);
      BelowEntries([t]);
      PackedLevel(Below([t]), h - 1, order);
      MulGrows(Pow2(h - 1), 2, |Below([t])|);
      if h > MAX_DEPTH {
        Pow2Monotone(MAX_DEPTH + 1, h);
      }
    }
  }

  // ---- a packed tree is filled off its right edge ----

  /** The node and all below it are full. */
  ghost predicate DeepFull(t: Tree, order: nat)
    decreases t
  {
    NKeys(t) + 1 == order && (t.TNode? ==> forall i :: 0 <= i < |t.kids| ==> DeepFull(t.kids[i], order))
  }

  /** All below the node but its right edge are full. */
  ghost predicate EdgeOnly(t: Tree, order: nat)
    decreases t
  {
    t.TNode? ==>
      && (forall i :: 0 <= i < |t.kids| - 1 ==> DeepFull(t.kids[i], order))
      && (t.kids != [] ==> EdgeOnly(t.kids[|t.kids| - 1], order))
  }

  ghost predicate AllDeepFull(ts: seq<Tree>, order: nat) {
    forall i :: 0 <= i < |ts| ==> DeepFull(ts[i], order)
  }

  /** Where the children of node `i` stand in the level below. */
  lemma BelowAround(ts: seq<Tree>, i: nat)
    requires i < |ts| && forall k :: 0 <= k < |ts| ==> ts[k].TNode?
    ensures Below(ts) == Below(ts[..i]) + ts[i].kids + Below(ts[i + 1..])
  {
    assert ts == ts[..i] + ts[i..];
    BelowConcat(ts[..i], ts[i..]);
    assert ts[i..][1..] == ts[i + 1..];
  }

  lemma {:induction false} BelowTidy(ts: seq<Tree>, h: nat, order: nat)
    requires h > 0 && AllTidy(ts, h, order)
    ensures forall i :: 0 <= i < |ts| ==> ts[i].TNode? && ts[i].kids != []
    ensures AllTidy(Below(ts), h - 1, order)
  {
    if ts != [] {
      assert Tidy(ts[0], h, order);
      assert forall i :: 0 <= i < |ts[1..]| ==> ts[1..][i] == ts[i + 1];
      BelowTidy(ts[1..], h, order);
      forall i | 0 <= i < |Below(ts)| ensures Tidy(Below(ts)[i], h - 1, order) {
        if i >= |ts[0].kids| {
          assert Below(ts)[i] == Below(ts[1..])[i - |ts[0].kids|];
        }
      }
    }
  }

  /** Only the last node of a packed level, and below it only the right edge, may be short of keys. */
  lemma {:induction false} PackedFull(ts: seq<Tree>, h: nat, order: nat)
    requires order >= 3 && Packed(ts, h, order) && AllTidy(ts, h, order)
    ensures AllDeepFull(ts[..|ts| - 1], order) && EdgeOnly(ts[|ts| - 1], order)
    decreases h
  {
    var n := |ts| - 1;
    if h > 0 {
      BelowTidy(ts, h, order);
      var bs := Below(ts);
      PackedFull(bs, h - 1, order);
      BelowAround(ts, n);
      assert Below(ts[n + 1..]) == [];
      LastFull(ts, bs, order);
      forall i | 0 <= i < n ensures DeepFull(ts[..n][i], order) {
        KidsFull(ts, bs, order, i);
        assert ts[..n][i] == ts[i];
      }
    } else {
      forall i | 0 <= i < n ensures DeepFull(ts[..n][i], order) {
        assert Tidy(ts[i], h, order);
      }
      assert Tidy(ts[n], h, order);
    }
  }

  lemma LastFull(ts: seq<Tree>, bs: seq<Tree>, order: nat)
    requires ts != [] && (forall i :: 0 <= i < |ts| ==> ts[i].TNode? && ts[i].kids != [])
    requires bs == Below(ts) && bs != [] && AllDeepFull(bs[..|bs| - 1], order) && EdgeOnly(bs[|bs| - 1], order)
    ensures EdgeOnly(ts[|ts| - 1], order)
  {
    var n := |ts| - 1;
    BelowAround(ts, n);
    assert ts[n + 1..] == [] && Below(ts[n + 1..]) == [];
    var a, kids := |Below(ts[..n])|, ts[n].kids;
    forall j | 0 <= j < |kids| - 1 ensures DeepFull(kids[j], order) {
      assert bs[..|bs| - 1][a + j] == kids[j];
    }
    assert bs[|bs| - 1] == kids[|kids| - 1];
  }

  lemma KidsFull(ts: seq<Tree>, bs: seq<Tree>, order: nat, i: nat)
    requires i < |ts| - 1 && (forall k :: 0 <= k < |ts| ==> ts[k].TNode? && ts[k].kids != [])
    requires bs == Below(ts) && bs != [] && AllDeepFull(bs[..|bs| - 1], order)
    ensures forall j :: 0 <= j < |ts[i].kids| ==> DeepFull(ts[i].kids[j], order)
  {
    BelowAround(ts, i);
    var a, kids, rest := |Below(ts[..i])|, ts[i].kids, ts[i + 1..];
    assert Below(rest) == rest[0].kids + Below(rest[1..]);
    forall j | 0 <= j < |kids| ensures DeepFull(kids[j], order) {
      assert bs[..|bs| - 1][a + j] == kids[j];
    }
  }

  /** A tidy tree whose nodes off the right edge are full meets the demands of `Edge`. */
  lemma {:induction false} TidyFilled(t: Tree, h: nat, order: nat, lo: Bound, hi: Bound)
    requires order >= 3 && Tidy(t, h, order) && EntriesOk(Entries(t), lo, hi)
    requires if hi.Inf? then EdgeOnly(t, order) else DeepFull(t, order)
    ensures Good(t, h, lo, hi, FillConfig(order, Edge), MinFor(FillConfig(order, Edge), hi))
    decreases t, 1
  {
    var c := FillConfig(order, Edge);
    if t.TNode? {
      TidyKeys(t.keys, t.kids, h, order, lo, hi);
      TidyGap(t.keys, t.kids, lo, hi);
      forall i | 0 <= i < |t.kids|
        ensures Good(t.kids[i], h - 1, KidLo(t.keys, lo, i), KidHi(t.keys, hi, i), c, MinFor(c, KidHi(t.keys, hi, i)))
      {
        TidyKid(t.keys, t.kids, h, order, lo, hi, i);
        TidyFilled(t.kids[i], h - 1, order, KidLo(t.keys, lo, i), KidHi(t.keys, hi, i));
      }
    }
  }

  lemma TidyGap(keys: seq<real>, kids: seq<Tree>, lo: Bound, hi: Bound)
    requires SepsOf(keys, kids) && EntriesOk(Flat(kids), lo, hi)
    ensures Gap(lo, keys)
  {
    if keys != [] {
      FirstAt(kids, 0);
      FirstAt(kids, 1);
      FlatShorter(kids, 0, 1);
      assert kids[..0] == [];
      assert Flat(kids)[0] == Entries(kids[0])[0];
      assert keys[0] == MinKey(kids[0 + 1]);
    }
  }

  /** What the loader builds is a version-worthy tree: filled off its right edge, two children or more in the root. */
  lemma PackedFilled(t: Tree, h: nat, order: nat)
    requires order >= 3 && Packed([t], h, order) && (Tidy(t, h, order) || t == TLeaf([]))
    requires EntriesOk(Entries(t), Inf, Inf)
    ensures Good(t, h, Inf, Inf, FillConfig(order, Edge), RootMin(Edge, h))
  {
    if t == TLeaf([]) {
      assert h == 0;
    } else {
      assert AllTidy([t], h, order);
      PackedFull([t], h, order);
      TidyFilled(t, h, order, Inf, Inf);
      if h > 0 {
        assert [t][1..] == [] && Below([t]) == t.kids + Below([t][1..]) == t.kids;
      }
    }
  }

  lemma {:induction false} BelowCount(ts: seq<Tree>, order: nat)
    requires order >= 3 && forall i :: 0 <= i < |ts| ==> ts[i].TNode? && |ts[i].kids| == order
    ensures |Below(ts)| == |ts| * order
  {
    if ts != [] {
      BelowCount(ts[1..], order);
      assert |ts| * order == (|ts| - 1) * order + order;
    }
  }

  lemma {:induction false} LeafCount(ts: seq<Tree>, order: nat)
    requires order >= 3 && AllTidy(ts, 0, order) && AllFull(ts, order)
    ensures |Flat(ts)| == |ts| * (order - 1)
  {
    if ts != [] {
      assert Tidy(ts[0], 0, order);
      assert forall i :: 0 <= i < |ts[1..]| ==> ts[1..][i] == ts[i + 1];
      LeafCount(ts[1..], order);
      assert |ts| * (order - 1) == (|ts| - 1) * (order - 1) + (order - 1);
    }
  }

  // ---- the loader ----

  /** One level's accumulator: the node being filled, the separator before it, and how many are written. */
  datatype Level = Level(keys: seq<real>, vals: seq<Cell>, children: seq<nat>, sep: Option<real>, emitted: nat)

  /** What a level's accumulator stands for: the nodes written, and the children of the one being filled. */
  datatype View = View(written: seq<Tree>, kids: seq<Tree>)

  ghost predicate KidsAt(s: Store, len: nat, children: seq<nat>, kids: seq<Tree>) {
    && |children| == |kids|
    && (forall i :: 0 <= i < |kids| ==> children[i] < len && Repr(s, children[i], kids[i]))
  }

  /** Level `h` >= 1 between two steps. */
  ghost predicate LevelOk(s: Store, len: nat, lev: Level, v: View, h: nat, order: nat) {
    && h >= 1 && 1 <= |v.kids| <= order && lev.vals == []
    && SepsOf(lev.keys, v.kids) && KidsAt(s, len, lev.children, v.kids) && AllTidy(v.kids, h - 1, order)
    && AllTidy(v.written, h, order) && AllFull(v.written, order) && lev.emitted == |v.written|
    && (forall i :: 0 <= i < |v.written| ==> v.written[i].TNode?)
    && lev.sep == (if v.written == [] then None else Some(MinKey(v.kids[0])))
  }

  /** The node a full level's accumulator becomes. */
  lemma LevelNode(s: Store, len: nat, lev: Level, v: View, h: nat, order: nat, id: nat)
    requires LevelOk(s, len, lev, v, h, order)
    ensures NodeRepr(s, Node(id, false, lev.keys, lev.vals, lev.children), len, TNode(lev.keys, v.kids))
    ensures Tidy(TNode(lev.keys, v.kids), h, order)
    ensures Entries(TNode(lev.keys, v.kids)) != [] && MinKey(TNode(lev.keys, v.kids)) == MinKey(v.kids[0])
  {
    assert Flat(v.kids) == Entries(v.kids[0]) + Flat(v.kids[1..]);
  }

  lemma LevelExtends(s1: Store, s2: Store, l1: nat, l2: nat, lev: Level, v: View, h: nat, order: nat)
    requires LevelOk(s1, l1, lev, v, h, order) && Extends(s1, s2) && l1 <= l2
    ensures LevelOk(s2, l2, lev, v, h, order)
  {
    forall i | 0 <= i < |v.kids| ensures lev.children[i] < l2 && Repr(s2, lev.children[i], v.kids[i]) {
      ReprExtends(s1, s2, lev.children[i], v.kids[i]);
    }
  }

  /** The leaf being filled, and the leaves written. */
  ghost predicate LeavesOk(lev: Level, len: nat, written: seq<Tree>, es: seq<Entry<Cell>>, fed: seq<Entry<Cell>>,
                           order: nat) {
    && |lev.keys| == |lev.vals| == |es| && |es| <= order - 1 && lev.children == []
    && (forall i :: 0 <= i < |es| ==>
          es[i] == Entry(lev.keys[i], lev.vals[i]) && (es[i].val.Marker? ==> es[i].val.off < len))
    && AllTidy(written, 0, order) && AllFull(written, order) && lev.emitted == |written|
    && fed == Flat(written) + es
    && (written != [] ==> es != [])
    && lev.sep == (if written == [] then None else Some(es[0].key))
  }

  /**
   * The children of level `l`, in its nodes and in its accumulator, are the nodes written one
   * level down; `pend` is one on its way up to level `at`.
   */
  ghost predicate LinkOk(g: seq<View>, l: nat, at: nat, pend: seq<Tree>)
    requires 1 <= l < |g|
  {
    && (forall i :: 0 <= i < |g[l].written| ==> g[l].written[i].TNode?)
    && Below(g[l].written) + g[l].kids + (if l == at then pend else []) == g[l - 1].written
  }

  ghost predicate Linked(g: seq<View>, at: nat, pend: seq<Tree>) {
    forall l :: 1 <= l < |g| ==> LinkOk(g, l, at, pend)
  }

  lemma LinkedJoin(g: seq<View>, l: nat, t: Tree)
    requires 1 <= l < |g| && Linked(g, l, [t])
    ensures Linked(g[l := g[l].(kids := g[l].kids + [t])], 0, [])
  {
    var g2 := g[l := g[l].(kids := g[l].kids + [t])];
    forall k | 1 <= k < |g2| ensures LinkOk(g2, k, 0, []) {
      assert LinkOk(g, k, l, [t]);
      if k == l {
        assert Below(g[l].written) + g[l].kids + [t] == Below(g[l].written) + (g[l].kids + [t]) + [];
      }
    }
  }

  lemma LinkedFlush(g: seq<View>, l: nat, n: Tree, t: Tree)
    requires 1 <= l < |g| && Linked(g, l, [t]) && n.TNode? && n.kids == g[l].kids
    ensures Linked(g[l := View(g[l].written + [n], [t])], l + 1, [n])
  {
    var g2, at := g[l := View(g[l].written + [n], [t])], l + 1;
    forall k | 1 <= k < |g2| ensures LinkOk(g2, k, at, [n]) {
      assert LinkOk(g, k, l, [t]);
      if k == l {
        BelowConcat(g[l].written, [n]);
        assert [n][1..] == [];
        assert Below([n]) == n.kids + Below([]);
        assert Below([n]) == n.kids;
      } else if k == l + 1 {
        assert Below(g[k].written) + g[k].kids + [] == Below(g[k].written) + g[k].kids;
      }
    }
  }

  lemma LinkedNew(g: seq<View>, t: Tree)
    requires g != [] && Linked(g, |g|, [t]) && g[|g| - 1].written == [t]
    ensures Linked(g + [View([], [t])], 0, [])
  {
    var g2 := g + [View([], [t])];
    forall k | 1 <= k < |g2| ensures LinkOk(g2, k, 0, []) {
      if k < |g| {
        assert LinkOk(g, k, |g|, [t]);
      }
    }
  }

  /** A leaf on its way up to level 1. */
  lemma LinkedLeaf(g: seq<View>, n: Tree)
    requires g != [] && Linked(g, 0, [])
    ensures Linked(g[0 := View(g[0].written + [n], g[0].kids)], 1, [n])
  {
    var g2, at := g[0 := View(g[0].written + [n], g[0].kids)], 1;
    forall k | 1 <= k < |g2| ensures LinkOk(g2, k, at, [n]) {
      assert LinkOk(g, k, 0, []);
      if k == 1 {
        assert Below(g[1].written) + g[1].kids + [] == Below(g[1].written) + g[1].kids;
      }
    }
  }

  /** The node of level `l` is written for good and goes up. */
  lemma LinkedClose(g: seq<View>, l: nat, n: Tree)
    requires 1 <= l < |g| && Linked(g, 0, []) && n.TNode? && n.kids == g[l].kids
    ensures Linked(g[l := View(g[l].written + [n], [])], l + 1, [n])
    ensures (forall i :: 0 <= i < |g[l].written| ==> g[l].written[i].TNode?)
    ensures forall i :: 0 <= i < |g[l].written + [n]| ==> (g[l].written + [n])[i].TNode?
    ensures Below(g[l].written + [n]) == g[l - 1].written
  {
    var g2, at := g[l := View(g[l].written + [n], [])], l + 1;
    assert LinkOk(g, l, 0, []);
    BelowConcat(g[l].written, [n]);
    assert [n][1..] == [];
    assert Below([n]) == n.kids + Below([]);
    assert Below([n]) == n.kids;
    assert Below(g[l].written) + g[l].kids + [] == Below(g[l].written) + g[l].kids;
    forall k | 1 <= k < |g2| ensures LinkOk(g2, k, at, [n]) {
      assert LinkOk(g, k, 0, []);
      if k == l {
        assert Below(g2[k].written) + [] + [] == Below(g2[k].written);
      } else if k == l + 1 {
        assert Below(g[k].written) + g[k].kids + [] == Below(g[k].written) + g[k].kids;
      }
    }
  }

  /** A finished level of leaves is packed. */
  lemma LeavesPacked(full: seq<Tree>, es: seq<Entry<Cell>>, order: nat)
    requires order >= 3 && AllTidy(full, 0, order) && AllFull(full, order) && |es| <= order - 1
             && (full != [] ==> es != [])
    ensures Packed(full + [TLeaf(es)], 0, order)
    ensures Flat(full + [TLeaf(es)]) == Flat(full) + es
  {
    var ts := full + [TLeaf(es)];
    FlatConcat(full, [TLeaf(es)]);
    FlatOne(TLeaf(es));
    LeafCount(full, order);
    assert ts[..|ts| - 1] == full;
    if es != [] {
      CeilDivIs(|full|, |es|, order - 1);
    } else {
      assert full == [];
    }
  }

  lemma LevelCount(full: seq<Tree>, last: Tree, below: seq<Tree>, h: nat, order: nat)
    requires order >= 3 && h >= 1 && AllTidy(full, h, order) && AllFull(full, order) && last.TNode?
    requires forall i :: 0 <= i < |full| ==> full[i].TNode?
    requires 1 <= |last.kids| <= order
    requires forall i :: 0 <= i < |full + [last]| ==> (full + [last])[i].TNode?
    requires Below(full + [last]) == below
    ensures |below| == |full| * order + |last.kids| && CeilDiv(|below|, order) == |full + [last]|
  {
    forall i | 0 <= i < |full| ensures |full[i].kids| == order {
      assert Tidy(full[i], h, order);
    }
    BelowCount(full, order);
    BelowConcat(full, [last]);
    assert [last][1..] == [];
    assert Below([last]) == last.kids + Below([]);
    CeilDivIs(|full|, |last.kids|, order);
  }

  /** A finished level over a packed one is packed. */
  lemma LevelPacked(full: seq<Tree>, last: Tree, below: seq<Tree>, h: nat, order: nat)
    requires order >= 3 && h >= 1 && AllTidy(full, h, order) && AllFull(full, order) && last.TNode?
    requires forall i :: 0 <= i < |full| ==> full[i].TNode?
    requires 1 <= |last.kids| <= order
    requires forall i :: 0 <= i < |full + [last]| ==> (full + [last])[i].TNode?
    requires Below(full + [last]) == below && Packed(below, h - 1, order) && |below| >= 2
    ensures Packed(full + [last], h, order)
    ensures Flat(full + [last]) == Flat(below)
    ensures |below| == |full| * order + |last.kids|
  {
    var ts := full + [last];
    LevelCount(full, last, below, h, order);
    assert ts[..|ts| - 1] == full;
    BelowEntries(ts);
  }

  /** A full leaf joins those written. */
  lemma LeafFull(lev: Level, len: nat, written: seq<Tree>, es: seq<Entry<Cell>>, fed: seq<Entry<Cell>>, order: nat)
    requires order >= 3 && LeavesOk(lev, len, written, es, fed, order) && |lev.keys| == order - 1
    ensures var leaf := TLeaf(es);
            && Tidy(leaf, 0, order) && AllTidy(written + [leaf], 0, order) && AllFull(written + [leaf], order)
            && Flat(written + [leaf]) == fed && lev.sep == (if written == [] then None else Some(MinKey(leaf)))
  {
    FlatConcat(written, [TLeaf(es)]);
    FlatOne(TLeaf(es));
  }

  /** As `LeavesOk`, but with room in the leaf, which `key` may be about to start. */
  ghost predicate LeavesReady(lev: Level, len: nat, written: seq<Tree>, es: seq<Entry<Cell>>, fed: seq<Entry<Cell>>,
                              order: nat, key: real) {
    && |lev.keys| == |lev.vals| == |es| && |es| < order - 1 && lev.children == []
    && (forall i :: 0 <= i < |es| ==>
          es[i] == Entry(lev.keys[i], lev.vals[i]) && (es[i].val.Marker? ==> es[i].val.off < len))
    && AllTidy(written, 0, order) && AllFull(written, order) && lev.emitted == |written|
    && fed == Flat(written) + es
    && lev.sep == (if written == [] then None else Some(if es == [] then key else es[0].key))
  }

  lemma LeafAppended(lev: Level, l0: nat, l1: nat, written: seq<Tree>, es: seq<Entry<Cell>>, fed: seq<Entry<Cell>>,
                     order: nat, key: real, c: Cell)
    requires LeavesReady(lev, l0, written, es, fed, order, key) && l0 <= l1 && (c.Marker? ==> c.off < l1)
    ensures LeavesOk(lev.(keys := lev.keys + [key], vals := lev.vals + [c]), l1, written, es + [Entry(key, c)],
            fed + [Entry(key, c)], order)
  {
    assert fed + [Entry(key, c)] == Flat(written) + (es + [Entry(key, c)]);
  }

  lemma FedAppended(s: Store, fed: seq<Entry<Cell>>, key: real, c: Cell)
    requires Ascending(fed) && CellsOk(s, fed) && Resolve(s, c).Some?
             && (forall i :: 0 <= i < |fed| ==> fed[i].key < key)
    ensures Ascending(fed + [Entry(key, c)]) && CellsOk(s, fed + [Entry(key, c)])
  {
  }

  /** A level above `m` >= 2 nodes has fewer: this is why finishing terminates. */
  lemma FewerAbove(s: Store, len: nat, g: seq<View>, l: nat, lev: Level, order: nat)
    requires order >= 3 && l + 1 < |g| && Linked(g, 0, []) && LevelOk(s, len, lev, g[l + 1], l + 1, order)
    requires |g[l].written| >= 2
    ensures |g[l + 1].written| + 1 < |g[l].written|
  {
    var up, k := g[l + 1].written, l + 1;
    assert LinkOk(g, k, 0, []);
    forall i | 0 <= i < |up| ensures |up[i].kids| == order {
      assert Tidy(up[i], l + 1, order);
    }
    BelowCount(up, order);
    assert |Below(up)| + |g[k].kids| == |g[l].written|;
    MulAtLeast(|up|, order);
  }

  lemma MulAtLeast(n: nat, order: nat)
    requires order >= 3
    ensures n * order >= 3 * n
  {
    assert (order - 3) * n >= 0;
  }

  /** The root of a finished load is a routed tree. */
  lemma TidyRoot(t: Tree, h: nat, order: nat)
    requires order >= 3 && Ascending(Entries(t))
    requires Tidy(t, h, order) || (t == TLeaf([]) && h == 0)
    ensures Good(t, h, Inf, Inf, AnyFill(order), 0)
  {
    if Tidy(t, h, order) {
      TidyRouted(t, h, order, Inf, Inf);
    }
  }

  /** A level of one node is the root. */
  lemma RootDone(w: seq<Tree>, t: Tree, h: nat, order: nat, fed: seq<Entry<Cell>>)
    requires order >= 3 && w == [] && Packed(w + [t], h, order) && Flat(w + [t]) == fed && Ascending(fed)
    requires Tidy(t, h, order) || (t == TLeaf([]) && h == 0)
    ensures Packed([t], h, order) && Entries(t) == fed && (Tidy(t, h, order) || t == TLeaf([]))
            && Good(t, h, Inf, Inf, AnyFill(order), 0)
  {
    assert w + [t] == [t];
    FlatOne(t);
    TidyRoot(t, h, order);
  }

  /** The levels under `l` are as they were. */
  ghost predicate SameBelow(l: nat, ls: seq<Level>, g: seq<View>, ls0: seq<Level>, g0: seq<View>) {
    && l <= |ls| && l <= |g| && l <= |ls0| && l <= |g0|
    && (forall k :: 0 <= k < l ==> ls[k] == ls0[k])
    && (forall k :: 0 <= k < l ==> g[k] == g0[k])
  }

  lemma SameStill(l: nat, ls: seq<Level>, g: seq<View>, ls1: seq<Level>, g1: seq<View>, ls0: seq<Level>,
                  g0: seq<View>)
    requires SameBelow(l + 1, ls, g, ls1, g1) && SameBelow(l, ls1, g1, ls0, g0)
    ensures SameBelow(l, ls, g, ls0, g0) && ls[l] == ls1[l] && g[l] == g1[l]
  {
  }

  class Loader {
    const order: nat
    var f: File
    var levels: seq<Level>
    var nextId: nat
    var fed: nat
    ghost var g: seq<View>
    ghost var es: seq<Entry<Cell>>
    ghost var fedEs: seq<Entry<Cell>>

    /** A loader over a destination file that holds nothing but its header. */
    constructor (order: nat, f: File)
      requires order >= 3 && f.Wf()
      ensures this.order == order && this.f == f && Valid() && fedEs == []
    {
      this.order, this.f, levels, nextId, fed, g, es, fedEs := order, f, [], 0, 0, [], [], [];
    }

    ghost predicate LevelsOk(from: nat)
      reads this
    {
      |g| == |levels| && forall l :: from <= l < |levels| && 1 <= l ==>
          LevelOk(f.store, f.len, levels[l], g[l], l, order)
    }

    ghost predicate LinksOk(at: nat, pend: seq<Tree>)
      reads this
    {
      Linked(g, at, pend)
    }

    /** Only the top level has written nothing, unless its first node is on the way up. */
    ghost predicate TopOk(at: nat, pend: seq<Tree>)
      reads this
    {
      && (forall l :: 0 <= l < |g| - 1 ==> g[l].written != [])
      && (g != [] ==> g[|g| - 1].written == if at == |g| then pend else [])
    }

    ghost predicate Valid()
      reads this
    {
      && order >= 3 && f.Wf() && LevelsOk(1) && LinksOk(0, []) && TopOk(0, [])
      && Ascending(fedEs) && CellsOk(f.store, fedEs) && fed == |fedEs|
      && (levels == [] ==> fedEs == [] && es == [])
      && (levels != [] ==> LeavesOk(levels[0], f.len, g[0].written, es, fedEs, order))
    }

    /** Write level `l`'s node to the destination. */
    method WriteNode(l: nat, ghost t: Tree) returns (p: nat)
      requires f.Wf() && l < |levels|
      requires NodeRepr(f.store, Node(nextId, l == 0, levels[l].keys, levels[l].vals, levels[l].children), f.len, t)
      modifies this`f, this`nextId
      ensures f.Wf() && Extends(old(f.store), f.store) && old(f.len) <= f.len
      ensures p < f.len && Repr(f.store, p, t)
    {
      var lev := levels[l];
      var n := Node(nextId, l == 0, lev.keys, lev.vals, lev.children);
      p := f.len;
      ghost var s := f.store;
      AppendWf(f, NodeRec(n));
      f := f.Append(NodeRec(n));
      NodeReprExtends(s, f.store, n, p, t);
      nextId := nextId + 1;
    }

    lemma LevelsExtend(from: nat, s: Store, l: nat)
      requires |g| == |levels| && Extends(s, f.store) && l <= f.len
      requires forall k :: from <= k < |levels| && 1 <= k ==> LevelOk(s, l, levels[k], g[k], k, order)
      ensures LevelsOk(from)
    {
      forall k | from <= k < |levels| && 1 <= k ensures LevelOk(f.store, f.len, levels[k], g[k], k, order) {
        LevelExtends(s, f.store, l, f.len, levels[k], g[k], k, order);
      }
    }

    /**
     * Hand a finished node up to level `l`.  When the accumulator there is full it is written out
     * first and handed up in turn, with the separator that precedes it.
     */
    method AddChild(l: nat, sep: Option<real>, p: nat, ghost t: Tree)
      requires order >= 3 && f.Wf() && 1 <= l <= |levels|
      requires p < f.len && Repr(f.store, p, t) && Tidy(t, l - 1, order) && Entries(t) != []
      requires sep == if l == |levels| then None else Some(MinKey(t))
      requires LevelsOk(l) && LinksOk(l, [t]) && TopOk(l, [t])
      requires l == |levels| ==> g[l - 1].written == [t]
      modifies this`f, this`nextId, this`levels, this`g
      decreases |levels| - l
      ensures f.Wf() && Extends(old(f.store), f.store) && old(f.len) <= f.len
      ensures |levels| == |g| && l < |levels| && |levels| >= old(|levels|)
      ensures SameBelow(l, levels, g, old(levels), old(g))
      ensures LevelsOk(l) && LinksOk(0, []) && TopOk(0, [])
    {
      if l == |levels| {
        LinkedNew(g, t);
        levels, g := levels + [Level([], [], [p], sep, 0)], g + [View([], [t])];
        return;
      }
      var lev := levels[l];
      ghost var v := g[l];
      assert LevelOk(f.store, f.len, lev, v, l, order);
      if |lev.children| == order {
        FlushAndAdd(l, sep, p, t, lev, v);
      } else {
        JoinLevel(l, sep.value, p, t, lev, v);
      }
    }

    /** Room in the accumulator: the separator joins the node with the child. */
    method JoinLevel(l: nat, sep: real, p: nat, ghost t: Tree, lev: Level, ghost v: View)
      requires order >= 3 && 1 <= l < |levels| && |g| == |levels| && levels[l] == lev && g[l] == v
               && |lev.children| < order
      requires p < f.len && Repr(f.store, p, t) && Tidy(t, l - 1, order) && Entries(t) != [] && sep == MinKey(t)
      requires LevelsOk(l) && LinksOk(l, [t]) && TopOk(l, [t])
      modifies this`levels, this`g
      ensures |levels| == |g| == old(|levels|) && SameBelow(l, levels, g, old(levels), old(g))
      ensures LevelsOk(l) && LinksOk(0, []) && TopOk(0, [])
    {
      assert LevelOk(f.store, f.len, lev, v, l, order);
      LinkedJoin(g, l, t);
      levels := levels[l := lev.(keys := lev.keys + [sep], children := lev.children + [p])];
      g := g[l := v.(kids := v.kids + [t])];
      assert LevelOk(f.store, f.len, levels[l], g[l], l, order);
    }

    /** The accumulator is full: write it, and start the next node with the new child. */
    method FlushLevel(l: nat, sep: Option<real>, p: nat, ghost t: Tree, lev: Level, ghost v: View)
      returns (q: nat, ghost n: Tree)
      requires order >= 3 && f.Wf() && 1 <= l < |levels| && |g| == |levels| && levels[l] == lev && g[l] == v
               && |lev.children| == order
      requires p < f.len && Repr(f.store, p, t) && Tidy(t, l - 1, order) && Entries(t) != [] && sep == Some(MinKey(t))
      requires LevelsOk(l) && LinksOk(l, [t]) && TopOk(l, [t])
      modifies this`f, this`nextId, this`levels, this`g
      ensures f.Wf() && Extends(old(f.store), f.store) && old(f.len) <= f.len
      ensures |levels| == |g| == old(|levels|) && SameBelow(l, levels, g, old(levels), old(g))
      ensures q < f.len && Repr(f.store, q, n) && Tidy(n, l, order) && Entries(n) != []
      ensures lev.sep == if v.written == [] then None else Some(MinKey(n))
      ensures LevelOk(f.store, f.len, levels[l], g[l], l, order) && LevelsOk(l + 1)
      ensures g[l].written == v.written + [n] && LinksOk(l + 1, [n]) && TopOk(l + 1, [n])
    {
      ghost var s0, l0 := f.store, f.len;
      n := TNode(lev.keys, v.kids);
      LevelNode(f.store, f.len, lev, v, l, order, nextId);
      q := WriteNode(l, n);
      LevelsExtend(l, s0, l0);
      ReprExtends(s0, f.store, p, t);
      LinkedFlush(g, l, n, t);
      levels := levels[l := Level([], [], [p], sep, lev.emitted + 1)];
      g := g[l := View(v.written + [n], [t])];
      assert LevelOk(f.store, f.len, levels[l], g[l], l, order);
    }

    /** A full level: flush it and hand the written node up. */
    method FlushAndAdd(l: nat, sep: Option<real>, p: nat, ghost t: Tree, lev: Level, ghost v: View)
      requires order >= 3 && f.Wf() && 1 <= l < |levels| && |g| == |levels| && levels[l] == lev && g[l] == v
               && |lev.children| == order
      requires p < f.len && Repr(f.store, p, t) && Tidy(t, l - 1, order) && Entries(t) != [] && sep == Some(MinKey(t))
      requires LevelsOk(l) && LinksOk(l, [t]) && TopOk(l, [t])
      modifies this`f, this`nextId, this`levels, this`g
      decreases |levels| - l, 0
      ensures f.Wf() && Extends(old(f.store), f.store) && old(f.len) <= f.len
      ensures |levels| == |g| && |levels| >= old(|levels|) && SameBelow(l, levels, g, old(levels), old(g))
      ensures LevelsOk(l) && LinksOk(0, []) && TopOk(0, [])
    {
      var q;
      ghost var n;
      q, n := FlushLevel(l, sep, p, t, lev, v);
      ghost var s1, l1, ls1, g1 := f.store, f.len, levels, g;
      AddChild(l + 1, lev.sep, q, n);
      SameStill(l, levels, g, ls1, g1, old(levels), old(g));
      OneLevelMore(l, s1, l1);
    }

    /** A level that was in order stays so above a file that has grown. */
    lemma OneLevelMore(l: nat, s: Store, len: nat)
      requires |g| == |levels| && 1 <= l < |levels| && LevelsOk(l + 1) && Extends(s, f.store) && len <= f.len
      requires LevelOk(s, len, levels[l], g[l], l, order)
      ensures LevelsOk(l)
    {
      LevelExtends(s, f.store, len, f.len, levels[l], g[l], l, order);
    }

    /** Values over the threshold get their own record in the destination. */
    method StoreValue(val: Bytes) returns (c: Cell)
      requires f.Wf()
      modifies this`f
      ensures f.Wf() && Extends(old(f.store), f.store) && old(f.len) <= f.len
      ensures Resolve(f.store, c) == Some(val) && (c.Marker? ==> c.off < f.len)
    {
      if |val| <= OUT_OF_LINE_THRESHOLD {
        return Inline(val);
      }
      c := Marker(f.len);
      AppendWf(f, ValueRec(val));
      f := f.Append(ValueRec(val));
    }

    method WriteLeaf() returns (p: nat)
      requires Valid() && levels != [] && |levels[0].keys| == order - 1
      modifies this`f, this`nextId
      ensures f.Wf() && Extends(old(f.store), f.store) && old(f.len) <= f.len
      ensures p < f.len && Repr(f.store, p, TLeaf(es)) && LevelsOk(1)
    {
      ghost var s0, l0 := f.store, f.len;
      p := WriteNode(0, TLeaf(es));
      LevelsExtend(1, s0, l0);
    }

    /** The leaf is full: write it, remember that `key` starts the next one, hand it up. */
    method FlushLeaf(key: real)
      requires Valid() && levels != [] && |levels[0].keys| == order - 1
      modifies this`f, this`nextId, this`levels, this`g, this`es
      ensures f.Wf() && LevelsOk(1) && LinksOk(0, []) && TopOk(0, []) && levels != []
      ensures Extends(old(f.store), f.store) && es == []
      ensures levels[0] == Level([], [], [], Some(key), |g[0].written|)
      ensures g[0].written != [] && AllTidy(g[0].written, 0, order) && AllFull(g[0].written, order)
      ensures Flat(g[0].written) == fedEs
    {
      ghost var leaf, w := TLeaf(es), g[0].written;
      var up := levels[0].sep;
      var p := WriteLeaf();
      LeafFull(levels[0], f.len, w, es, fedEs, order);
      LinkedLeaf(g, leaf);
      levels := levels[0 := Level([], [], [], Some(key), levels[0].emitted + 1)];
      g, es := g[0 := View(w + [leaf], g[0].kids)], [];
      ghost var lev0, v0 := levels[0], g[0];
      AddChild(1, up, p, leaf);
      assert levels[0] == lev0 && g[0] == v0;
    }

    /** Stream one entry; keys arrive in ascending order. */
    method AddEntry(key: real, val: Bytes)
      requires Valid() && (forall i :: 0 <= i < |fedEs| ==> fedEs[i].key < key)
      modifies this
      ensures Valid() && Extends(old(f.store), f.store)
      ensures |fedEs| == old(|fedEs|) + 1 && fedEs[..|fedEs| - 1] == old(fedEs)
      ensures fedEs[|fedEs| - 1].key == key && Resolve(f.store, fedEs[|fedEs| - 1].val) == Some(val)
    {
      if levels == [] {
        levels, g := [Level([], [], [], None, 0)], [View([], [])];
      }
      if |levels[0].keys| == order - 1 {
        FlushLeaf(key);
      }
      AppendEntry(key, val, old(f.store));
    }

    method AppendEntry(key: real, val: Bytes, ghost s0: Store)
      requires order >= 3 && f.Wf() && LevelsOk(1) && LinksOk(0, []) && TopOk(0, []) && levels != []
      requires LeavesReady(levels[0], f.len, g[0].written, es, fedEs, order, key) && fed == |fedEs|
      requires Ascending(fedEs) && (forall i :: 0 <= i < |fedEs| ==> fedEs[i].key < key)
      requires Extends(s0, f.store) && CellsOk(s0, fedEs)
      modifies this
      ensures Valid() && Extends(s0, f.store)
      ensures |fedEs| == old(|fedEs|) + 1 && fedEs[..|fedEs| - 1] == old(fedEs)
      ensures fedEs[|fedEs| - 1].key == key && Resolve(f.store, fedEs[|fedEs| - 1].val) == Some(val)
    {
      ghost var s1, l1 := f.store, f.len;
      var c := StoreValue(val);
      LevelsExtend(1, s1, l1);
      ResolvedExtends(s0, f.store, fedEs);
      LeafAppended(levels[0], l1, f.len, g[0].written, es, fedEs, order, key, c);
      FedAppended(f.store, fedEs, key, c);
      var lev := levels[0];
      levels := levels[0 := lev.(keys := lev.keys + [key], vals := lev.vals + [c])];
      fed, es, fedEs := fed + 1, es + [Entry(key, c)], fedEs + [Entry(key, c)];
    }

    /** Even an empty tree has a leaf. */
    method StartLeaf()
      requires Valid()
      modifies this`levels, this`g
      ensures levels != [] && |g| == |levels| && Finishing(0)
    {
      if levels == [] {
        levels, g := [Level([], [], [], None, 0)], [View([], [])];
      }
    }

    /** Write the partial nodes bottom-up; the only node of the highest level is the root. */
    method Finish() returns (root: nat, ghost t: Tree, ghost h: nat)
      requires Valid()
      modifies this
      ensures f.Wf() && Extends(old(f.store), f.store)
      ensures Repr(f.store, root, t) && root < f.len && Good(t, h, Inf, Inf, AnyFill(order), 0)
      ensures Entries(t) == old(fedEs) && Packed([t], h, order) && (Tidy(t, h, order) || t == TLeaf([]))
      ensures fedEs == old(fedEs) && fed == old(fed) && CellsOk(f.store, fedEs)
      ensures Resolved(f.store, fedEs) == old(Resolved(f.store, fedEs))
    {
      StartLeaf();
      var top := PromoteAll();
      root, t := WriteRoot(top);
      h := top;
      ResolvedExtends(old(f.store), f.store, fedEs);
    }

    /** Hand the last node of every level up until one level holds a single node that nothing is above. */
    method PromoteAll() returns (l: nat)
      requires levels != [] && |g| == |levels| && Finishing(0)
      modifies this`f, this`nextId, this`levels, this`g
      ensures Extends(old(f.store), f.store)
      ensures |g| == |levels| && l == |levels| - 1 && Finishing(l)
    {
      l := 0;
      while !(levels[l].emitted == 0 && l == |levels| - 1)
        invariant Extends(old(f.store), f.store)
        invariant l < |levels| && |g| == |levels| && Finishing(l)
        decreases |g[l].written|
      {
        l := PromoteLevel(l);
      }
    }

    /** The state of the loader while its levels below `l` are complete. */
    ghost predicate Finishing(l: nat)
      reads this
      requires l < |levels| && |g| == |levels|
    {
      && order >= 3 && f.Wf() && LevelsOk(if l == 0 then 1 else l) && LinksOk(0, []) && TopOk(0, []) && LowerDone(l)
    }

    /** A level that has written a node, or has a level above it, is not the root's. */
    lemma NotTop(l: nat)
      requires l < |levels| && |g| == |levels| && TopOk(0, []) && levels[l].emitted == |g[l].written|
      requires levels[l].emitted != 0 || l != |levels| - 1
      ensures g[l].written != []
    {
    }

    /** The only node of the highest level. */
    method WriteRoot(l: nat) returns (root: nat, ghost t: Tree)
      requires l == |levels| - 1 && |g| == |levels| && Finishing(l)
      modifies this`f, this`nextId
      ensures f.Wf() && Extends(old(f.store), f.store)
      ensures Repr(f.store, root, t) && root < f.len && Good(t, l, Inf, Inf, AnyFill(order), 0)
      ensures Entries(t) == fedEs && Packed([t], l, order) && (Tidy(t, l, order) || t == TLeaf([]))
    {
      assert g[l].written == [];
      root, t := WriteLevel(l);
      RootDone(g[l].written, t, l, order, fedEs);
    }

    /** Before finishing level `l`: everything lower is written and packed. */
    ghost predicate LowerDone(l: nat)
      reads this
      requires l < |levels| && |g| == |levels| && order >= 3
    {
      && Ascending(fedEs)
      && if l == 0 then LeavesOk(levels[0], f.len, g[0].written, es, fedEs, order)
         else
           && Packed(g[l - 1].written, l - 1, order) && AllTidy(g[l - 1].written, l - 1, order)
           && Flat(g[l - 1].written) == fedEs && |g[l - 1].written| >= 2
    }

    /** The node level `l` is still filling; with it the level is complete and packed. */
    lemma LastNode(l: nat) returns (n: Tree)
      requires order >= 3 && f.Wf() && l < |levels| && |g| == |levels|
      requires LevelsOk(if l == 0 then 1 else l) && LinksOk(0, []) && LowerDone(l)
      ensures n == if l == 0 then TLeaf(es) else TNode(levels[l].keys, g[l].kids)
      ensures NodeRepr(f.store, Node(nextId, l == 0, levels[l].keys, levels[l].vals, levels[l].children), f.len, n)
      ensures Packed(g[l].written + [n], l, order) && Flat(g[l].written + [n]) == fedEs
      ensures l > 0 || es != [] ==> Tidy(n, l, order) && Entries(n) != []
      ensures AllTidy(g[l].written, l, order) && AllFull(g[l].written, order)
      ensures g[l].written != [] ==> levels[l].sep == Some(MinKey(n)) && Entries(n) != []
    {
      if l == 0 {
        n := TLeaf(es);
        LeavesPacked(g[0].written, es, order);
      } else {
        assert LevelOk(f.store, f.len, levels[l], g[l], l, order);
        n := TNode(levels[l].keys, g[l].kids);
        LevelNode(f.store, f.len, levels[l], g[l], l, order, nextId);
        LinkedClose(g, l, n);
        LevelPacked(g[l].written, n, g[l - 1].written, l, order);
      }
    }

    /** Write the node level `l` is still filling. */
    method WriteLevel(l: nat) returns (p: nat, ghost n: Tree)
      requires order >= 3 && f.Wf() && l < |levels| && |g| == |levels|
      requires LevelsOk(if l == 0 then 1 else l) && LinksOk(0, []) && LowerDone(l)
      modifies this`f, this`nextId
      ensures f.Wf() && Extends(old(f.store), f.store) && old(f.len) <= f.len && LevelsOk(l + 1)
      ensures p < f.len && Repr(f.store, p, n)
      ensures n == if l == 0 then TLeaf(es) else TNode(levels[l].keys, g[l].kids)
      ensures Packed(g[l].written + [n], l, order) && Flat(g[l].written + [n]) == fedEs
      ensures l > 0 || es != [] ==> Tidy(n, l, order) && Entries(n) != []
      ensures AllTidy(g[l].written, l, order) && AllFull(g[l].written, order)
      ensures g[l].written != [] ==> levels[l].sep == Some(MinKey(n)) && Entries(n) != []
    {
      ghost var s0, l0 := f.store, f.len;
      n := LastNode(l);
      p := WriteNode(l, n);
      LevelsExtend(l + 1, s0, l0);
    }

    /** Write the last node of level `l` and start the level afresh; the node is on its way up. */
    method CloseLevel(l: nat) returns (up: Option<real>, p: nat, ghost n: Tree)
      requires l < |levels| && |g| == |levels| && g[l].written != [] && Finishing(l)
      modifies this`f, this`nextId, this`levels, this`g
      ensures f.Wf() && Extends(old(f.store), f.store) && |g| == |levels| == old(|levels|)
      ensures g[l].written == old(g[l].written) + [n] && l + 1 < |levels|
      ensures p < f.len && Repr(f.store, p, n) && Tidy(n, l, order) && Entries(n) != [] && up == Some(MinKey(n))
      ensures LevelsOk(l + 1) && LinksOk(l + 1, [n]) && TopOk(l + 1, [n])
      ensures Packed(g[l].written, l, order) && Flat(g[l].written) == fedEs && AllTidy(old(g[l].written), l, order)
    {
      ghost var w := g[l].written;
      up := levels[l].sep;
      p, n := WriteLevel(l);
      ghost var kids0 := g[l].kids;
      if l == 0 {
        LinkedLeaf(g, n);
      } else {
        LinkedClose(g, l, n);
      }
      levels := levels[l := Level([], [], [], None, levels[l].emitted + 1)];
      g := g[l := View(w + [n], if l == 0 then kids0 else [])];
    }

    /** A level below the top: its last node is written and handed up. */
    method PromoteLevel(l: nat) returns (above: nat)
      requires l < |levels| && |g| == |levels| && Finishing(l) && !(levels[l].emitted == 0 && l == |levels| - 1)
      modifies this`f, this`nextId, this`levels, this`g
      ensures Extends(old(f.store), f.store) && above == l + 1
      ensures |g| == |levels| && above < |levels| && Finishing(above)
      ensures |g[above].written| < old(|g[l].written|)
    {
      assert l >= 1 ==> LevelOk(f.store, f.len, levels[l], g[l], l, order);
      NotTop(l);
      above := l + 1;
      ghost var w := g[l].written;
      ghost var n;
      var up, p;
      up, p, n := CloseLevel(l);
      HandUp(l, up, p, n, w);
    }

    method HandUp(l: nat, up: Option<real>, p: nat, ghost n: Tree, ghost w: seq<Tree>)
      requires order >= 3 && f.Wf() && l < |levels| && |g| == |levels| && w != [] && g[l].written == w + [n]
      requires p < f.len && Repr(f.store, p, n) && Tidy(n, l, order) && Entries(n) != []
      requires up == Some(MinKey(n)) && l + 1 < |levels|
      requires LevelsOk(l + 1) && LinksOk(l + 1, [n]) && TopOk(l + 1, [n])
      requires Ascending(fedEs) && Packed(w + [n], l, order) && Flat(w + [n]) == fedEs && AllTidy(w, l, order)
      modifies this`f, this`nextId, this`levels, this`g
      ensures Extends(old(f.store), f.store)
      ensures |g| == |levels| && l + 1 < |levels| && Finishing(l + 1)
      ensures |g[l + 1].written| < |w|
    {
      AddChild(l + 1, up, p, n);
      assert g[l].written == w + [n];
      FewerAbove(f.store, f.len, g, l, levels[l + 1], order);
    }
  }
}
