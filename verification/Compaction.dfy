// Rebuilding a tree into a fresh file: the source is walked in key order into the bulk loader.
module Compaction {
  import opened SortedEntries
  import opened RecordFile
  import opened TreeModel
  import opened NodeFacts
  import opened BPlusTree
  import opened TreeRead
  import opened TreeVerify
  import opened BulkLoad

  /** The loader has taken exactly the first `pos` entries of the source, values included. */
  ghost predicate FedTo(s: Store, whole: seq<Entry<Cell>>, pos: nat, bl: Loader)
    reads bl
  {
    && bl.Valid() && pos <= |whole| && Ascending(whole) && CellsOk(s, whole)
    && Resolved(bl.f.store, bl.fedEs) == Resolved(s, whole[..pos])
  }

  lemma FedBelow(s: Store, whole: seq<Entry<Cell>>, pos: nat, bl: Loader)
    requires FedTo(s, whole, pos, bl) && pos < |whole|
    ensures forall i :: 0 <= i < |bl.fedEs| ==> bl.fedEs[i].key < whole[pos].key
  {
    ResolvedShape(bl.f.store, bl.fedEs);
    ResolvedShape(s, whole[..pos]);
    forall i | 0 <= i < |bl.fedEs| ensures bl.fedEs[i].key < whole[pos].key {
      assert Resolved(bl.f.store, bl.fedEs)[i].key == bl.fedEs[i].key;
      assert whole[..pos][i] == whole[i];
    }
  }

  lemma ResolvedSnoc(s: Store, es: seq<Entry<Cell>>, x: Entry<Cell>)
    ensures Resolved(s, es + [x]) == Resolved(s, es) + [Entry(x.key, ValueOf(s, x.val))]
  {
    ResolvedConcat(s, es, [x]);
    assert [x][1..] == [];
    assert Resolved(s, [x]) == [Entry(x.key, ValueOf(s, x.val))] + Resolved(s, []);
  }

  lemma FedOneMore(s: Store, s0: Store, s1: Store, whole: seq<Entry<Cell>>, pos: nat, fed0: seq<Entry<Cell>>,
                   x: Entry<Cell>)
    requires pos < |whole| && Extends(s0, s1) && CellsOk(s0, fed0)
    requires Resolved(s0, fed0) == Resolved(s, whole[..pos])
    requires x.key == whole[pos].key && ValueOf(s1, x.val) == ValueOf(s, whole[pos].val)
    ensures Resolved(s1, fed0 + [x]) == Resolved(s, whole[..pos + 1])
  {
    ResolvedExtends(s0, s1, fed0);
    SnocSame(s1, fed0, x, s, whole[..pos], whole[pos]);
    assert whole[..pos + 1] == whole[..pos] + [whole[pos]];
  }

  lemma SnocSame(s1: Store, a: seq<Entry<Cell>>, x: Entry<Cell>, s2: Store, b: seq<Entry<Cell>>, y: Entry<Cell>)
    requires Resolved(s1, a) == Resolved(s2, b) && x.key == y.key && ValueOf(s1, x.val) == ValueOf(s2, y.val)
    ensures Resolved(s1, a + [x]) == Resolved(s2, b + [y])
  {
    ResolvedSnoc(s1, a, x);
    ResolvedSnoc(s2, b, y);
  }

  method FeedLeaf(s: Store, nd: Node, bl: Loader, ghost whole: seq<Entry<Cell>>, ghost pos: nat, ghost below: nat,
                  ghost t: Tree)
    requires FedTo(s, whole, pos, bl) && t.TLeaf? && NodeRepr(s, nd, below, t)
    requires pos + |t.es| <= |whole| && whole[pos..pos + |t.es|] == t.es
    modifies bl
    ensures FedTo(s, whole, pos + |t.es|, bl) && bl.f.Wf()
  {
    for i := 0 to |nd.keys|
      invariant FedTo(s, whole, pos + i, bl)
    {
      assert whole[pos..pos + |t.es|][i] == whole[pos + i] == Entry(nd.keys[i], nd.vals[i]);
      FeedEntry(s, nd.keys[i], nd.vals[i], bl, whole, pos + i);
    }
  }

  /** Resolve one value of the source and hand the entry to the loader. */
  method FeedEntry(s: Store, key: real, val: Cell, bl: Loader, ghost whole: seq<Entry<Cell>>, ghost pos: nat)
    requires FedTo(s, whole, pos, bl) && pos < |whole| && whole[pos] == Entry(key, val)
    modifies bl
    ensures FedTo(s, whole, pos + 1, bl)
  {
    assert Resolve(s, whole[pos].val).Some?;
    FedBelow(s, whole, pos, bl);
    var v := Resolve(s, val).value;
    ghost var s0, fed0 := bl.f.store, bl.fedEs;
    bl.AddEntry(key, v);
    FedOneMore(s, s0, bl.f.store, whole, pos, fed0, bl.fedEs[|fed0|]);
    assert bl.fedEs == fed0 + [bl.fedEs[|fed0|]];
  }

  /** In-order walk of the source. */
  method Walk(s: Store, ptr: nat, bl: Loader, depth: nat, ghost whole: seq<Entry<Cell>>, ghost pos: nat,
              ghost t: Tree, ghost h: nat, ghost lo: Bound, ghost hi: Bound, ghost c: Config)
    returns (e: Status)
    requires FedTo(s, whole, pos, bl) && Repr(s, ptr, t) && Good(t, h, lo, hi, c, 0) && c == AnyFill(c.order)
    requires pos + |Entries(t)| <= |whole| && whole[pos..pos + |Entries(t)|] == Entries(t)
    modifies bl
    decreases h, 2
    ensures e == if depth + h > MAX_DEPTH then TooDeep else Ok
    ensures bl.Valid()
    ensures e == Ok ==> FedTo(s, whole, pos + |Entries(t)|, bl)
  {
    if depth > MAX_DEPTH {
      return TooDeep;
    }
    ReprParses(s, ptr, t);
    var nd := ParseNode(s, ptr).1;
    if nd.isLeaf {
      FeedLeaf(s, nd, bl, whole, pos, ptr, t);
      return Ok;
    }
    e := WalkKids(s, nd, bl, depth, whole, pos, ptr, t, h, lo, hi, c);
  }

  method WalkKids(s: Store, nd: Node, bl: Loader, depth: nat, ghost whole: seq<Entry<Cell>>, ghost pos: nat,
                  ghost below: nat,
                  ghost t: Tree, ghost h: nat, ghost lo: Bound, ghost hi: Bound, ghost c: Config)
    returns (e: Status)
    requires FedTo(s, whole, pos, bl) && t.TNode? && NodeRepr(s, nd, below, t) && Good(t, h, lo, hi, c, 0)
             && c == AnyFill(c.order)
    requires pos + |Flat(t.kids)| <= |whole| && whole[pos..pos + |Flat(t.kids)|] == Flat(t.kids)
    modifies bl
    decreases h, 1
    ensures e == if depth + h > MAX_DEPTH then TooDeep else Ok
    ensures bl.Valid()
    ensures e == Ok ==> FedTo(s, whole, pos + |Flat(t.kids)|, bl)
  {
    assert t.kids[..0] == [];
    for i := 0 to |nd.children|
      invariant FedTo(s, whole, pos + |Flat(t.kids[..i])|, bl)
      invariant i > 0 ==> depth + h <= MAX_DEPTH
    {
      e := WalkKid(s, nd, i, bl, depth, whole, pos, below, t, h, lo, hi, c);
      if e != Ok {
        return;
      }
    }
    assert t.kids[..|t.kids|] == t.kids;
    e := Ok;
  }

  /** Child `i` of a node whose entries start at `pos`: its tree, and where its entries lie. */
  lemma KidReady(s: Store, nd: Node, below: nat, whole: seq<Entry<Cell>>, pos: nat, t: Tree, h: nat, lo: Bound,
                 hi: Bound, c: Config, i: nat)
    requires t.TNode? && NodeRepr(s, nd, below, t) && Good(t, h, lo, hi, c, 0) && c == AnyFill(c.order) && i < |t.kids|
    requires pos + |Flat(t.kids)| <= |whole| && whole[pos..pos + |Flat(t.kids)|] == Flat(t.kids)
    ensures i < |nd.children| && Repr(s, nd.children[i], t.kids[i])
    ensures h > 0 && Good(t.kids[i], h - 1, KidLo(t.keys, lo, i), KidHi(t.keys, hi, i), c, 0)
    ensures var p := pos + |Flat(t.kids[..i])|; var n := |Entries(t.kids[i])|;
            p + n <= |whole| && whole[p..p + n] == Entries(t.kids[i]) && p + n == pos + |Flat(t.kids[..i + 1])|
  {
    KidSlice(whole, pos, t.kids, i);
    FlatUpTo(t.kids, i);
  }

  method WalkKid(s: Store, nd: Node, i: nat, bl: Loader, depth: nat, ghost whole: seq<Entry<Cell>>, ghost pos: nat,
                 ghost below: nat,
                 ghost t: Tree, ghost h: nat, ghost lo: Bound, ghost hi: Bound, ghost c: Config)
    returns (e: Status)
    requires t.TNode? && NodeRepr(s, nd, below, t) && Good(t, h, lo, hi, c, 0) && c == AnyFill(c.order) && i < |t.kids|
    requires FedTo(s, whole, pos + |Flat(t.kids[..i])|, bl)
    requires pos + |Flat(t.kids)| <= |whole| && whole[pos..pos + |Flat(t.kids)|] == Flat(t.kids)
    modifies bl
    decreases h, 0
    ensures e == if depth + h > MAX_DEPTH then TooDeep else Ok
    ensures bl.Valid()
    ensures e == Ok ==> FedTo(s, whole, pos + |Flat(t.kids[..i + 1])|, bl)
  {
    KidReady(s, nd, below, whole, pos, t, h, lo, hi, c, i);
    e := Walk(s, nd.children[i], bl, depth + 1, whole, pos + |Flat(t.kids[..i])|, t.kids[i], h - 1,
              KidLo(t.keys, lo, i), KidHi(t.keys, hi, i), c);
  }

  lemma FlatUpTo(kids: seq<Tree>, i: nat)
    requires i < |kids|
    ensures Flat(kids[..i + 1]) == Flat(kids[..i]) + Entries(kids[i])
  {
    assert kids[..i + 1] == kids[..i] + [kids[i]];
    FlatConcat(kids[..i], [kids[i]]);
    FlatOne(kids[i]);
  }

  lemma MidSlice<T>(w: seq<T>, pos: nat, a: seq<T>, b: seq<T>, c: seq<T>)
    requires pos + |a + b + c| <= |w| && w[pos..pos + |a + b + c|] == a + b + c
    ensures w[pos + |a|..pos + |a| + |b|] == b
  {
    var whole, s := a + b + c, w[pos + |a|..pos + |a| + |b|];
    forall k | 0 <= k < |b| ensures s[k] == b[k] {
      var j := |a| + k;
      assert w[pos..pos + |whole|][j] == w[pos + j];
      assert whole[j] == b[k];
    }
  }

  lemma KidSlice(whole: seq<Entry<Cell>>, pos: nat, kids: seq<Tree>, i: nat)
    requires i < |kids| && pos + |Flat(kids)| <= |whole| && whole[pos..pos + |Flat(kids)|] == Flat(kids)
    ensures var p := pos + |Flat(kids[..i])|;
            p + |Entries(kids[i])| <= |whole| && whole[p..p + |Entries(kids[i])|] == Entries(kids[i])
  {
    FlatAround(kids, i);
    MidSlice(whole, pos, Flat(kids[..i]), Entries(kids[i]), Flat(kids[i + 1..]));
  }

  /**
   * Compact a tree: the result holds the same entries with the same values, in a tree whose every
   * level is as full as it can be and whose separators are the smallest keys to their right.
   */
  method Compact(src: Bpt) returns (e: Status, f: File, meta: Meta, ghost t: Tree, ghost h: nat)
    requires src.Valid()
    ensures e == if src.height > MAX_DEPTH then TooDeep else Ok
    ensures meta.order == src.order >= 3 && meta.minKeys == src.minKeys
    ensures e == Ok ==> f.Wf() && Readable(f.store, meta.root, t, h, meta.order) && Packed([t], h, meta.order)
    ensures e == Ok ==> Tidy(t, h, meta.order) || t == TLeaf([])
    ensures e == Ok ==> VersionOk(f.store, Version(meta, t, h, FillAfter(meta))) && meta.root < f.len - META_SIZE
    ensures e == Ok && meta.size < Pow2(MAX_DEPTH + 1) ==> h <= MAX_DEPTH
    ensures e == Ok ==> MapOf(Resolved(f.store, Entries(t))) == src.Contents() && meta.size == src.size == |Entries(t)|
    ensures e == Ok ==>
              META_SIZE <= f.len && f.len - META_SIZE in f.store && f.store[f.len - META_SIZE] == MetaRec(meta)
  {
    meta, t, h := Meta(src.order, src.minKeys, 0, 0, 0), TLeaf([]), 0;
    EmptyFileWf();
    f := File(map[], 0, map[], 0);
    AppendWf(f, Header);
    f := f.Append(Header);
    var bl;
    e, bl := LoadAll(src, f);
    if e != Ok {
      return;
    }
    f, meta, t, h := WriteOut(bl, src.minKeys);
  }

  /** What a compacted tree guarantees about its fill: that of `Edge`, if the source was created by this code. */
  ghost function FillAfter(m: Meta): Fill {
    if m.order >= 3 && m.minKeys == MinKeysFor(m.order) then Edge else Sparse
  }

  lemma CompactedVersion(s: Store, meta: Meta, t: Tree, h: nat)
    requires MinOk(meta, Loose) && Repr(s, meta.root, t) && meta.size == |Entries(t)| && CellsOk(s, Entries(t))
    requires Packed([t], h, meta.order) && (Tidy(t, h, meta.order) || t == TLeaf([])) && EntriesOk(Entries(t), Inf, Inf)
    ensures VersionOk(s, Version(meta, t, h, FillAfter(meta)))
  {
    PackedFilled(t, h, meta.order);
    var c := FillConfig(meta.order, FillAfter(meta));
    GoodWeaken(t, h, Inf, Inf, FillConfig(meta.order, Edge), RootMin(Edge, h), c, RootMin(FillAfter(meta), h));
  }

  /** Finish a load and end its file with the metadata. */
  method WriteOut(bl: Loader, minKeys: nat) returns (f: File, meta: Meta, ghost t: Tree, ghost h: nat)
    requires bl.Valid() && 1 <= minKeys < bl.order
    modifies bl
    ensures f.Wf() && Readable(f.store, meta.root, t, h, bl.order) && Packed([t], h, bl.order)
    ensures Tidy(t, h, bl.order) || t == TLeaf([])
    ensures VersionOk(f.store, Version(meta, t, h, FillAfter(meta))) && meta.root < f.len - META_SIZE
    ensures |Entries(t)| < Pow2(MAX_DEPTH + 1) ==> h <= MAX_DEPTH
    ensures Resolved(f.store, Entries(t)) == old(Resolved(bl.f.store, bl.fedEs))
    ensures meta == Meta(bl.order, minKeys, |Entries(t)|, meta.root, meta.nextId) && |Entries(t)| == old(|bl.fedEs|)
    ensures META_SIZE <= f.len && f.len - META_SIZE in f.store && f.store[f.len - META_SIZE] == MetaRec(meta)
  {
    var root;
    root, t, h := bl.Finish();
    meta := Meta(bl.order, minKeys, bl.fed, root, bl.nextId);
    f := AppendMeta(bl.f, meta, t);
    ResolvedExtends(bl.f.store, f.store, bl.fedEs);
    PackedHeight(t, h, meta.order);
    RoutedEntries(t, h, Inf, Inf, AnyFill(bl.order));
    CompactedVersion(f.store, meta, t, h);
  }

  /**
   * The verifier accepts what compaction writes: for every tree of a realistic size the compaction
   * succeeds and the new file passes.
   */
  method CompactAndVerify(src: Bpt) returns (e: Status, verdict: Status, f: File, meta: Meta)
    requires src.Valid()
    ensures e == if src.height > MAX_DEPTH then TooDeep else Ok
    ensures e == Ok && src.size < Pow2(MAX_DEPTH + 1) ==> verdict == Ok && meta.size == src.size
    ensures src.size < DeepSize(src.fill) ==> e == Ok
  {
    ghost var t, h;
    e, f, meta, t, h := Compact(src);
    if src.height > MAX_DEPTH {
      DeepIsLarge(src.f.store, src.Now());
    }
    verdict := Ok;
    if e == Ok {
      ghost var t1, h1;
      verdict, t1, h1 := Verify(f.store, meta.root, meta.order, meta.size, h <= MAX_DEPTH, t, h);
    }
  }

  /**
   * Compact into a new file and open that: a handle as good as any, with the same contents.  Whatever
   * fails, the source is as it was.
   */
  method CompactAndOpen(src: Bpt, hostOk: bool) returns (e: Status, t: Bpt)
    requires src.Valid()
    ensures e == if src.height > MAX_DEPTH then TooDeep else if hostOk then Ok else HostError
    ensures e == Ok ==> fresh(t) && t.Valid() && !t.readOnly && t.Contents() == src.Contents() && t.size == src.size
    ensures e == Ok ==> t.order == src.order && t.minKeys == src.minKeys
    ensures e == Ok ==> t.fill == (if src.minKeys == MinKeysFor(src.order) then Edge else Sparse)
    ensures e == Ok && t.height > 0 ==> t.size >= Pow2(t.height)
  {
    t := src;
    var f, meta;
    ghost var tree, h;
    e, f, meta, tree, h := Compact(src);
    if e != Ok {
      return;
    }
    if !hostOk {
      return HostError, t;
    }
    f := f.Commit();
    ghost var v := Version(meta, tree, h, FillAfter(meta));
    PackedHeight(tree, h, meta.order);
    e, t := Bpt.Open(f, true, v);
  }

  /** Stream a whole tree into a fresh loader. */
  method LoadAll(src: Bpt, f: File) returns (e: Status, bl: Loader)
    requires src.Valid() && f.Wf()
    ensures fresh(bl) && bl.Valid() && bl.order == src.order
    ensures e == if src.height > MAX_DEPTH then TooDeep else Ok
    ensures e == Ok ==> Resolved(bl.f.store, bl.fedEs) == Resolved(src.f.store, Entries(src.tree))
    ensures e == Ok ==> |bl.fedEs| == src.size
  {
    bl := new Loader(src.order, f);
    ghost var whole := Entries(src.tree);
    VersionsVerify(src.f.store, src.Now());
    RoutedEntries(src.tree, src.height, Inf, Inf, src.Cfg());
    assert whole[0..|whole|] == whole && whole[..0] == [];
    e := Walk(src.f.store, src.root, bl, 0, whole, 0, src.tree, src.height, Inf, Inf, AnyFill(src.order));
    assert whole[..|whole|] == whole;
    ResolvedShape(bl.f.store, bl.fedEs);
    ResolvedShape(src.f.store, whole);
  }

  /** The trailer and the metadata that end the compacted file. */
  method AppendMeta(f0: File, meta: Meta, ghost t: Tree) returns (f: File)
    requires f0.Wf() && Repr(f0.store, meta.root, t) && meta.root < f0.len
    ensures meta.root < f.len - META_SIZE
    ensures f.Wf() && Extends(f0.store, f.store) && Repr(f.store, meta.root, t)
    ensures META_SIZE <= f.len && f.len - META_SIZE in f.store && f.store[f.len - META_SIZE] == MetaRec(meta)
  {
    f := f0;
    var commitLen := f.len + META_SIZE + TRAILER_SIZE;
    if commitLen <= UINT32_MAX {
      AppendWf(f, Trailer(commitLen));
      f := f.Append(Trailer(commitLen));
    }
    AppendWf(f, MetaRec(meta));
    f := f.Append(MetaRec(meta));
    ReprExtends(f0.store, f.store, meta.root, t);
  }
}
