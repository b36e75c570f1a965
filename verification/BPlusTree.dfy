// The B+ tree handle: add and delete by copy-on-write over the append-only file.
module BPlusTree {
  import opened SortedEntries
  import opened RecordFile
  import opened TreeModel
  import opened NodeFacts
  import opened Keys

  /** First index whose key is above `key`: the child the descent takes. */
  method UpperBound(keys: seq<real>, key: real) returns (lo: nat)
    requires forall i, j :: 0 <= i < j < |keys| ==> keys[i] < keys[j]
    ensures RoutesTo(keys, key, lo)
  {
    lo := 0;
    var hi := |keys|;
    while lo < hi
      invariant lo <= hi <= |keys|
      invariant forall j :: 0 <= j < lo ==> keys[j] <= key
      invariant forall j :: hi <= j < |keys| ==> key < keys[j]
    {
      var mid := lo + (hi - lo) / 2;
      if key >= keys[mid] {
        lo := mid + 1;
      } else {
        hi := mid;
      }
    }
  }

  /** First index whose key is at or above `key`: the insert position. */
  method LowerBound(keys: seq<real>, key: real) returns (lo: nat)
    requires forall i, j :: 0 <= i < j < |keys| ==> keys[i] < keys[j]
    ensures lo <= |keys|
    ensures forall j :: 0 <= j < lo ==> keys[j] < key
    ensures forall j :: lo <= j < |keys| ==> key <= keys[j]
  {
    lo := 0;
    var hi := |keys|;
    while lo < hi
      invariant lo <= hi <= |keys|
      invariant forall j :: 0 <= j < lo ==> keys[j] < key
      invariant forall j :: hi <= j < |keys| ==> key <= keys[j]
    {
      var mid := lo + (hi - lo) / 2;
      if key > keys[mid] {
        lo := mid + 1;
      } else {
        hi := mid;
      }
    }
  }

  /** Cut a node at the midpoint used by insert and by rebalancing alike. */
  method CutInTwo(nd: Node, rightId: nat) returns (left: Node, sep: real, right: Node)
    requires NodeShapeOk(nd) && |nd.keys| >= 3
    ensures (left, sep, right) == Cut(nd, rightId)
  {
    if nd.isLeaf {
      var mid := (|nd.keys| + 1) / 2;
      left := MakeLeaf(nd.id, nd.keys[..mid], nd.vals[..mid]);
      right := MakeLeaf(rightId, nd.keys[mid..], nd.vals[mid..]);
      sep := nd.keys[mid];
    } else {
      var mid := (|nd.keys| + 1) / 2 - 1;
      left := MakeInternal(nd.id, nd.keys[..mid], nd.children[..mid + 1]);
      right := MakeInternal(rightId, nd.keys[mid + 1..], nd.children[mid + 1..]);
      sep := nd.keys[mid];
    }
  }

  /** The concatenation of two neighbours, with the parent's separator between internal ones. */
  method Concatenate(left: Node, sep: real, right: Node) returns (n: Node)
    ensures n == Joined(left, sep, right)
  {
    if left.isLeaf {
      n := MakeLeaf(left.id, left.keys + right.keys, left.vals + right.vals);
    } else {
      n := MakeInternal(left.id, left.keys + [sep] + right.keys, left.children + right.children);
    }
  }

  class Bpt {
    var f: File
    var root: nat
    var nextId: nat
    var size: nat
    var order: nat
    var minKeys: nat
    var readOnly: bool
    ghost var tree: Tree
    ghost var height: nat
    ghost var fill: Fill

    ghost function Cfg(): Config
      reads this
    {
      FillConfig(order, fill)
    }

    ghost function Now(): Version
      reads this
    {
      Version(Meta(order, minKeys, size, root, nextId), tree, height, fill)
    }

    ghost predicate Valid()
      reads this
    {
      f.Clean() && VersionOk(f.store, Now()) && (readOnly || TailIsMeta())
    }

    /** The minimum fill that the code works with. */
    ghost predicate MinSet()
      reads this
    {
      MinOk(Meta(order, minKeys, size, root, nextId), fill)
    }

    /** The last record of the file is the metadata of this very state. */
    ghost predicate TailIsMeta()
      reads this
    {
      && META_SIZE <= f.len && f.len - META_SIZE in f.store
      && f.store[f.len - META_SIZE] == MetaRec(Meta(order, minKeys, size, root, nextId))
    }

    /** The finite map from key rank to value that the tree holds. */
    ghost function Contents(): map<real, Bytes>
      reads this
    {
      MapOf(Resolved(f.store, Entries(tree)))
    }

    /** File state in the middle of an operation: appends only, nothing at the host yet. */
    twostate predicate Appended()
      reads this
    {
      f.Wf() && Extends(old(f.store), f.store) && f.host == old(f.host) && f.hostLen == old(f.hostLen)
          && old(f.len) <= f.len
    }

    method SaveNode(n: Node, ghost t: Tree) returns (off: nat)
      requires f.Wf() && NodeRepr(f.store, n, f.len, t)
      modifies this`f
      ensures Appended() && off < f.len && f.len == old(f.len) + Size(NodeRec(n))
      ensures Repr(f.store, off, t)
    {
      off := f.len;
      ghost var s := f.store;
      AppendWf(f, NodeRec(n));
      f := f.Append(NodeRec(n));
      NodeReprExtends(s, f.store, n, off, t);
    }

    /** Values over the threshold get their own record, and the leaf a marker. */
    method StoreValue(val: Bytes) returns (c: Cell)
      requires f.Wf()
      modifies this`f
      ensures Appended()
      ensures Resolve(f.store, c) == Some(val)
      ensures c.Marker? ==> c.off < f.len
    {
      if |val| <= OUT_OF_LINE_THRESHOLD {
        return Inline(val);
      }
      var off := f.len;
      AppendWf(f, ValueRec(val));
      f := f.Append(ValueRec(val));
      c := Marker(off);
    }

    // ---- insert ----

    method AddToLeaf(nd: Node, key: real, val: Bytes, ghost below: nat, ghost t: Tree, ghost lo: Bound, ghost hi: Bound)
      returns (res: AddRes, ghost cell: Cell, ghost a: Tree, ghost b: Tree)
      requires f.Wf() && below <= f.len && order >= 3
      requires t.TLeaf? && NodeRepr(f.store, nd, below, t) && EntriesOk(t.es, lo, hi) && |t.es| < order
      requires InRange(lo, hi, key)
      modifies this`f, this`nextId
      ensures Appended()
      ensures Resolve(f.store, cell) == Some(val)
      ensures AddResOk(f.store, f.len, res, cell, a, b, t, 0, lo, hi, Cfg(), key)
    {
      assert forall j :: 0 <= j < |t.es| ==> t.es[j].key == nd.keys[j];
      var i := LowerBound(nd.keys, key);
      var nb := StoreValue(val);
      NodeReprExtends(old(f.store), f.store, nd, below, t);
      cell := nb;
      b := TLeaf([]);
      if i < |nd.keys| && nd.keys[i] == key {
        res := Whole(MakeLeaf(nd.id, nd.keys, nd.vals[i := nb]), true);
        a := TLeaf(Put(t.es, key, nb));
        LeafUpdate(f.store, nd, below, f.len, t, i, key, nb, lo, hi, b, Cfg());
        return;
      }
      var wk := nd.keys[..i] + [key] + nd.keys[i..];
      var wv := nd.vals[..i] + [nb] + nd.vals[i..];
      a := TLeaf(Put(t.es, key, nb));
      LeafInsert(f.store, nd, below, f.len, t, i, key, nb, lo, hi);
      if |wk| < order {
        res := Whole(MakeLeaf(nd.id, wk, wv), false);
      } else {
        res, a, b := Split(MakeLeaf(nd.id, wk, wv), cell, a, t, 0, lo, hi, key);
      }
    }

    /** Cut an overfull node in two; the right half gets a new id. */
    method Split(nd: Node, ghost cell: Cell, ghost whole: Tree, ghost t: Tree, ghost h: nat, ghost lo: Bound,
                 ghost hi: Bound,
                 ghost key: real)
      returns (res: AddRes, ghost a: Tree, ghost b: Tree)
      requires order >= 3
      requires NodeRepr(f.store, nd, f.len, whole) && Routed(whole, h, lo, hi, Cfg()) && NKeys(whole) == order
      requires Entries(whole) == Put(Entries(t), key, cell) && !HasKey(Entries(t), key)
      modifies this`nextId
      ensures AddResOk(f.store, f.len, res, cell, a, b, t, h, lo, hi, Cfg(), key)
    {
      var left, sep, right := CutInTwo(nd, nextId);
      a, b := CutTrees(f.store, nd, nextId, f.len, whole, h, lo, hi, Cfg());
      res := Halves(left, sep, right);
      nextId := nextId + 1;
    }

    method AddNode(ptr: nat, key: real, val: Bytes, depth: nat,
                   ghost t: Tree, ghost h: nat, ghost lo: Bound, ghost hi: Bound)
      returns (e: Status, res: AddRes, ghost cell: Cell, ghost a: Tree, ghost b: Tree)
      requires f.Wf() && order >= 3
      requires Repr(f.store, ptr, t) && Good(t, h, lo, hi, Cfg(), 0)
      requires InRange(lo, hi, key)
      modifies this`f, this`nextId
      decreases h
      ensures Appended()
      ensures e == if depth + h > MAX_DEPTH then TooDeep else Ok
      ensures e == Ok ==> Resolve(f.store, cell) == Some(val)
      ensures e == Ok ==> AddResOk(f.store, f.len, res, cell, a, b, t, h, lo, hi, Cfg(), key)
    {
      var nd := ParseNode(f.store, ptr).1;
      res, cell, a, b := Whole(nd, false), Inline([]), t, t;
      if depth > MAX_DEPTH {
        return TooDeep, res, cell, a, b;
      }
      assert FitsAt(f.store, f.len, ptr);
      if nd.isLeaf {
        res, cell, a, b := AddToLeaf(nd, key, val, ptr, t, lo, hi);
        return Ok, res, cell, a, b;
      }
      var i := UpperBound(nd.keys, key);
      ghost var kl, kh := KidLo(t.keys, lo, i), KidHi(t.keys, hi, i);
      assert Good(t.kids[i], h - 1, kl, kh, Cfg(), MinFor(Cfg(), kh));
      var cr;
      e, cr, cell, a, b := AddNode(nd.children[i], key, val, depth + 1, t.kids[i], h - 1, kl, kh);
      if e != Ok {
        return;
      }
      res, cell, a, b := AddToInternal(nd, i, cr, key, val, ptr, cell, a, b, t, h, lo, hi, old(f.store));
    }

    /** Save the child's replacement and rebuild the node around it. */
    method AddToInternal(nd: Node, i: nat, cr: AddRes, key: real, ghost val: Bytes, ghost below: nat,
                         ghost cell0: Cell, ghost ka: Tree, ghost kb: Tree, ghost t: Tree, ghost h: nat,
                         ghost lo: Bound, ghost hi: Bound,
                         ghost s0: Store)
      returns (res: AddRes, ghost cell: Cell, ghost a: Tree, ghost b: Tree)
      requires f.Wf() && order >= 3 && below <= f.len
      requires t.TNode? && h > 0 && Extends(s0, f.store) && NodeRepr(s0, nd, below, t) && Good(t, h, lo, hi, Cfg(), 0)
      requires RoutesTo(nd.keys, key, i) && InRange(lo, hi, key)
      requires Resolve(f.store, cell0) == Some(val)
      requires AddResOk(f.store, f.len, cr, cell0, ka, kb, t.kids[i], h - 1, KidLo(t.keys, lo, i), KidHi(t.keys, hi, i),
               Cfg(), key)
      modifies this`f, this`nextId
      ensures Appended()
      ensures Resolve(f.store, cell) == Some(val)
      ensures AddResOk(f.store, f.len, res, cell, a, b, t, h, lo, hi, Cfg(), key)
    {
      cell := cell0;
      assert Good(t.kids[i], h - 1, KidLo(t.keys, lo, i), KidHi(t.keys, hi, i), Cfg(),
             MinFor(Cfg(), KidHi(t.keys, hi, i)));
      if cr.Whole? {
        b := t;
        var p := SaveNode(cr.node, ka);
        NodeReprExtends(s0, f.store, nd, below, t);
        KidReplaced(f.store, nd, below, f.len, t.keys, t.kids, h, lo, hi, Cfg(), key, i, p, ka, cell, cr.updated, b);
        res := Whole(MakeInternal(nd.id, nd.keys, nd.children[i := p]), cr.updated);
        a := TNode(t.keys, t.kids[i := ka]);
      } else {
        res, a, b := SpliceHalves(nd, i, cr, key, below, cell, ka, kb, t, h, lo, hi, s0);
      }
    }

    method SpliceHalves(nd: Node, i: nat, cr: AddRes, ghost key: real, ghost below: nat, ghost cell: Cell,
                        ghost ka: Tree, ghost kb: Tree, ghost t: Tree, ghost h: nat, ghost lo: Bound, ghost hi: Bound,
                        ghost s0: Store)
      returns (res: AddRes, ghost a: Tree, ghost b: Tree)
      requires f.Wf() && order >= 3 && below <= f.len
      requires t.TNode? && h > 0 && Extends(s0, f.store) && NodeRepr(s0, nd, below, t) && Good(t, h, lo, hi, Cfg(), 0)
      requires RoutesTo(nd.keys, key, i) && cr.Halves?
      requires AddResOk(f.store, f.len, cr, cell, ka, kb, t.kids[i], h - 1, KidLo(t.keys, lo, i), KidHi(t.keys, hi, i),
               Cfg(), key)
      modifies this`f, this`nextId
      ensures Appended()
      ensures AddResOk(f.store, f.len, res, cell, a, b, t, h, lo, hi, Cfg(), key)
    {
      var sep := cr.sep;
      var lp, rp := SaveHalves(cr.left, cr.right, ka, kb);
      KidSplicedLater(s0, f.store, nd, below, f.len, t, h, lo, hi, Cfg(), key, i, lp, rp, ka, sep, kb, cell);
      var whole := MakeInternal(nd.id, nd.keys[..i] + [sep] + nd.keys[i..],
          nd.children[..i] + [lp, rp] + nd.children[i + 1..]);
      a := TNode(t.keys[..i] + [sep] + t.keys[i..], t.kids[..i] + [ka, kb] + t.kids[i + 1..]);
      res, a, b := WholeOrSplit(whole, cell, a, t, h, lo, hi, key);
    }

    /** A node that gained a separator, split when that fills it. */
    method WholeOrSplit(nd: Node, ghost cell: Cell, ghost whole: Tree, ghost t: Tree, ghost h: nat, ghost lo: Bound,
                        ghost hi: Bound,
                        ghost key: real)
      returns (res: AddRes, ghost a: Tree, ghost b: Tree)
      requires order >= 3
      requires whole.TNode? && NodeRepr(f.store, nd, f.len, whole) && Routed(whole, h, lo, hi, Cfg())
      requires NKeys(t) + 1 == NKeys(whole) <= order
      requires Entries(whole) == Put(Entries(t), key, cell) && !HasKey(Entries(t), key)
      modifies this`nextId
      ensures AddResOk(f.store, f.len, res, cell, a, b, t, h, lo, hi, Cfg(), key)
    {
      if |nd.keys| < order {
        res, a, b := Whole(nd, false), whole, t;
      } else {
        res, a, b := Split(nd, cell, whole, t, h, lo, hi, key);
      }
    }

    method SaveHalves(left: Node, right: Node, ghost a: Tree, ghost b: Tree) returns (lp: nat, rp: nat)
      requires f.Wf() && NodeRepr(f.store, left, f.len, a) && NodeRepr(f.store, right, f.len, b)
      modifies this`f
      ensures Appended()
      ensures lp < f.len && rp < f.len && Repr(f.store, lp, a) && Repr(f.store, rp, b)
    {
      lp := SaveNode(left, a);
      NodeReprExtends(old(f.store), f.store, right, old(f.len), b);
      NodeReprLater(f.store, right, old(f.len), f.len, b);
      label L:
      rp := SaveNode(right, b);
      ReprExtends(old@L(f.store), f.store, lp, a);
    }

    /** End the operation's appends with the commit trailer and the metadata record. */
    method SaveMetadata()
      requires f.Wf()
      modifies this`f
      ensures Appended() && old(f.len) < f.len <= old(f.len) + META_SIZE + TRAILER_SIZE
      ensures TailIsMeta()
    {
      var commitLen := f.len - f.hostLen + META_SIZE + TRAILER_SIZE;
      if commitLen <= UINT32_MAX {
        AppendWf(f, Trailer(commitLen));
        f := f.Append(Trailer(commitLen));
      }
      AppendWf(f, MetaRec(Meta(order, minKeys, size, root, nextId)));
      f := f.Append(MetaRec(Meta(order, minKeys, size, root, nextId)));
    }

    /** One host write for everything pending; `hostOk` is the host's answer. */
    method CommitFile(hostOk: bool) returns (e: Status)
      requires f.Wf()
      modifies this`f
      ensures e == if old(f.len == f.hostLen) || (hostOk && old(f.len - f.hostLen) <= UINT32_MAX) then Ok else HostError
      ensures e == Ok ==> f.Clean() && f.store == old(f.store) && f.len == old(f.len)
      ensures e != Ok ==> f == old(f)
    {
      if f.len == f.hostLen {
        NothingPending(f);
        return Ok;
      }
      if f.len - f.hostLen > UINT32_MAX || !hostOk {
        return HostError;
      }
      f := f.Commit();
      e := Ok;
    }

    /** The node that becomes the root after an add: the replacement itself, or a new node over two halves. */
    method RootFor(res: AddRes, ghost cell: Cell, ghost a: Tree, ghost b: Tree, ghost t: Tree, ghost h: nat,
                   ghost key: real)
      returns (n: Node, updated: bool, ghost t2: Tree, ghost h2: nat)
      requires f.Wf() && order >= 3
      requires AddResOk(f.store, f.len, res, cell, a, b, t, h, Inf, Inf, Cfg(), key) && RootMin(fill, h) <= NKeys(t)
      modifies this`f, this`nextId
      ensures Appended()
      ensures NodeRepr(f.store, n, f.len, t2) && Good(t2, h2, Inf, Inf, Cfg(), RootMin(fill, h2)) && h <= h2 <= h + 1
      ensures Entries(t2) == Put(Entries(t), key, cell)
      ensures updated <==> HasKey(Entries(t), key)
    {
      if res.Whole? {
        return res.node, res.updated, a, h;
      }
      var lp, rp := SaveHalves(res.left, res.right, a, b);
      n, updated, t2, h2 := MakeInternal(nextId, [res.sep], [lp, rp]), false, TNode([res.sep], [a, b]), h + 1;
      NewRoot(f.store, f.len, nextId, a, res.sep, b, lp, rp, h, Cfg());
      nextId := nextId + 1;
    }

    method AddRoot(key: real, val: Bytes) returns (e: Status, ghost cell: Cell)
      requires Valid()
      modifies this
      ensures Appended()
      ensures order == old(order) && minKeys == old(minKeys) && readOnly == old(readOnly) && fill == old(fill)
      ensures e == if old(height) > MAX_DEPTH then TooDeep else Ok
      ensures e == Ok ==> old(height) <= height <= old(height) + 1
      ensures e == Ok ==> VersionOk(f.store, Now()) && TailIsMeta() && old(f.len) < f.len
      ensures e == Ok ==> Resolve(f.store, cell) == Some(val) && Entries(tree) == Put(old(Entries(tree)), key, cell)
    {
      ghost var v, s0 := Now(), f.store;
      var res;
      ghost var a, b;
      e, res, cell, a, b := AddNode(root, key, val, 0, tree, height, Inf, Inf);
      if e != Ok {
        return;
      }
      ghost var t2, h2;
      var newRoot, updated;
      newRoot, updated, t2, h2 := RootFor(res, cell, a, b, tree, height, key);
      FinishAdd(newRoot, updated, key, cell, v, s0, t2, h2);
    }

    /** Save the new root and make it the tree's. */
    method FinishAdd(n: Node, updated: bool, ghost key: real, ghost cell: Cell, ghost v: Version, ghost s0: Store,
                     ghost t2: Tree, ghost h2: nat)
      requires f.Wf() && Extends(s0, f.store) && VersionOk(s0, v) && Resolve(f.store, cell).Some?
      requires v.meta.order == order && v.meta.minKeys == minKeys && v.meta.size == size && v.fill == fill
      requires NodeRepr(f.store, n, f.len, t2) && Good(t2, h2, Inf, Inf, Cfg(), RootMin(fill, h2))
      requires Entries(t2) == Put(Entries(v.tree), key, cell) && (updated <==> HasKey(Entries(v.tree), key))
      modifies this`f, this`root, this`size, this`tree, this`height
      ensures Appended() && old(f.len) < f.len && tree == t2 && height == h2
      ensures VersionOk(f.store, Now()) && TailIsMeta() && Resolve(f.store, cell) == old(Resolve(f.store, cell))
    {
      ghost var s1 := f.store;
      var rootp := SaveNode(n, t2);
      VersionAfterPut(s0, s1, f.store, v, rootp, t2, h2, key, cell, nextId);
      Install(rootp, if updated then size else size + 1, t2, h2);
    }

    /** Point the handle at a saved root and append the metadata that says so. */
    method Install(p: nat, newSize: nat, ghost t2: Tree, ghost h2: nat)
      requires f.Wf() && VersionOk(f.store, Version(Meta(order, minKeys, newSize, p, nextId), t2, h2, fill))
      modifies this`f, this`root, this`size, this`tree, this`height
      ensures Appended() && old(f.len) < f.len <= old(f.len) + META_SIZE + TRAILER_SIZE
      ensures tree == t2 && height == h2 && size == newSize
      ensures VersionOk(f.store, Now()) && TailIsMeta()
    {
      root, size, tree, height := p, newSize, t2, h2;
      ghost var s := f.store;
      SaveMetadata();
      VersionExtends(s, f.store, Now());
    }

    /**
     * The end of every mutating operation: one host write for everything appended, or, when the
     * operation or that write failed, the appends dropped and the handle put back.
     */
    method CommitOrRollBack(e0: Status, hostOk: bool, root0: nat, nextId0: nat, size0: nat, ghost v0: Version,
                            ghost f0: File)
      returns (e: Status)
      requires f.Wf() && f.host == f0.host && f.hostLen == f0.hostLen && f0.Clean()
      modifies this`f, this`root, this`nextId, this`size, this`tree, this`height
      ensures e == if e0 != Ok then e0
                   else if old(f.len == f.hostLen) || (hostOk && old(f.len - f.hostLen) <= UINT32_MAX) then Ok
                   else HostError
      ensures e == Ok ==> f.Clean() && f.store == old(f.store) && f.len == old(f.len) && Now() == old(Now())
      ensures e == Ok ==> forall o :: PendingAt(f.store, f0.store, f0.len, o)
      ensures e != Ok ==> f == f0 && root == root0 && nextId == nextId0 && size == size0
      ensures e != Ok ==> tree == v0.tree && height == v0.height
    {
      e := e0;
      if e == Ok {
        e := CommitFile(hostOk);
      }
      if e != Ok {
        f := f.Discard();
        root, nextId, size, tree, height := root0, nextId0, size0, v0.tree, v0.height;
      }
    }

    /** Insert or update. */
    method Add(key: Key, val: Bytes, hostOk: bool) returns (e: Status, ghost pending: nat)
      requires Valid()
      modifies this
      ensures Valid() && order == old(order) && minKeys == old(minKeys)
      ensures readOnly == old(readOnly) && fill == old(fill)
      ensures e == State <==> readOnly || !Storable(key)
      ensures e == Ok ==> Contents() == old(Contents())[Rank(key) := val]
      ensures e == Ok ==> size == old(size) + (if Rank(key) in old(Contents()) then 0 else 1)
      ensures e == Ok ==> Grew(old(f), f) && old(f.len) < f.len && hostOk
      ensures old(height) <= height <= old(height) + 1
      ensures e != Ok ==> f == old(f) && Now() == old(Now())
      ensures e == TooDeep <==> !readOnly && Storable(key) && old(height) > MAX_DEPTH
      ensures e == TooDeep ==> old(size) >= DeepSize(fill)
      ensures e == HostError ==> !hostOk || pending > UINT32_MAX
      ensures e in {Ok, State, TooDeep, HostError}
    {
      pending := 0;
      if readOnly || !Storable(key) {
        return State, pending;
      }
      ghost var v0, f0 := Now(), f;
      var root0, nextId0, size0 := root, nextId, size;
      ghost var cell;
      e, cell := AddRoot(Rank(key), val);
      if e == TooDeep {
        DeepIsLarge(f0.store, v0);
      }
      pending := f.len - f.hostLen;
      e := CommitOrRollBack(e, hostOk, root0, nextId0, size0, v0, f0);
      if e == Ok {
        ContentsAfterPut(f0.store, f.store, v0.tree, v0.height, Cfg(), Rank(key), cell);
      }
    }

    // ---- delete ----

    method DelNode(ptr: nat, key: real, depth: nat, ghost t: Tree, ghost h: nat, ghost lo: Bound, ghost hi: Bound)
      returns (e: Status, res: DelRes, ghost a: Tree)
      requires f.Wf() && MinSet() && fill != Loose
      requires Repr(f.store, ptr, t) && Good(t, h, lo, hi, Cfg(), 0)
               && (t.TNode? && t.keys == [] ==> MinFor(Cfg(), hi) == 0)
      modifies this`f
      decreases h
      ensures Appended()
      ensures e == if depth + h > MAX_DEPTH then TooDeep else Ok
      ensures e == Ok ==> (res.Removed? <==> HasKey(Entries(t), key))
      ensures e == Ok && res.Absent? ==> f == old(f)
      ensures e == Ok && res.Removed? ==> DelOk(f.store, f.len, res.node, a, t, h, lo, hi, Cfg(), key)
    {
      var nd := ParseNode(f.store, ptr).1;
      a := t;
      if depth > MAX_DEPTH {
        return TooDeep, Absent, a;
      }
      assert FitsAt(f.store, f.len, ptr);
      if nd.isLeaf {
        res, a := DelFromLeaf(nd, key, ptr, t, lo, hi);
        return Ok, res, a;
      }
      var i := UpperBound(nd.keys, key);
      ghost var kl, kh := KidLo(t.keys, lo, i), KidHi(t.keys, hi, i);
      assert Good(t.kids[i], h - 1, kl, kh, Cfg(), MinFor(Cfg(), kh));
      RouteHasKey(t.keys, t.kids, h, lo, hi, Cfg(), key, i);
      var cr;
      e, cr, a := DelNode(nd.children[i], key, depth + 1, t.kids[i], h - 1, kl, kh);
      if e != Ok || cr.Absent? {
        return e, Absent, a;
      }
      var n;
      n, a := DelFromInternal(nd, i, cr.node, key, ptr, a, t, h, lo, hi, old(f.store));
      res := Removed(n);
    }

    method DelFromLeaf(nd: Node, key: real, ghost below: nat, ghost t: Tree, ghost lo: Bound, ghost hi: Bound)
      returns (res: DelRes, ghost a: Tree)
      requires f.Wf() && below <= f.len && t.TLeaf? && NodeRepr(f.store, nd, below, t) && EntriesOk(t.es, lo, hi)
               && |t.es| < order
      ensures res.Removed? <==> HasKey(t.es, key)
      ensures res.Removed? ==> DelOk(f.store, f.len, res.node, a, t, 0, lo, hi, Cfg(), key)
    {
      assert forall j :: 0 <= j < |t.es| ==> t.es[j].key == nd.keys[j];
      var i := LowerBound(nd.keys, key);
      a := t;
      if !(i < |nd.keys| && nd.keys[i] == key) {
        LeafAbsent(f.store, nd, below, t, i, key);
        return Absent, a;
      }
      LeafDelete(f.store, nd, below, f.len, t, i, key, lo, hi, Cfg());
      a := TLeaf(Del(t.es, key));
      res := Removed(MakeLeaf(nd.id, nd.keys[..i] + nd.keys[i + 1..], nd.vals[..i] + nd.vals[i + 1..]));
    }

    /** Save the child's replacement, or restore its fill against a neighbour first. */
    method DelFromInternal(nd: Node, i: nat, ch: Node, key: real, ghost below: nat, ghost ct: Tree, ghost t: Tree,
                           ghost h: nat,
                           ghost lo: Bound, ghost hi: Bound, ghost s0: Store)
      returns (n: Node, ghost a: Tree)
      requires f.Wf() && MinSet() && fill != Loose && below <= f.len
      requires t.TNode? && h > 0 && (t.keys == [] ==> MinFor(Cfg(), hi) == 0) && Extends(s0, f.store)
      requires NodeRepr(s0, nd, below, t) && Good(t, h, lo, hi, Cfg(), 0) && RoutesTo(nd.keys, key, i)
      requires DelOk(f.store, f.len, ch, ct, t.kids[i], h - 1, KidLo(t.keys, lo, i), KidHi(t.keys, hi, i), Cfg(), key)
      modifies this`f
      ensures Appended()
      ensures DelOk(f.store, f.len, n, a, t, h, lo, hi, Cfg(), key)
    {
      assert Good(t.kids[i], h - 1, KidLo(t.keys, lo, i), KidHi(t.keys, hi, i), Cfg(),
             MinFor(Cfg(), KidHi(t.keys, hi, i)));
      NodeReprExtends(s0, f.store, nd, below, t);
      if |ch.keys| < minKeys && |nd.children| >= 2 {
        n, a := Rebalance(nd, i, ch, below, ct, t, h, lo, hi);
        RouteSplit(t.keys, t.kids, h, lo, hi, Cfg(), key, i);
        DelMiddle(Flat(t.kids[..i]), Entries(t.kids[i]), Flat(t.kids[i + 1..]), key);
      } else {
        ghost var s1 := f.store;
        var p := SaveNode(ch, ct);
        NodeReprExtends(s1, f.store, nd, below, t);
        KidShrunk(f.store, nd, below, f.len, t.keys, t.kids, h, lo, hi, Cfg(), key, i, p, ct);
        n, a := MakeInternal(nd.id, nd.keys, nd.children[i := p]), TNode(t.keys, t.kids[i := ct]);
      }
    }

    /**
     * Child `i` fell below the minimum: concatenate it with a neighbour, and cut the result in two
     * again when it does not fit one node.
     */
    method Rebalance(par: Node, i: nat, ch: Node, ghost below: nat, ghost ct: Tree, ghost t: Tree, ghost h: nat,
                     ghost lo: Bound, ghost hi: Bound)
      returns (n: Node, ghost a: Tree)
      requires f.Wf() && MinSet() && fill != Loose && below <= f.len
      requires t.TNode? && h > 0 && 1 <= |t.keys| < order && i <= |t.keys|
      requires NodeRepr(f.store, par, below, t) && Routed(t, h, lo, hi, Cfg())
      requires NodeRepr(f.store, ch, f.len, ct) && MinFor(Cfg(), KidHi(t.keys, hi, i)) - 1 <= NKeys(ct) < minKeys
      requires Routed(ct, h - 1, KidLo(t.keys, lo, i), KidHi(t.keys, hi, i), Cfg())
      modifies this`f
      ensures Appended()
      ensures NodeRepr(f.store, n, f.len, a) && Routed(a, h, lo, hi, Cfg())
      ensures NKeys(t) <= NKeys(a) + 1 && NKeys(a) < order
      ensures Entries(a) == Flat(t.kids[..i]) + Entries(ct) + Flat(t.kids[i + 1..])
    {
      var si := if i > 0 then i - 1 else i + 1;
      var li := if si < i then si else i;
      var sib := ReadKid(par, si, below, t, h, lo, hi);
      var left, right := if si < i then sib else ch, if si < i then ch else sib;
      ghost var lt, rt := if si < i then t.kids[si] else ct, if si < i then ct else t.kids[si];
      var joined := Concatenate(left, par.keys[li], right);
      ghost var jt := JoinedTree(lt, t.keys[li], rt);
      JoinTrees(f.store, left, right, f.len, lt, t.keys[li], rt, h - 1, KidLo(t.keys, lo, li),
          KidHi(t.keys, hi, li + 1), Cfg());
      PairAround(t.kids, i, li, ct);
      n, a := RebuildParent(par, li, joined, right.id, below, jt, t, h, lo, hi);
    }

    /** Read child `si` of a node. */
    method ReadKid(par: Node, si: nat, ghost below: nat, ghost t: Tree, ghost h: nat, ghost lo: Bound, ghost hi: Bound)
      returns (kid: Node)
      requires f.Wf() && t.TNode? && h > 0 && si <= |t.keys|
      requires NodeRepr(f.store, par, below, t) && Routed(t, h, lo, hi, Cfg())
      ensures NodeRepr(f.store, kid, f.len, t.kids[si])
      ensures Good(t.kids[si], h - 1, KidLo(t.keys, lo, si), KidHi(t.keys, hi, si), Cfg(),
                   MinFor(Cfg(), KidHi(t.keys, hi, si)))
    {
      kid := ParseNode(f.store, par.children[si]).1;
      ReprParses(f.store, par.children[si], t.kids[si]);
      assert FitsAt(f.store, f.len, par.children[si]);
      NodeReprLater(f.store, kid, par.children[si], f.len, t.kids[si]);
    }

    method RebuildParent(par: Node, li: nat, joined: Node, rightId: nat, ghost below: nat, ghost jt: Tree,
                         ghost t: Tree, ghost h: nat,
                         ghost lo: Bound, ghost hi: Bound)
      returns (n: Node, ghost a: Tree)
      requires f.Wf() && MinSet() && fill != Loose && below <= f.len
      requires t.TNode? && h > 0 && |t.keys| < order && li < |t.keys|
      requires NodeRepr(f.store, par, below, t) && Routed(t, h, lo, hi, Cfg())
      requires NodeRepr(f.store, joined, f.len, jt)
               && MinFor(Cfg(), KidHi(t.keys, hi, li + 1)) <= NKeys(jt) <= 2 * order - 2
      requires Routed(jt, h - 1, KidLo(t.keys, lo, li), KidHi(t.keys, hi, li + 1), Cfg())
      modifies this`f
      ensures Appended()
      ensures NodeRepr(f.store, n, f.len, a) && Routed(a, h, lo, hi, Cfg())
      ensures NKeys(t) <= NKeys(a) + 1 && NKeys(a) < order
      ensures Entries(a) == Flat(t.kids[..li]) + Entries(jt) + Flat(t.kids[li + 2..])
    {
      ghost var s0 := f.store;
      if |joined.keys| < order {
        var p := SaveNode(joined, jt);
        NodeReprExtends(s0, f.store, par, below, t);
        MergedParent(f.store, par, below, f.len, t.keys, t.kids, h, lo, hi, Cfg(), li, p, jt);
        n := MakeInternal(par.id, par.keys[..li] + par.keys[li + 1..],
            par.children[..li] + [p] + par.children[li + 2..]);
        a := TNode(t.keys[..li] + t.keys[li + 1..], t.kids[..li] + [jt] + t.kids[li + 2..]);
      } else {
        ghost var ta, tb := CutTrees(s0, joined, rightId, f.len, jt, h - 1, KidLo(t.keys, lo, li),
            KidHi(t.keys, hi, li + 1), Cfg());
        var left, sep, right := CutInTwo(joined, rightId);
        var lp, rp := SaveHalves(left, right, ta, tb);
        NodeReprExtends(s0, f.store, par, below, t);
        RedistributedParent(f.store, par, below, f.len, t.keys, t.kids, h, lo, hi, Cfg(), li, lp, rp, ta, sep, tb);
        n := MakeInternal(par.id, par.keys[li := sep], par.children[li := lp][li + 1 := rp]);
        a := TNode(t.keys[li := sep], t.kids[..li] + [ta, tb] + t.kids[li + 2..]);
      }
    }

    /** Collapse internal roots left with no separator down to their only child. */
    method CollapseRoot(n0: Node, ghost t0: Tree, ghost h0: nat)
      returns (e: Status, n: Node, ghost t: Tree, ghost h: nat)
      requires f.Wf() && MinSet() && fill != Loose
      requires NodeRepr(f.store, n0, f.len, t0) && Good(t0, h0, Inf, Inf, Cfg(), 0) && h0 <= MAX_DEPTH
      ensures e == Ok
      ensures NodeRepr(f.store, n, f.len, t) && Good(t, h, Inf, Inf, Cfg(), RootMin(fill, h)) && h <= h0
      ensures Entries(t) == Entries(t0)
    {
      n, t, h := n0, t0, h0;
      var d := 0;
      while |n.keys| == 0 && !n.isLeaf && |n.children| > 0
        invariant d + h == h0
        invariant NodeRepr(f.store, n, f.len, t) && Good(t, h, Inf, Inf, Cfg(), 0)
        invariant Entries(t) == Entries(t0)
        decreases h
      {
        if d > MAX_DEPTH {
          return TooDeep, n, t, h;
        }
        var child := n.children[0];
        assert Good(t.kids[0], h - 1, Inf, Inf, Cfg(), MinFor(Cfg(), Inf));
        ReprParses(f.store, child, t.kids[0]);
        assert t.kids == [t.kids[0]];
        FlatOne(t.kids[0]);
        n, t, h := ParseNode(f.store, child).1, t.kids[0], h - 1;
        NodeReprLater(f.store, n, child, f.len, t);
        d := d + 1;
      }
      e := Ok;
    }

    method DeleteRoot(key: real) returns (e: Status, found: bool)
      requires Valid() && fill != Loose
      modifies this
      ensures Appended()
      ensures order == old(order) && minKeys == old(minKeys) && readOnly == old(readOnly) && fill == old(fill)
      ensures e == if old(height) > MAX_DEPTH then TooDeep else Ok
      ensures e == Ok ==> height <= old(height)
      ensures e == Ok ==> (found <==> HasKey(old(Entries(tree)), key))
      ensures e == Ok && !found ==> f == old(f) && Now() == old(Now())
      ensures e == Ok && found ==> VersionOk(f.store, Now()) && TailIsMeta() && old(f.len) < f.len
      ensures e == Ok && found ==> Entries(tree) == Del(old(Entries(tree)), key) && size == old(size) - 1
    {
      ghost var v, s0 := Now(), f.store;
      var res;
      ghost var a;
      e, res, a := DelNode(root, key, 0, tree, height, Inf, Inf);
      found := res.Removed?;
      if e != Ok || !found {
        return;
      }
      var n;
      ghost var t2, h2;
      e, n, t2, h2 := CollapseRoot(res.node, a, height);
      FinishDelete(n, key, v, s0, t2, h2);
    }

    /** Save the new root and make it the tree's. */
    method FinishDelete(n: Node, ghost key: real, ghost v: Version, ghost s0: Store, ghost t2: Tree, ghost h2: nat)
      requires f.Wf() && Extends(s0, f.store) && VersionOk(s0, v) && HasKey(Entries(v.tree), key)
      requires v.meta.order == order && v.meta.minKeys == minKeys && v.meta.size == size && v.fill == fill
      requires NodeRepr(f.store, n, f.len, t2) && Good(t2, h2, Inf, Inf, Cfg(), RootMin(fill, h2))
      requires Entries(t2) == Del(Entries(v.tree), key)
      modifies this`f, this`root, this`size, this`tree, this`height
      ensures Appended() && old(f.len) < f.len && tree == t2 && height == h2 && size == old(size) - 1
      ensures VersionOk(f.store, Now()) && TailIsMeta()
    {
      var rootp := SaveNode(n, t2);
      VersionAfterDel(s0, f.store, v, rootp, t2, h2, key, nextId);
      Install(rootp, size - 1, t2, h2);
    }

    /** Remove a key; nothing happens when it is absent. */
    method Delete(key: Key, hostOk: bool) returns (e: Status, ghost pending: nat)
      requires Valid() && fill != Loose
      modifies this
      ensures Valid() && order == old(order) && minKeys == old(minKeys)
      ensures readOnly == old(readOnly) && fill == old(fill)
      ensures e == State <==> readOnly || !Storable(key)
      ensures e == Ok ==> Contents() == old(Contents()) - {Rank(key)}
      ensures e == Ok ==> size == old(size) - (if Rank(key) in old(Contents()) then 1 else 0)
      ensures e == Ok ==> Grew(old(f), f)
      ensures height <= old(height)
      ensures e == Ok && Rank(key) !in old(Contents()) ==> f == old(f) && Now() == old(Now())
      ensures e != Ok ==> f == old(f) && Now() == old(Now())
      ensures e == TooDeep <==> !readOnly && Storable(key) && old(height) > MAX_DEPTH
      ensures e == TooDeep ==> old(size) >= DeepSize(fill)
      ensures e == HostError ==> !hostOk || pending > UINT32_MAX
      ensures e in {Ok, State, TooDeep, HostError}
    {
      pending := 0;
      if readOnly || !Storable(key) {
        return State, pending;
      }
      ghost var v0, f0 := Now(), f;
      var root0, nextId0, size0 := root, nextId, size;
      var found;
      e, found := DeleteRoot(Rank(key));
      if e == TooDeep {
        DeepIsLarge(f0.store, v0);
      }
      pending := f.len - f.hostLen;
      e := CommitOrRollBack(e, hostOk, root0, nextId0, size0, v0, f0);
      ContentsAfterDel(f0.store, f.store, v0.tree, v0.height, Cfg(), Rank(key));
      if e == Ok && !found {
        DelAbsent(Entries(v0.tree), Rank(key));
        assert f == f0;
      }
    }

    // ---- create and rewind ----

    constructor (order: nat)
      ensures f == File(map[], 0, map[], 0) && this.order == order && !readOnly && fill == Full
      ensures order >= 3 ==> minKeys == MinKeysFor(order)
    {
      f := File(map[], 0, map[], 0);
      root, nextId, size, this.order, readOnly := 0, 0, 0, order, false;
      minKeys := if order >= 3 then MinKeysFor(order) else 0;
      tree, height, fill := TLeaf([]), 0, Full;
    }

    /** Create a tree: header, empty root leaf and metadata in one commit. */
    static method Create(order: nat, hostOk: bool) returns (e: Status, t: Bpt)
      ensures fresh(t)
      ensures e == Ok <==> order >= 3 && hostOk
      ensures e == Ok ==> t.Valid() && t.order == order && !t.readOnly && t.size == 0 && t.Contents() == map[]
      ensures e == Ok ==> t.fill == Full && t.height == 0
    {
      t := new Bpt(order);
      if order < 3 {
        return State, t;
      }
      t.WriteEmpty();
      e := t.CommitFile(hostOk);
    }

    /** Header, empty root leaf and metadata, not committed yet. */
    method WriteEmpty()
      requires f == File(map[], 0, map[], 0) && order >= 3 && minKeys == MinKeysFor(order)
      modifies this`f, this`root, this`nextId, this`size, this`tree, this`height
      ensures f.Wf() && f.hostLen < f.len && f.len - f.hostLen <= UINT32_MAX && TailIsMeta()
      ensures VersionOk(f.store, Now()) && size == 0 && height == 0 && tree == TLeaf([])
    {
      EmptyFileWf();
      AppendWf(f, Header);
      f := f.Append(Header);
      nextId := 1;
      var rootp := SaveNode(MakeLeaf(0, [], []), TLeaf([]));
      Install(rootp, 0, TLeaf([]), 0);
    }

    /** Open a file at the metadata record it ends with. */
    static method Open(f: File, ghost known: bool, ghost v: Version) returns (e: Status, t: Bpt)
      requires f.Clean() && (known ==> CommitAt(f.store, f.len, v))
      ensures fresh(t) && t.f == f && !t.readOnly
      ensures e == Ok ==> t.MetaBehind() && t.TailIsMeta()
      ensures known ==> e == Ok && t.Valid() && t.Now() == v
    {
      t := new Bpt(3);
      t.f := f;
      if f.len < META_SIZE || f.len - META_SIZE !in f.store {
        return Eof, t;
      }
      var rec := f.store[f.len - META_SIZE];
      if !rec.MetaRec? || !MetaValid(rec.meta, f.len - META_SIZE) {
        return State, t;
      }
      t.order, t.minKeys, t.size := rec.meta.order, rec.meta.minKeys, rec.meta.size;
      t.root, t.nextId := rec.meta.root, rec.meta.nextId;
      if known {
        t.tree, t.height, t.fill := v.tree, v.height, v.fill;
      }
      e := Ok;
    }

    /** The handle's numbers are in range, its root before the metadata. */
    ghost predicate MetaBehind()
      reads this
    {
      META_SIZE <= f.len && MetaValid(Meta(order, minKeys, size, root, nextId), f.len - META_SIZE)
    }

    /** A valid metadata record of this file ends at `l`. */
    ghost predicate MetaEndsAt(l: nat)
      reads this
    {
      && META_SIZE <= l < f.len && l - META_SIZE in f.store && f.store[l - META_SIZE].MetaRec?
      && MetaValid(f.store[l - META_SIZE].meta, l - META_SIZE)
    }

    /**
     * Step back to an earlier commit of this file, as journal recovery does.  Any length at which a
     * valid metadata record ends is taken, and the handle then stands at that record; every other
     * length but the current one is refused, and nothing changes.
     */
    method Rewind(l: nat, ghost known: bool, ghost v: Version) returns (e: Status)
      requires f.Clean()
      requires known ==> CommitAt(f.store, l, v) && l <= f.len
      modifies this
      ensures readOnly == old(readOnly)
      ensures e != Ok || l == old(f.len) ==> f == old(f) && Now() == old(Now())
      ensures e == Ok <==> !readOnly && (l == old(f.len) || old(MetaEndsAt(l)))
      ensures e == Ok && l != old(f.len) ==> f == old(f.SetLen(l))
      ensures e == Ok && l != old(f.len) ==>
              old(f.store)[l - META_SIZE] == MetaRec(Meta(order, minKeys, size, root, nextId))
      ensures !readOnly && known && l != old(f.len) ==> e == Ok && Valid() && Now() == v && f.len == l
      ensures !readOnly && known ==> f == Rewound(old(f), l)
      ensures !readOnly && known && l != old(f.len) ==> Contents() == MapOf(Resolved(old(f.store), Entries(v.tree)))
    {
      if readOnly {
        return State;
      }
      if l == f.len {
        return Ok;
      }
      if l > f.len || l < META_SIZE {
        return State;
      }
      if l - META_SIZE !in f.store {
        return Eof;
      }
      var rec := f.store[l - META_SIZE];
      if !rec.MetaRec? || !MetaValid(rec.meta, l - META_SIZE) {
        return State;
      }
      CutTo(l, rec.meta, known, v);
      e := Ok;
    }

    /** Cut the file behind a metadata record and take the record's state. */
    method CutTo(l: nat, m: Meta, ghost known: bool, ghost v: Version)
      requires f.Clean() && !readOnly && MetaEndsAt(l) && f.store[l - META_SIZE] == MetaRec(m)
      requires known ==> CommitAt(f.store, l, v)
      modifies this
      ensures readOnly == old(readOnly) && f == old(f.SetLen(l)) && Meta(order, minKeys, size, root, nextId) == m
      ensures known ==> Valid() && Now() == v && f.len == l && f == Rewound(old(f), l)
      ensures known ==> Contents() == MapOf(Resolved(old(f.store), Entries(v.tree)))
    {
      assert FitsAt(f.store, f.len, l - META_SIZE);
      CutAtRecordEnd(f, l - META_SIZE);
      ghost var s := f.store;
      f := f.SetLen(l);
      order, minKeys, size, root, nextId := m.order, m.minKeys, m.size, m.root, m.nextId;
      if known {
        tree, height, fill := v.tree, v.height, v.fill;
        VersionCut(s, f.store, l - META_SIZE, v);
      }
    }
  }
}
