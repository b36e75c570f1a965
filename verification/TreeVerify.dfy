// The self-verifier: a walk over any file image that accepts exactly the images holding a
// routed tree of the recorded size.
module TreeVerify {
  import opened SortedEntries
  import opened RecordFile
  import opened TreeModel
  import opened NodeFacts
  import opened TreeRead

  lemma {:induction false} HeightUnique(t: Tree, h1: nat, h2: nat, lo: Bound, hi: Bound, c: Config, m: nat)
    requires Good(t, h1, lo, hi, c, m) && Good(t, h2, lo, hi, c, m)
    ensures h1 == h2
    decreases t
  {
    if t.TNode? {
      var (l, r) := (KidLo(t.keys, lo, 0), KidHi(t.keys, hi, 0));
      assert Good(t.kids[0], h1 - 1, l, r, c, MinFor(c, r)) && Good(t.kids[0], h2 - 1, l, r, c, MinFor(c, r));
      HeightUnique(t.kids[0], h1 - 1, h2 - 1, l, r, c, MinFor(c, r));
    }
  }

  /** Strictly ascending keys inside the bounds inherited from the ancestors. */
  method KeysInOrder(keys: seq<real>, lower: Bound, upper: Bound) returns (ok: bool)
    ensures ok <==> KeysOk(keys, lower, upper)
  {
    for i := 0 to |keys|
      invariant KeysOk(keys[..i], lower, upper)
    {
      if i > 0 && keys[i - 1] >= keys[i] {
        return false;
      }
      if lower.At? && keys[i] < lower.r {
        assert !InRange(lower, upper, keys[i]);
        return false;
      }
      if upper.At? && keys[i] >= upper.r {
        assert !InRange(lower, upper, keys[i]);
        return false;
      }
      assert forall j :: 0 <= j < i ==> keys[..i][j] == keys[j] && keys[j] <= keys[..i][i - 1];
      assert keys[..i + 1] == keys[..i] + [keys[i]];
    }
    assert keys[..|keys|] == keys;
    ok := true;
  }

  method MarkersBefore(vals: seq<Cell>, ptr: nat) returns (ok: bool)
    ensures ok <==> forall i :: 0 <= i < |vals| && vals[i].Marker? ==> vals[i].off < ptr
  {
    for i := 0 to |vals|
      invariant forall j :: 0 <= j < i && vals[j].Marker? ==> vals[j].off < ptr
    {
      if vals[i].Marker? && vals[i].off >= ptr {
        return false;
      }
    }
    ok := true;
  }

  /** A tree that the walk from `ptr` at `depth` should accept. */
  ghost predicate Acceptable(s: Store, ptr: nat, lower: Bound, upper: Bound, depth: nat, order: nat, leafDepth: int,
                             t: Tree, h: nat) {
    && Repr(s, ptr, t) && Good(t, h, lower, upper, AnyFill(order), 0)
    && depth + h <= MAX_DEPTH && (leafDepth < 0 || leafDepth == depth + h)
  }

  lemma LeafAcceptable(s: Store, ptr: nat, lower: Bound, upper: Bound, depth: nat, order: nat, leafDepth: int)
    returns (t: Tree)
    requires ptr in s && s[ptr].NodeRec? && s[ptr].node.isLeaf && NodeShapeOk(s[ptr].node)
    requires KeysOk(s[ptr].node.keys, lower, upper) && |s[ptr].node.keys| < order
    requires forall i :: 0 <= i < |s[ptr].node.vals| && s[ptr].node.vals[i].Marker? ==> s[ptr].node.vals[i].off < ptr
    requires depth <= MAX_DEPTH && (leafDepth < 0 || leafDepth == depth)
    ensures t.TLeaf? && |t.es| == |s[ptr].node.keys| && Acceptable(s, ptr, lower, upper, depth, order, leafDepth, t, 0)
  {
    var n := s[ptr].node;
    t := TLeaf(seq(|n.keys|, i requires 0 <= i < |n.keys| => Entry(n.keys[i], n.vals[i])));
  }

  lemma LeafKeys(s: Store, ptr: nat, lower: Bound, upper: Bound, t: Tree)
    requires Repr(s, ptr, t) && t.TLeaf? && EntriesOk(t.es, lower, upper)
    ensures KeysOk(s[ptr].node.keys, lower, upper)
    ensures forall i :: 0 <= i < |s[ptr].node.vals| && s[ptr].node.vals[i].Marker? ==> s[ptr].node.vals[i].off < ptr
  {
    var n := s[ptr].node;
    assert forall i :: 0 <= i < |n.keys| ==> t.es[i] == Entry(n.keys[i], n.vals[i]);
  }

  /**
   * Walk one node.  `expected` says that an acceptable tree (t0, h0) is there; then the walk
   * succeeds.  Whenever it succeeds, the tree it saw is returned.
   */
  method VerifyNode(s: Store, ptr: nat, lower: Bound, upper: Bound, depth: nat, order: nat, leafDepth0: int,
                    ghost expected: bool, ghost t0: Tree, ghost h0: nat)
    returns (e: Status, entries: nat, leafDepth: int, ghost t: Tree, ghost h: nat)
    requires depth <= MAX_DEPTH + 1
    requires expected ==> Acceptable(s, ptr, lower, upper, depth, order, leafDepth0, t0, h0)
    decreases MAX_DEPTH + 1 - depth, 1
    ensures e == Ok ==> Acceptable(s, ptr, lower, upper, depth, order, leafDepth0, t, h)
    ensures e == Ok ==> entries == |Entries(t)| && leafDepth == depth + h
    ensures expected ==> e == Ok && h == h0
  {
    entries, leafDepth, t, h := 0, leafDepth0, TLeaf([]), 0;
    if depth > MAX_DEPTH {
      return TooDeep, entries, leafDepth, t, h;
    }
    if expected {
      ReprParses(s, ptr, t0);
    }
    var nd;
    var r := ParseNode(s, ptr);
    e, nd := r.0, r.1;
    if e != Ok {
      return;
    }
    if expected {
      assert NodeRepr(s, nd, ptr, t0) && Routed(t0, h0, lower, upper, AnyFill(order));
      assert t0.TLeaf? <==> nd.isLeaf;
      assert t0.TLeaf? ==> h0 == 0;
    }
    if expected && t0.TLeaf? {
      LeafKeys(s, ptr, lower, upper, t0);
    }
    var inOrder := KeysInOrder(nd.keys, lower, upper);
    if |nd.keys| >= order || !inOrder {
      return BadStructure, entries, leafDepth, t, h;
    }
    if nd.isLeaf {
      if leafDepth0 >= 0 && leafDepth0 != depth {
        return BadStructure, entries, leafDepth, t, h;
      }
      var before := MarkersBefore(nd.vals, ptr);
      if !before {
        return BadStructure, entries, leafDepth, t, h;
      }
      t := LeafAcceptable(s, ptr, lower, upper, depth, order, leafDepth0);
      return Ok, |nd.keys|, depth, t, 0;
    }
    ghost var kids;
    e, entries, leafDepth, kids, h := VerifyKids(s, ptr, nd, lower, upper, depth, order, leafDepth0, expected, t0, h0);
    t := TNode(nd.keys, kids);
    if expected {
      ReprUnique(s, ptr, t, t0);
      HeightUnique(t, h, h0, lower, upper, AnyFill(order), 0);
    }
  }

  lemma AcceptableKid(s: Store, ptr: nat, nd: Node, lower: Bound, upper: Bound, depth: nat, order: nat, leafDepth: int,
                      t: Tree, h: nat, i: nat)
    returns (kid: Tree, kh: nat)
    requires ptr in s && s[ptr] == NodeRec(nd) && !nd.isLeaf && i <= |nd.keys| && NodeShapeOk(nd)
    requires Acceptable(s, ptr, lower, upper, depth, order, leafDepth, t, h)
    ensures h == kh + 1 && nd.children[i] < ptr
    ensures Acceptable(s, nd.children[i], KidLo(nd.keys, lower, i), KidHi(nd.keys, upper, i), depth + 1, order,
            leafDepth, kid, kh)
    ensures Acceptable(s, nd.children[i], KidLo(nd.keys, lower, i), KidHi(nd.keys, upper, i), depth + 1, order,
            depth + h, kid, kh)
  {
    assert NodeRepr(s, nd, ptr, t) && Routed(t, h, lower, upper, AnyFill(order));
    assert t.TNode?;
    kid, kh := t.kids[i], h - 1;
    assert Repr(s, nd.children[i], kid);
    assert Good(kid, kh, KidLo(nd.keys, lower, i), KidHi(nd.keys, upper, i), AnyFill(order), 0);
  }

  method VerifyKids(s: Store, ptr: nat, nd: Node, lower: Bound, upper: Bound, depth: nat, order: nat, leafDepth0: int,
                    ghost expected: bool, ghost t0: Tree, ghost h0: nat)
    returns (e: Status, entries: nat, leafDepth: int, ghost kids: seq<Tree>, ghost h: nat)
    requires depth <= MAX_DEPTH && ptr in s && s[ptr] == NodeRec(nd) && !nd.isLeaf && NodeShapeOk(nd)
    requires KeysOk(nd.keys, lower, upper) && |nd.keys| < order
    requires expected ==> Acceptable(s, ptr, lower, upper, depth, order, leafDepth0, t0, h0)
    decreases MAX_DEPTH + 1 - depth, 0
    ensures e == Ok ==> Acceptable(s, ptr, lower, upper, depth, order, leafDepth0, TNode(nd.keys, kids), h)
    ensures e == Ok ==> entries == |Flat(kids)| && leafDepth == depth + h
    ensures expected ==> e == Ok
  {
    entries, leafDepth, kids, h := 0, leafDepth0, [], 0;
    for i := 0 to |nd.keys| + 1
      invariant |kids| == i && entries == |Flat(kids)| && KidsSeen(s, ptr, nd, lower, upper, order, kids, h)
      invariant i == 0 ==> leafDepth == leafDepth0
      invariant i > 0 ==> h > 0 && depth + h <= MAX_DEPTH && leafDepth == depth + h
      invariant i > 0 ==> leafDepth0 < 0 || leafDepth0 == leafDepth
      invariant i > 0 && expected ==> h == h0
    {
      ghost var want, wantH := TLeaf([]), 0;
      if expected {
        want, wantH := AcceptableKid(s, ptr, nd, lower, upper, depth, order, leafDepth0, t0, h0, i);
      }
      if nd.children[i] >= ptr {
        return BadStructure, entries, leafDepth, kids, h;
      }
      var low := if i == 0 then lower else At(nd.keys[i - 1]);
      var high := if i == |nd.keys| then upper else At(nd.keys[i]);
      var n;
      ghost var kid, kh;
      e, n, leafDepth, kid, kh :=
          VerifyNode(s, nd.children[i], low, high, depth + 1, order, leafDepth, expected, want, wantH);
      if e != Ok {
        return;
      }
      FlatConcat(kids, [kid]);
      FlatOne(kid);
      KidSeen(s, ptr, nd, lower, upper, order, kids, kid, kh);
      entries, kids, h := entries + n, kids + [kid], kh + 1;
    }
    KidsAccepted(s, ptr, nd, lower, upper, depth, order, leafDepth0, kids, h);
    e := Ok;
  }

  lemma KidsAccepted(s: Store, ptr: nat, nd: Node, lower: Bound, upper: Bound, depth: nat, order: nat, leafDepth: int,
                     kids: seq<Tree>, h: nat)
    requires ptr in s && s[ptr] == NodeRec(nd) && !nd.isLeaf && KeysOk(nd.keys, lower, upper) && |nd.keys| < order
    requires |kids| == |nd.keys| + 1 && KidsSeen(s, ptr, nd, lower, upper, order, kids, h)
    requires depth + h <= MAX_DEPTH && (leafDepth < 0 || leafDepth == depth + h)
    ensures Acceptable(s, ptr, lower, upper, depth, order, leafDepth, TNode(nd.keys, kids), h)
  {
  }

  /** The subtrees found so far stand where node `nd` points and fit its separators. */
  ghost predicate KidsSeen(s: Store, ptr: nat, nd: Node, lower: Bound, upper: Bound, order: nat, kids: seq<Tree>,
                           h: nat) {
    && |kids| <= |nd.children| && |nd.children| == |nd.keys| + 1 && (kids != [] ==> h > 0)
    && (forall j :: 0 <= j < |kids| ==> nd.children[j] < ptr && Repr(s, nd.children[j], kids[j]))
    && (forall j :: 0 <= j < |kids| ==>
          Good(kids[j], h - 1, KidLo(nd.keys, lower, j), KidHi(nd.keys, upper, j), AnyFill(order), 0))
  }

  lemma KidSeen(s: Store, ptr: nat, nd: Node, lower: Bound, upper: Bound, order: nat, kids: seq<Tree>, kid: Tree,
                kh: nat)
    requires |kids| <= |nd.keys| && KidsSeen(s, ptr, nd, lower, upper, order, kids, kh + 1)
    requires nd.children[|kids|] < ptr && Repr(s, nd.children[|kids|], kid)
    requires Good(kid, kh, KidLo(nd.keys, lower, |kids|), KidHi(nd.keys, upper, |kids|), AnyFill(order), 0)
    ensures KidsSeen(s, ptr, nd, lower, upper, order, kids + [kid], kh + 1)
  {
    var ks := kids + [kid];
    forall j | 0 <= j < |ks|
      ensures nd.children[j] < ptr && Repr(s, nd.children[j], ks[j])
        && Good(ks[j], kh, KidLo(nd.keys, lower, j), KidHi(nd.keys, upper, j), AnyFill(order), 0)
    {
      if j < |kids| {
        assert ks[j] == kids[j];
      }
    }
  }

  /**
   * The verifier accepts an image exactly when the root stands for a routed tree of at most the
   * walkable height holding `size` entries; (t0, h0) is such a tree when `expected`.
   */
  method Verify(s: Store, root: nat, order: nat, size: nat, ghost expected: bool, ghost t0: Tree, ghost h0: nat)
    returns (e: Status, ghost t: Tree, ghost h: nat)
    requires expected ==> Readable(s, root, t0, h0, order) && h0 <= MAX_DEPTH && size == |Entries(t0)|
    ensures e == Ok ==> Readable(s, root, t, h, order) && h <= MAX_DEPTH && size == |Entries(t)|
    ensures expected ==> e == Ok
  {
    var entries, leafDepth;
    e, entries, leafDepth, t, h := VerifyNode(s, root, Inf, Inf, 0, order, -1, expected, t0, h0);
    if e == Ok {
      if expected {
        ReprUnique(s, root, t, t0);
      }
      if entries != size {
        e := BadStructure;
      }
    }
  }

  /**
   * Every version that create, add, delete and compact can reach is one the verifier accepts, unless
   * it holds more entries than any file.
   */
  lemma VersionsVerify(s: Store, v: Version)
    requires VersionOk(s, v)
    ensures Readable(s, v.meta.root, v.tree, v.height, v.meta.order) && v.meta.size == |Entries(v.tree)|
    ensures v.meta.size < DeepSize(v.fill) ==> v.height <= MAX_DEPTH
  {
    if v.height > MAX_DEPTH {
      DeepIsLarge(s, v);
    }
    GoodWeaken(v.tree, v.height, Inf, Inf, FillConfig(v.meta.order, v.fill), RootMin(v.fill, v.height),
               AnyFill(v.meta.order), 0);
  }
}
