// Cursors: an explicit stack of parsed nodes over the tree as it was when the cursor was opened.
// Later writes only append, so whatever is added or deleted meanwhile, the cursor streams the
// entries of the commit it was opened at.
module TreeCursor {
  import opened SortedEntries
  import opened RecordFile
  import opened TreeModel
  import opened NodeFacts
  import opened BPlusTree
  import opened TreeRead
  import opened TreeVerify

  /** A parsed internal node and the next child to visit. */
  datatype Frame = Frame(node: Node, idx: nat)

  /** What a stacked node stands for. */
  datatype Spine = Spine(tree: Tree, h: nat, lo: Bound, hi: Bound, below: nat)

  ghost predicate FrameOk(s: Store, fr: Frame, sp: Spine, order: nat) {
    && sp.tree.TNode? && NodeRepr(s, fr.node, sp.below, sp.tree) && fr.idx <= |sp.tree.kids|
    && Good(sp.tree, sp.h, sp.lo, sp.hi, AnyFill(order), 0)
  }

  /** Entries below the children that the stack has still to visit, innermost first. */
  ghost function RestOf(frames: seq<Frame>, spine: seq<Spine>): seq<Entry<Cell>>
    requires |frames| == |spine|
    requires forall j :: 0 <= j < |frames| ==> spine[j].tree.TNode? && frames[j].idx <= |spine[j].tree.kids|
  {
    if frames == [] then []
    else
      var n := |frames| - 1;
      Flat(spine[n].tree.kids[frames[n].idx..]) + RestOf(frames[..n], spine[..n])
  }

  ghost function NodeCount(t: Tree): nat
    decreases t, 0
  {
    match t
    case TLeaf(_) => 1
    case TNode(_, kids) => 1 + CountAll(kids)
  }

  ghost function CountAll(ts: seq<Tree>): nat
    decreases ts, 1
  {
    if ts == [] then 0 else NodeCount(ts[0]) + CountAll(ts[1..])
  }

  /** Nodes still to visit: the measure by which the cursor terminates. */
  ghost function Work(frames: seq<Frame>, spine: seq<Spine>): nat
    requires |frames| == |spine|
    requires forall j :: 0 <= j < |frames| ==> spine[j].tree.TNode? && frames[j].idx <= |spine[j].tree.kids|
  {
    if frames == [] then 0
    else
      var n := |frames| - 1;
      CountAll(spine[n].tree.kids[frames[n].idx..]) + Work(frames[..n], spine[..n])
  }

  lemma {:induction false} CountSuffix(ts: seq<Tree>, i: nat)
    requires i <= |ts|
    ensures CountAll(ts[i..]) <= CountAll(ts)
  {
    if i > 0 {
      CountSuffix(ts[1..], i - 1);
      assert ts[1..][i - 1..] == ts[i..];
    }
  }

  ghost predicate FramesOk(s: Store, frames: seq<Frame>, spine: seq<Spine>, order: nat, height: nat) {
    && |spine| == |frames|
    && (forall j :: 0 <= j < |frames| ==> FrameOk(s, frames[j], spine[j], order) && spine[j].h + j == height)
  }

  lemma Pushed(s: Store, frames: seq<Frame>, spine: seq<Spine>, order: nat, height: nat, fr: Frame, sp: Spine)
    requires FramesOk(s, frames, spine, order, height) && FrameOk(s, fr, sp, order) && sp.h + |frames| == height
    ensures FramesOk(s, frames + [fr], spine + [sp], order, height)
    ensures RestOf(frames + [fr], spine + [sp]) == Flat(sp.tree.kids[fr.idx..]) + RestOf(frames, spine)
    ensures Work(frames + [fr], spine + [sp]) == CountAll(sp.tree.kids[fr.idx..]) + Work(frames, spine)
  {
    assert (frames + [fr])[..|frames|] == frames && (spine + [sp])[..|frames|] == spine;
  }

  lemma Popped(s: Store, frames: seq<Frame>, spine: seq<Spine>, order: nat, height: nat)
    requires FramesOk(s, frames, spine, order, height) && frames != []
    ensures var n := |frames| - 1;
            && FramesOk(s, frames[..n], spine[..n], order, height)
            && RestOf(frames, spine) == Flat(spine[n].tree.kids[frames[n].idx..]) + RestOf(frames[..n], spine[..n])
            && Work(frames, spine) == CountAll(spine[n].tree.kids[frames[n].idx..]) + Work(frames[..n], spine[..n])
  {
  }

  /** The entries of a parsed leaf from a position on. */
  ghost function LeafFrom(n: Node, from: nat): seq<Entry<Cell>>
    requires |n.keys| == |n.vals| && from <= |n.keys|
  {
    seq(|n.keys| - from, i requires 0 <= i < |n.keys| - from => Entry(n.keys[from + i], n.vals[from + i]))
  }

  lemma LeafIs(s: Store, n: Node, below: nat, t: Tree, from: nat)
    requires t.TLeaf? && NodeRepr(s, n, below, t) && from <= |n.keys|
    ensures LeafFrom(n, from) == t.es[from..]
  {
  }

  ghost predicate AllReach(es: seq<Entry<Cell>>, sel: Selection) {
    forall i :: 0 <= i < |es| ==> sel.Reaches(es[i].key)
  }

  ghost predicate NoneReach(es: seq<Entry<Cell>>, sel: Selection) {
    forall i :: 0 <= i < |es| ==> !sel.Reaches(es[i].key)
  }

  lemma SeekLeaf(s: Store, n: Node, below: nat, t: Tree, from: nat, sel: Selection, pre: seq<Entry<Cell>>,
                 added: seq<Entry<Cell>>)
    requires t.TLeaf? && NodeRepr(s, n, below, t) && from <= |n.keys| && (sel.Between? || sel.From?)
    requires forall j :: 0 <= j < from ==> n.keys[j] < sel.min
    requires forall j :: from <= j < |n.keys| ==> sel.min <= n.keys[j]
    requires NoneReach(pre, sel) && AllReach(added, sel)
    ensures LeafFrom(n, from) == t.es[from..]
    ensures pre + t.es[..from] + t.es[from..] + added == pre + t.es + added
    ensures NoneReach(pre + t.es[..from], sel) && AllReach(t.es[from..] + added, sel)
  {
    LeafIs(s, n, below, t, from);
    assert forall j :: 0 <= j < |t.es| ==> t.es[j].key == n.keys[j];
    LeafCut(pre, t.es, added, from);
    forall j | 0 <= j < |pre + t.es[..from]| ensures !sel.Reaches((pre + t.es[..from])[j].key) {
    }
  }

  lemma LeafCut(pre: seq<Entry<Cell>>, es: seq<Entry<Cell>>, added: seq<Entry<Cell>>, from: nat)
    requires from <= |es|
    ensures pre + es[..from] + es[from..] + added == pre + es + added
  {
    assert es == es[..from] + es[from..];
  }

  /** The children around the one a seek takes. */
  lemma SeekKid(keys: seq<real>, kids: seq<Tree>, h: nat, lo: Bound, hi: Bound, c: Config, i: nat, sel: Selection,
                bounded: bool, seek: bool)
    requires Routed(TNode(keys, kids), h, lo, hi, c)
    requires bounded <==> seek && (sel.Between? || sel.From?)
    requires if bounded then RoutesTo(keys, sel.min, i) else i == 0
    ensures Flat(kids) == Flat(kids[..i]) + Entries(kids[i]) + Flat(kids[i + 1..])
    ensures if seek then NoneReach(Flat(kids[..i]), sel)
            && AllReach(Flat(kids[i + 1..]), sel) else Flat(kids[..i]) == []
  {
    FlatAround(kids, i);
    if bounded {
      RouteSplit(keys, kids, h, lo, hi, c, sel.min, i);
    }
  }

  lemma SeekJoin(pre: seq<Entry<Cell>>, a: seq<Entry<Cell>>, m: seq<Entry<Cell>>, b: seq<Entry<Cell>>,
                 added: seq<Entry<Cell>>,
                 sel: Selection, seek: bool)
    requires if seek then NoneReach(pre, sel) && AllReach(added, sel) else pre == []
    requires if seek then NoneReach(a, sel) && AllReach(b, sel) else a == []
    ensures pre + (a + m + b) + added == (pre + a) + m + (b + added)
    ensures if seek then NoneReach(pre + a, sel) && AllReach(b + added, sel) else pre + a == []
  {
  }

  /** Skipping what lies below the lower bound loses nothing of the selection. */
  lemma SkipTo(whole: seq<Entry<Cell>>, pre: seq<Entry<Cell>>, leaf: seq<Entry<Cell>>, added: seq<Entry<Cell>>,
               sel: Selection)
    requires pre + leaf + added == whole && NoneReach(pre, sel)
    ensures |pre| <= |whole| && whole[|pre|..] == leaf + added
    ensures Select(whole, sel) == Select(whole[|pre|..], sel)
  {
    var rest := leaf + added;
    Regroup(pre, leaf, added);
    assert whole == pre + rest;
    assert whole[|pre|..] == rest;
    SelectConcat(pre, rest, sel);
    assert Select(pre, sel) == [] by {
      forall i | 0 <= i < |pre| ensures !sel.Keeps(pre[i].key) {
      }
      SelectNone(pre, sel);
    }
  }

  lemma Regroup(a: seq<Entry<Cell>>, b: seq<Entry<Cell>>, c: seq<Entry<Cell>>)
    ensures a + (b + c) == (a + b) + c
  {
  }

  lemma Reassemble(pre: seq<Entry<Cell>>, leaf: seq<Entry<Cell>>, added: seq<Entry<Cell>>, kid: seq<Entry<Cell>>,
                   rest: seq<Entry<Cell>>)
    requires pre == [] && pre + leaf + added == kid
    ensures leaf + (added + rest) == kid + rest
  {
    assert leaf + added == kid;
    Regroup(leaf, added, rest);
  }

  /** The next child of the top frame. */
  lemma TopKid(s: Store, frames: seq<Frame>, spine: seq<Spine>, order: nat, height: nat)
    requires FramesOk(s, frames, spine, order, height) && frames != []
    requires frames[|frames| - 1].idx < |frames[|frames| - 1].node.children|
    ensures var n := |frames| - 1;
            var (fr, sp) := (frames[n], spine[n]);
            && sp.tree.TNode? && fr.idx < |sp.tree.kids| && fr.idx <= |sp.tree.keys| && n < height
            && Repr(s, fr.node.children[fr.idx], sp.tree.kids[fr.idx])
            && Good(sp.tree.kids[fr.idx], height - n - 1, KidLo(sp.tree.keys, sp.lo, fr.idx),
                    KidHi(sp.tree.keys, sp.hi, fr.idx), AnyFill(order), 0)
  {
    var n := |frames| - 1;
    var fr, sp := frames[n], spine[n];
    assert FrameOk(s, fr, sp, order);
    assert Routed(sp.tree, sp.h, sp.lo, sp.hi, AnyFill(order));
    assert Good(sp.tree.kids[fr.idx], sp.h - 1, KidLo(sp.tree.keys, sp.lo, fr.idx), KidHi(sp.tree.keys, sp.hi, fr.idx),
                AnyFill(order), 0);
  }

  lemma KidsFrom(kids: seq<Tree>, i: nat)
    requires i < |kids|
    ensures Flat(kids[i..]) == Entries(kids[i]) + Flat(kids[i + 1..])
    ensures CountAll(kids[i..]) == NodeCount(kids[i]) + CountAll(kids[i + 1..])
  {
    assert kids[i..][1..] == kids[i + 1..] && kids[i..][0] == kids[i];
  }

  /** The stack once the top frame's next child is counted as visited. */
  lemma TopVisited(s: Store, frames: seq<Frame>, spine: seq<Spine>, order: nat, height: nat)
    requires FramesOk(s, frames, spine, order, height) && frames != []
    requires frames[|frames| - 1].idx < |frames[|frames| - 1].node.children|
    ensures var n := |frames| - 1;
            var (fr, sp) := (frames[n], spine[n]);
            var frames2 := frames[..n] + [fr.(idx := fr.idx + 1)];
            && sp.tree.TNode? && fr.idx < |sp.tree.kids| && FramesOk(s, frames2, spine, order, height)
            && RestOf(frames, spine) == Entries(sp.tree.kids[fr.idx]) + RestOf(frames2, spine)
            && Work(frames, spine) == NodeCount(sp.tree.kids[fr.idx]) + Work(frames2, spine)
  {
    var n := |frames| - 1;
    var fr, sp := frames[n], spine[n];
    assert FrameOk(s, fr, sp, order);
    Popped(s, frames, spine, order, height);
    KidsFrom(sp.tree.kids, fr.idx);
    var fr2 := fr.(idx := fr.idx + 1);
    assert FrameOk(s, fr2, sp, order);
    Pushed(s, frames[..n], spine[..n], order, height, fr2, sp);
    assert spine[..n] + [sp] == spine;
    Regroup(Entries(sp.tree.kids[fr.idx]), Flat(sp.tree.kids[fr.idx + 1..]), RestOf(frames[..n], spine[..n]));
  }

  /** The entry at the cursor and what follows it. */
  lemma NextEntry(whole: seq<Entry<Cell>>, pos: nat, leaf: Node, from: nat, rest: seq<Entry<Cell>>, sel: Selection)
    requires pos <= |whole| && Ascending(whole) && AllReach(whole[pos..], sel)
    requires |leaf.keys| == |leaf.vals| && from < |leaf.keys| && LeafFrom(leaf, from) + rest == whole[pos..]
    ensures pos < |whole| && whole[pos] == Entry(leaf.keys[from], leaf.vals[from])
    ensures LeafFrom(leaf, from + 1) + rest == whole[pos + 1..] && AllReach(whole[pos + 1..], sel)
    ensures sel.Passes(leaf.keys[from]) ==> Select(whole[pos..], sel) == [whole[pos]] + Select(whole[pos + 1..], sel)
    ensures !sel.Passes(leaf.keys[from]) ==> Select(whole[pos..], sel) == []
  {
    assert (LeafFrom(leaf, from) + rest)[0] == Entry(leaf.keys[from], leaf.vals[from]);
    assert whole[pos..][0] == whole[pos];
    assert LeafFrom(leaf, from + 1) == LeafFrom(leaf, from)[1..];
    assert whole[pos + 1..] == whole[pos..][1..];
    assert (LeafFrom(leaf, from) + rest)[1..] == LeafFrom(leaf, from + 1) + rest;
    var tail := whole[pos + 1..];
    forall i | 0 <= i < |tail| ensures sel.Reaches(tail[i].key) {
      assert tail[i] == whole[pos..][i + 1];
    }
    if !sel.Passes(leaf.keys[from]) {
      SelectNone(whole[pos..], sel);
    } else {
      assert sel.Reaches(whole[pos..][0].key);
    }
  }

  /** The head of the stream with its value, read from a file that has grown. */
  lemma HeadResolved(s: Store, s2: Store, whole: seq<Entry<Cell>>, pos: nat, sel: Selection)
    requires Extends(s, s2) && pos < |whole| && CellsOk(s, whole)
    requires Select(whole[pos..], sel) == [whole[pos]] + Select(whole[pos + 1..], sel)
    ensures var r := Resolve(s2, whole[pos].val);
            r.Some? && Resolved(s, Select(whole[pos..], sel))
                       == [Entry(whole[pos].key, r.value)] + Resolved(s, Select(whole[pos + 1..], sel))
  {
    ResolveExtends(s, s2, whole[pos].val);
  }

  /** A node of the tree as it was parses as it did, however the file has grown. */
  lemma ParsedThen(s: Store, s2: Store, p: nat, t: Tree, h: nat, lo: Bound, hi: Bound, c: Config)
    requires Extends(s, s2) && Repr(s, p, t) && Good(t, h, lo, hi, c, 0)
    ensures ParseNode(s2, p).0 == Ok && NodeRepr(s, ParseNode(s2, p).1, p, t)
    ensures t.TLeaf? ==> h == 0 && Ascending(t.es)
    ensures t.TNode? ==> h > 0 && (forall i, j :: 0 <= i < j < |t.keys| ==> t.keys[i] < t.keys[j])
                         && |t.kids| == |t.keys| + 1
  {
    ReprExtends(s, s2, p, t);
    ReprParses(s, p, t);
    ReprParses(s2, p, t);
  }

  class Cursor {
    const t: Bpt
    const sel: Selection
    var stack: seq<Frame>
    var leaf: Node
    var hasLeaf: bool
    var leafPos: nat
    var done: bool
    // The commit the cursor was opened at, the stacked subtrees, and how far the stream has come.
    ghost const store0: Store
    ghost const order0: nat
    ghost const height0: nat
    ghost const whole: seq<Entry<Cell>>
    ghost var spine: seq<Spine>
    ghost var pos: nat

    constructor (t: Bpt, sel: Selection)
      requires t.Valid()
      ensures this.t == t && this.sel == sel && store0 == t.f.store && order0 == t.order && height0 == t.height
      ensures whole == Entries(t.tree)
      ensures stack == [] && spine == [] && !hasLeaf && leafPos == 0 && !done && pos == 0
    {
      this.t, this.sel := t, sel;
      stack, hasLeaf, leafPos, done := [], false, 0, false;
      leaf := Node(0, true, [], [], []);
      store0, order0, height0, whole, spine, pos := t.f.store, t.order, t.height, Entries(t.tree), [], 0;
    }

    ghost predicate StackOk()
      reads this
    {
      FramesOk(store0, stack, spine, order0, height0)
    }

    ghost predicate LeafOk()
      reads this
    {
      hasLeaf ==> |leaf.keys| == |leaf.vals| && leafPos <= |leaf.keys|
    }

    /** What is left of the current leaf. */
    ghost function LeafRest(): seq<Entry<Cell>>
      reads this
      requires LeafOk()
    {
      if hasLeaf then LeafFrom(leaf, leafPos) else []
    }

    /** Holds from opening on, whatever is appended to the file meanwhile. */
    ghost predicate Valid()
      reads this, t
    {
      && Extends(store0, t.f.store)
      && height0 <= MAX_DEPTH && Ascending(whole) && CellsOk(store0, whole)
      && StackOk() && LeafOk() && pos <= |whole|
      && AllReach(whole[pos..], sel)
      && (if done then Select(whole[pos..], sel) == [] else LeafRest() + RestOf(stack, spine) == whole[pos..])
    }

    /** The entries the cursor has still to deliver. */
    ghost function ToCome(): seq<Entry<Bytes>>
      reads this
      requires pos <= |whole|
    {
      Resolved(store0, Select(whole[pos..], sel))
    }

    /**
     * Descend from `ptr` to a leaf, stacking the internal nodes on the way: leftmost, or, when
     * seeking, towards the lower bound.  `pre` is what the seek skipped.
     */
    method Descend(ptr: nat, seek: bool, ghost t0: Tree, ghost lo0: Bound, ghost hi0: Bound)
      returns (e: Status, ghost pre: seq<Entry<Cell>>, ghost added: seq<Entry<Cell>>)
      requires Extends(store0, t.f.store) && StackOk() && |stack| <= height0
      requires Repr(store0, ptr, t0) && Good(t0, height0 - |stack|, lo0, hi0, AnyFill(order0), 0)
      modifies this`stack, this`spine, this`leaf, this`hasLeaf, this`leafPos
      ensures e == if height0 > MAX_DEPTH then TooDeep else Ok
      ensures StackOk() && LeafOk()
      ensures e == Ok ==> hasLeaf && RestOf(stack, spine) == added + old(RestOf(stack, spine))
      ensures e == Ok ==> pre + LeafRest() + added == Entries(t0)
      ensures e == Ok ==> if seek then NoneReach(pre, sel) && AllReach(LeafRest() + added, sel) else pre == []
      ensures e == Ok ==> Work(stack, spine) < NodeCount(t0) + old(Work(stack, spine))
    {
      hasLeaf := false;
      var p, down := ptr, true;
      ghost var cur, lo, hi := t0, lo0, hi0;
      ghost var rest0, work0 := RestOf(stack, spine), NodeCount(t0) + Work(stack, spine);
      pre, added := [], [];
      assert pre + Entries(cur) + added == Entries(t0);
      while down
        invariant if down then Descending(p, seek, cur, lo, hi, pre, added, Entries(t0), rest0, work0)
                  else height0 <= MAX_DEPTH && AtLeaf(seek, pre, added, Entries(t0), rest0, work0)
        decreases down, height0 - |stack|
      {
        if |stack| > MAX_DEPTH {
          return TooDeep, pre, added;
        }
        down, p, cur, lo, hi, pre, added :=
          DescendOne(p, seek, cur, lo, hi, pre, added, Entries(t0), rest0, work0);
      }
      e := Ok;
    }

    /** On the way down: `cur` at `p` is still to be entered, `pre` was skipped, `added` is stacked. */
    ghost predicate Descending(p: nat, seek: bool, cur: Tree, lo: Bound, hi: Bound, pre: seq<Entry<Cell>>,
                               added: seq<Entry<Cell>>, es0: seq<Entry<Cell>>, rest0: seq<Entry<Cell>>, work0: nat)
      reads this, t
    {
      && Extends(store0, t.f.store) && StackOk() && |stack| <= height0 && !hasLeaf
      && Repr(store0, p, cur) && Good(cur, height0 - |stack|, lo, hi, AnyFill(order0), 0)
      && pre + Entries(cur) + added == es0 && RestOf(stack, spine) == added + rest0
      && Work(stack, spine) + NodeCount(cur) <= work0
      && if seek then NoneReach(pre, sel) && AllReach(added, sel) else pre == []
    }

    /** At the end of the way down. */
    ghost predicate AtLeaf(seek: bool, pre: seq<Entry<Cell>>, added: seq<Entry<Cell>>, es0: seq<Entry<Cell>>,
                           rest0: seq<Entry<Cell>>, work0: nat)
      reads this
    {
      && StackOk() && LeafOk() && hasLeaf && RestOf(stack, spine) == added + rest0
      && pre + LeafRest() + added == es0 && Work(stack, spine) < work0
      && if seek then NoneReach(pre, sel) && AllReach(LeafRest() + added, sel) else pre == []
    }

    /** Enter the node at `p`: a leaf ends the descent, an internal node is stacked. */
    method DescendOne(p: nat, seek: bool, ghost cur: Tree, ghost lo: Bound, ghost hi: Bound,
                      ghost pre: seq<Entry<Cell>>, ghost added: seq<Entry<Cell>>, ghost es0: seq<Entry<Cell>>,
                      ghost rest0: seq<Entry<Cell>>, ghost work0: nat)
      returns (down: bool, p2: nat, ghost cur2: Tree, ghost lo2: Bound, ghost hi2: Bound,
               ghost pre2: seq<Entry<Cell>>, ghost added2: seq<Entry<Cell>>)
      requires Descending(p, seek, cur, lo, hi, pre, added, es0, rest0, work0)
      modifies this`stack, this`spine, this`leaf, this`hasLeaf, this`leafPos
      ensures down ==> |stack| == old(|stack|) + 1
      ensures if down then Descending(p2, seek, cur2, lo2, hi2, pre2, added2, es0, rest0, work0)
              else |stack| == old(|stack|) == height0 && AtLeaf(seek, pre2, added2, es0, rest0, work0)
    {
      ParsedThen(store0, t.f.store, p, cur, height0 - |stack|, lo, hi, AnyFill(order0));
      var nd := ParseNode(t.f.store, p).1;
      p2, cur2, lo2, hi2, pre2, added2 := p, cur, lo, hi, pre, added;
      var bounded := seek && (sel.Between? || sel.From?);
      down := !nd.isLeaf;
      if nd.isLeaf {
        pre2 := TakeLeaf(nd, bounded, p, cur, pre, added);
        return;
      }
      var i := 0;
      if bounded {
        i := UpperBound(nd.keys, sel.min);
      }
      pre2, added2 := StepDown(nd, i, bounded, seek, p, cur, height0 - |stack|, lo, hi, pre, added, rest0);
      p2, lo2, hi2, cur2 := nd.children[i], KidLo(cur.keys, lo, i), KidHi(cur.keys, hi, i), cur.kids[i];
    }

    /** One level of the descent: stack the node with the children after `i` still to visit. */
    method StepDown(nd: Node, i: nat, bounded: bool, seek: bool, ghost below: nat, ghost cur: Tree, ghost h: nat,
                    ghost lo: Bound, ghost hi: Bound, ghost pre: seq<Entry<Cell>>, ghost added: seq<Entry<Cell>>,
                    ghost rest0: seq<Entry<Cell>>)
      returns (ghost pre2: seq<Entry<Cell>>, ghost added2: seq<Entry<Cell>>)
      requires StackOk() && cur.TNode? && NodeRepr(store0, nd, below, cur) && i < |cur.kids|
      requires h + |stack| == height0 && Good(cur, h, lo, hi, AnyFill(order0), 0)
      requires bounded <==> seek && (sel.Between? || sel.From?)
      requires if bounded then RoutesTo(cur.keys, sel.min, i) else i == 0
      requires if seek then NoneReach(pre, sel) && AllReach(added, sel) else pre == []
      requires RestOf(stack, spine) == added + rest0
      modifies this`stack, this`spine
      ensures StackOk() && |stack| == old(|stack|) + 1 && h > 0
      ensures Repr(store0, nd.children[i], cur.kids[i])
      ensures Good(cur.kids[i], h - 1, KidLo(cur.keys, lo, i), KidHi(cur.keys, hi, i), AnyFill(order0), 0)
      ensures RestOf(stack, spine) == added2 + rest0
      ensures pre2 + Entries(cur.kids[i]) + added2 == pre + Entries(cur) + added
      ensures if seek then NoneReach(pre2, sel) && AllReach(added2, sel) else pre2 == []
      ensures Work(stack, spine) + NodeCount(cur.kids[i]) < NodeCount(cur) + old(Work(stack, spine))
    {
      SeekKid(cur.keys, cur.kids, h, lo, hi, AnyFill(order0), i, sel, bounded, seek);
      SeekJoin(pre, Flat(cur.kids[..i]), Entries(cur.kids[i]), Flat(cur.kids[i + 1..]), added, sel, seek);
      Regroup(Flat(cur.kids[i + 1..]), added, rest0);
      pre2, added2 := pre + Flat(cur.kids[..i]), Flat(cur.kids[i + 1..]) + added;
      PushChild(nd, i, below, cur, h, lo, hi);
    }

    /** Make a leaf current, past the keys below the lower bound when seeking. */
    method TakeLeaf(nd: Node, bounded: bool, ghost below: nat, ghost cur: Tree, ghost pre: seq<Entry<Cell>>,
                    ghost added: seq<Entry<Cell>>)
      returns (ghost pre2: seq<Entry<Cell>>)
      requires cur.TLeaf? && NodeRepr(store0, nd, below, cur) && Ascending(cur.es)
      requires bounded ==> (sel.Between? || sel.From?) && NoneReach(pre, sel) && AllReach(added, sel)
      modifies this`leaf, this`hasLeaf, this`leafPos
      ensures hasLeaf && LeafOk()
      ensures pre2 + LeafRest() + added == pre + cur.es + added
      ensures if bounded then NoneReach(pre2, sel) && AllReach(LeafRest() + added, sel)
              else pre2 == pre && LeafRest() == cur.es
    {
      leaf, hasLeaf, leafPos, pre2 := nd, true, 0, pre;
      if bounded {
        assert forall j :: 0 <= j < |cur.es| ==> cur.es[j].key == nd.keys[j];
        leafPos := LowerBound(nd.keys, sel.min);
        SeekLeaf(store0, nd, below, cur, leafPos, sel, pre, added);
        pre2 := pre + cur.es[..leafPos];
      } else {
        LeafIs(store0, nd, below, cur, 0);
        assert cur.es[0..] == cur.es;
      }
    }

    method PushChild(nd: Node, i: nat, ghost below: nat, ghost cur: Tree, ghost h: nat, ghost lo: Bound,
                     ghost hi: Bound)
      requires StackOk() && cur.TNode? && NodeRepr(store0, nd, below, cur) && i < |cur.kids|
      requires h + |stack| == height0 && Good(cur, h, lo, hi, AnyFill(order0), 0)
      modifies this`stack, this`spine
      ensures StackOk() && |stack| == old(|stack|) + 1 && h > 0
      ensures Repr(store0, nd.children[i], cur.kids[i])
      ensures Good(cur.kids[i], h - 1, KidLo(cur.keys, lo, i), KidHi(cur.keys, hi, i), AnyFill(order0), 0)
      ensures RestOf(stack, spine) == Flat(cur.kids[i + 1..]) + old(RestOf(stack, spine))
      ensures Work(stack, spine) + NodeCount(cur.kids[i]) < NodeCount(cur) + old(Work(stack, spine))
    {
      ghost var sp := Spine(cur, h, lo, hi, below);
      Pushed(store0, stack, spine, order0, height0, Frame(nd, i + 1), sp);
      CountSuffix(cur.kids, i);
      assert cur.kids[i..][1..] == cur.kids[i + 1..];
      stack, spine := stack + [Frame(nd, i + 1)], spine + [sp];
    }

    static lemma ReadyToOpen(t: Bpt)
      requires t.Valid()
      ensures Repr(t.f.store, t.root, t.tree) && Good(t.tree, t.height, Inf, Inf, AnyFill(t.order), 0)
      ensures Ascending(Entries(t.tree)) && CellsOk(t.f.store, Entries(t.tree))
    {
      VersionsVerify(t.f.store, t.Now());
      RoutedEntries(t.tree, t.height, Inf, Inf, t.Cfg());
    }

    /** Open a cursor on the current root; it fails only on a tree too deep to walk. */
    static method Open(t: Bpt, sel: Selection) returns (e: Status, c: Cursor)
      requires t.Valid()
      ensures fresh(c) && c.t == t && c.sel == sel
      ensures e == if t.height > MAX_DEPTH then TooDeep else Ok
      ensures e == Ok ==> c.Valid() && c.store0 == t.f.store && c.whole == Entries(t.tree)
      ensures e == Ok ==> c.ToCome() == Resolved(t.f.store, Select(Entries(t.tree), sel))
    {
      c := new Cursor(t, sel);
      ReadyToOpen(t);
      ghost var pre, added;
      e, pre, added := c.Descend(t.root, true, t.tree, Inf, Inf);
      if e != Ok {
        return;
      }
      c.pos := |pre|;
      SkipTo(c.whole, pre, c.LeafRest(), added, sel);
    }

    /** Move to the next leaf: pop the exhausted frames, descend leftmost from the first that is not. */
    method Advance() returns (advanced: bool)
      requires Valid() && !done && LeafRest() == []
      modifies this`stack, this`spine, this`leaf, this`hasLeaf, this`leafPos
      ensures Valid()
      ensures advanced ==> Work(stack, spine) < old(Work(stack, spine))
      ensures !advanced ==> whole[pos..] == []
    {
      hasLeaf := false;
      while |stack| > 0
        invariant Valid() && !hasLeaf && Work(stack, spine) <= old(Work(stack, spine))
        decreases |stack|
      {
        advanced := VisitOrPop();
        if advanced {
          return;
        }
      }
      advanced := false;
    }

    /** Descend from the top frame's next child, or drop a frame that has none. */
    method VisitOrPop() returns (visited: bool)
      requires Valid() && !done && !hasLeaf && |stack| > 0
      modifies this`stack, this`spine, this`leaf, this`hasLeaf, this`leafPos
      ensures Valid()
      ensures if visited then Work(stack, spine) < old(Work(stack, spine))
              else !hasLeaf && |stack| == old(|stack|) - 1 && Work(stack, spine) <= old(Work(stack, spine))
    {
      var fr := stack[|stack| - 1];
      visited := fr.idx < |fr.node.children|;
      if visited {
        VisitNextChild(|stack| - 1, fr, spine[|stack| - 1]);
      } else {
        PopFrame();
      }
    }

    method PopFrame()
      requires Valid() && !done && !hasLeaf && |stack| > 0
      requires stack[|stack| - 1].idx >= |stack[|stack| - 1].node.children|
      modifies this`stack, this`spine
      ensures Valid() && |stack| == old(|stack|) - 1
      ensures Work(stack, spine) <= old(Work(stack, spine))
    {
      var n := |stack| - 1;
      Popped(store0, stack, spine, order0, height0);
      assert FrameOk(store0, stack[n], spine[n], order0);
      assert spine[n].tree.kids[stack[n].idx..] == [];
      stack, spine := stack[..n], spine[..n];
    }

    /** Count the top frame's next child as visited and descend into it. */
    method VisitNextChild(n: nat, fr: Frame, ghost sp: Spine)
      requires Extends(store0, t.f.store) && StackOk() && height0 <= MAX_DEPTH && |stack| == n + 1
      requires stack[n] == fr && spine[n] == sp && fr.idx < |fr.node.children|
      modifies this`stack, this`spine, this`leaf, this`hasLeaf, this`leafPos
      ensures StackOk() && LeafOk()
      ensures LeafRest() + RestOf(stack, spine) == old(RestOf(stack, spine))
      ensures Work(stack, spine) < old(Work(stack, spine))
    {
      TopKid(store0, stack, spine, order0, height0);
      TopVisited(store0, stack, spine, order0, height0);
      ghost var kid, lo, hi := sp.tree.kids[fr.idx], KidLo(sp.tree.keys, sp.lo, fr.idx),
          KidHi(sp.tree.keys, sp.hi, fr.idx);
      stack := stack[..n] + [fr.(idx := fr.idx + 1)];
      ghost var rest := RestOf(stack, spine);
      var e;
      ghost var pre, added;
      e, pre, added := Descend(fr.node.children[fr.idx], false, kid, lo, hi);
      Reassemble(pre, LeafRest(), added, Entries(kid), rest);
    }

    /** The next entry of the stream, or None at its end. */
    method Next() returns (r: Option<Entry<Bytes>>)
      requires Valid()
      modifies this
      ensures Valid()
      ensures r == None ==> old(ToCome()) == [] && ToCome() == []
      ensures r.Some? ==> old(ToCome()) == [r.value] + ToCome()
    {
      if done {
        return None;
      }
      while true
        invariant Valid() && !done && pos == old(pos)
        decreases Work(stack, spine)
      {
        if hasLeaf && leafPos < |leaf.keys| {
          r := Deliver();
          return;
        }
        var advanced := Advance();
        if !advanced {
          Close();
          return None;
        }
      }
    }

    /** The end of the stream. */
    method Close()
      requires Valid() && Select(whole[pos..], sel) == []
      modifies this`done, this`stack, this`spine, this`hasLeaf
      ensures Valid() && ToCome() == []
    {
      done, stack, spine, hasLeaf := true, [], [], false;
      assert AllReach(whole[pos..], sel) && StackOk() && LeafOk();
    }

    /** Hand out the current leaf entry, unless it lies past the upper bound, which ends the stream. */
    method Deliver() returns (r: Option<Entry<Bytes>>)
      requires Valid() && !done && hasLeaf && leafPos < |leaf.keys|
      modifies this
      ensures Valid()
      ensures r == None ==> old(ToCome()) == [] && ToCome() == []
      ensures r.Some? ==> old(ToCome()) == [r.value] + ToCome()
    {
      var k, cell := leaf.keys[leafPos], leaf.vals[leafPos];
      NextEntry(whole, pos, leaf, leafPos, RestOf(stack, spine), sel);
      if !sel.Passes(k) {
        Close();
        return None;
      }
      HeadResolved(store0, t.f.store, whole, pos, sel);
      var v := Resolve(t.f.store, cell);
      r := Some(Entry(k, v.value));
      StepLeaf();
    }

    /** Past the current leaf entry. */
    method StepLeaf()
      requires Valid() && !done && hasLeaf && leafPos < |leaf.keys| && pos < |whole|
      requires LeafFrom(leaf, leafPos + 1) + RestOf(stack, spine) == whole[pos + 1..]
      requires AllReach(whole[pos + 1..], sel)
      modifies this`leafPos, this`pos
      ensures Valid() && pos == old(pos) + 1
    {
      leafPos, pos := leafPos + 1, pos + 1;
    }
  }
}
