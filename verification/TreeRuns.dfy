// Whole runs: any sequence of adds, deletes and compactions, from a freshly created tree or from one
// found in a file, and cursors that stream while writes go on.
module TreeRuns {
  import opened SortedEntries
  import opened RecordFile
  import opened TreeModel
  import opened NodeFacts
  import opened BPlusTree
  import opened TreeRead
  import opened TreeVerify
  import opened TreeCursor
  import opened Compaction
  import opened Keys

  datatype Op = AddOp(key: Key, val: Bytes) | DeleteOp(key: Key)

  /** What one operation that returned OK does to the map; any other outcome changes nothing. */
  ghost function Applied(m: map<real, Bytes>, op: Op, r: Status): map<real, Bytes> {
    if r != Ok || !Storable(op.key) then m
    else match op
      case AddOp(k, v) => m[Rank(k) := v]
      case DeleteOp(k) => m - {Rank(k)}
  }

  ghost function Replay(m: map<real, Bytes>, ops: seq<Op>, rs: seq<Status>): map<real, Bytes>
    requires |ops| == |rs|
  {
    if ops == [] then m
    else
      var n := |ops| - 1;
      Applied(Replay(m, ops[..n], rs[..n]), ops[n], rs[n])
  }

  method Perform(t: Bpt, op: Op, hostOk: bool) returns (r: Status)
    requires t.Valid() && (op.DeleteOp? ==> t.fill != Loose)
    modifies t
    ensures t.Valid() && t.order == old(t.order) && t.readOnly == old(t.readOnly)
    ensures t.Contents() == Applied(old(t.Contents()), op, r)
    ensures Extends(old(t.f.store), t.f.store)
    ensures r == State <==> t.readOnly || !Storable(op.key)
    ensures t.fill == old(t.fill) && t.minKeys == old(t.minKeys)
    ensures r == TooDeep <==> !t.readOnly && Storable(op.key) && old(t.height) > MAX_DEPTH
    ensures r == TooDeep ==> old(t.size) >= DeepSize(t.fill)
    ensures t.height <= old(t.height) + (if op.AddOp? then 1 else 0)
  {
    ghost var pending;
    match op {
      case AddOp(k, v) => r, pending := t.Add(k, v, hostOk);
      case DeleteOp(k) => r, pending := t.Delete(k, hostOk);
    }
  }

  /** The recorded size is the number of keys. */
  lemma SizeIsCount(t: Bpt)
    requires t.Valid()
    ensures t.size == |t.Contents()|
  {
    RoutedEntries(t.tree, t.height, Inf, Inf, t.Cfg());
    ResolvedAscending(t.f.store, Entries(t.tree));
    ResolvedShape(t.f.store, Entries(t.tree));
    MapOfSize(Resolved(t.f.store, Entries(t.tree)));
  }

  /**
   * A run on a fresh tree.  Whatever the host answers, the tree ends up holding exactly the map
   * the successful operations build, satisfies its invariant, and is accepted by the verifier.
   */
  method RunFromCreate(order: nat, ops: seq<Op>, host: seq<bool>) returns (rs: seq<Status>, verdict: Status, t: Bpt)
    requires order >= 3 && |host| == |ops|
    ensures t.Valid() && |rs| == |ops|
    ensures t.Contents() == Replay(map[], ops, rs)
    ensures t.size == |t.Contents()|
    ensures verdict == Ok <==> t.height <= MAX_DEPTH
    ensures t.size < Pow2(MAX_DEPTH + 1) ==> verdict == Ok
  {
    var e, t0;
    e, t0 := Bpt.Create(order, true);
    rs, verdict, t := Run(t0, seq(|ops|, i requires 0 <= i < |ops| => Do(ops[i], host[i])));
    OpsReplay(map[], ops, host, rs);
  }

  // ---- runs with compaction ----

  /** One operation, or a compaction into a new file that takes the place of the old one. */
  datatype Action = Do(op: Op, hostOk: bool) | CompactNow(hostOk: bool)

  /** What an action does to the map: a compaction nothing. */
  ghost function Acted(m: map<real, Bytes>, a: Action, r: Status): map<real, Bytes> {
    match a
    case Do(op, _) => Applied(m, op, r)
    case CompactNow(_) => m
  }

  ghost function ReplayAll(m: map<real, Bytes>, script: seq<Action>, rs: seq<Status>): map<real, Bytes>
    requires |script| == |rs|
  {
    if script == [] then m
    else
      var n := |script| - 1;
      Acted(ReplayAll(m, script[..n], rs[..n]), script[n], rs[n])
  }

  lemma {:induction false} OpsReplay(m: map<real, Bytes>, ops: seq<Op>, host: seq<bool>, rs: seq<Status>)
    requires |ops| == |host| == |rs|
    ensures var script := seq(|ops|, i requires 0 <= i < |ops| => Do(ops[i], host[i]));
            ReplayAll(m, script, rs) == Replay(m, ops, rs)
  {
    if ops != [] {
      var n := |ops| - 1;
      OpsReplay(m, ops[..n], host[..n], rs[..n]);
      var script := seq(|ops|, i requires 0 <= i < |ops| => Do(ops[i], host[i]));
      assert script[..n] == seq(n, i requires 0 <= i < n => Do(ops[..n][i], host[..n][i]));
    }
  }

  ghost predicate Compacts(script: seq<Action>) {
    exists i :: 0 <= i < |script| && script[i].CompactNow?
  }

  /** How many adds a run has. */
  ghost function Adds(script: seq<Action>): nat {
    if script == [] then 0
    else
      var n := |script| - 1;
      Adds(script[..n]) + (if script[n].Do? && script[n].op.AddOp? then 1 else 0)
  }

  /** The fill that a run of writes and compactions keeps. */
  ghost predicate FillKept(was: Fill, now: Fill) {
    now == was || now == Edge || (was in {Loose, Sparse} && now == Sparse)
  }

  /** One action; a compaction that succeeds gives a new handle. */
  method Act(t: Bpt, a: Action) returns (r: Status, t2: Bpt)
    requires t.Valid() && t.fill != Loose
    modifies t
    ensures t2.Valid() && t2.fill != Loose && t2.order == old(t.order) && (t2 == t || fresh(t2))
    ensures t2.Contents() == Acted(old(t.Contents()), a, r)
    ensures FillKept(old(t.fill), t2.fill) && (a.Do? ==> t2 == t && t2.fill == old(t.fill))
    ensures a.Do? ==> t2.height <= old(t.height) + (if a.op.AddOp? then 1 else 0)
    ensures a.CompactNow? ==> (r == TooDeep <==> old(t.height) > MAX_DEPTH)
    ensures a.CompactNow? && r == Ok && t2.height > 0 ==> t2.size >= Pow2(t2.height)
    ensures r == TooDeep ==> old(t.size) >= DeepSize(old(t.fill))
  {
    t2 := t;
    match a {
      case Do(op, hostOk) => r := Perform(t, op, hostOk);
      case CompactNow(hostOk) =>
        if t.height > MAX_DEPTH {
          DeepIsLarge(t.f.store, t.Now());
        }
        var c;
        r, c := CompactAndOpen(t, hostOk);
        FillOfCreated(t);
        if r == Ok {
          t2 := c;
        }
    }
  }

  /** A tree that guarantees fill works with the minimum of its creation. */
  lemma FillOfCreated(t: Bpt)
    requires t.Valid()
    ensures t.fill in {Edge, Full} ==> t.minKeys == MinKeysFor(t.order)
  {
  }

  /** A refusal for depth comes only from a large tree, if the first one was created here. */
  ghost predicate DeepOnlyLarge(m: map<real, Bytes>, fill: Fill, script: seq<Action>, rs: seq<Status>) {
    |script| == |rs| && forall i :: 0 <= i < |rs| && rs[i] == TooDeep && fill in {Edge, Full} ==>
      |ReplayAll(m, script[..i], rs[..i])| >= Pow2(MAX_DEPTH)
  }

  lemma DeepSizes(fill: Fill)
    requires fill in {Edge, Full}
    ensures DeepSize(fill) >= Pow2(MAX_DEPTH)
  {
  }

  lemma DeepStep(m: map<real, Bytes>, fill: Fill, script: seq<Action>, rs: seq<Status>, i: nat, r: Status)
    requires i < |script| && DeepOnlyLarge(m, fill, script[..i], rs)
    requires r == TooDeep && fill in {Edge, Full} ==> |ReplayAll(m, script[..i], rs)| >= Pow2(MAX_DEPTH)
    ensures DeepOnlyLarge(m, fill, script[..i + 1], rs + [r])
  {
    forall k | 0 <= k < i + 1 && (rs + [r])[k] == TooDeep && fill in {Edge, Full}
      ensures |ReplayAll(m, script[..i + 1][..k], (rs + [r])[..k])| >= Pow2(MAX_DEPTH)
    {
      assert script[..i + 1][..k] == script[..i][..k] && (rs + [r])[..k] == rs[..k];
      if k == i {
        assert script[..i][..i] == script[..i] && rs[..i] == rs;
      }
    }
  }

  /**
   * Adds, deletes and compactions in any order, on any tree whose children have ranges that are not
   * empty: the map is what the successful operations build, and the verifier accepts the end exactly
   * if the tree is not too deep to walk.  A tree that was created here gets that deep only with 2^128
   * entries; any other grows by one level an add at most, and a compaction levels it.
   */
  method Run(t0: Bpt, script: seq<Action>) returns (rs: seq<Status>, verdict: Status, t: Bpt)
    requires t0.Valid() && t0.fill != Loose
    modifies t0
    ensures t.Valid() && (t == t0 || fresh(t)) && |rs| == |script|
    ensures t.Contents() == ReplayAll(old(t0.Contents()), script, rs) && t.size == |t.Contents()|
    ensures FillKept(old(t0.fill), t.fill) && DeepOnlyLarge(old(t0.Contents()), old(t0.fill), script, rs)
    ensures !Compacts(script) ==> t == t0 && t.fill == old(t0.fill) && t.height <= old(t0.height) + Adds(script)
    ensures verdict == Ok <==> t.height <= MAX_DEPTH
    ensures t.size < DeepSize(t.fill) ==> verdict == Ok
  {
    t, rs := t0, [];
    for i := 0 to |script|
      invariant t.Valid() && t.fill != Loose && (t == t0 || fresh(t)) && |rs| == i
      invariant t.Contents() == ReplayAll(old(t0.Contents()), script[..i], rs)
      invariant FillKept(old(t0.fill), t.fill) && DeepOnlyLarge(old(t0.Contents()), old(t0.fill), script[..i], rs)
      invariant !Compacts(script[..i]) ==>
                  t == t0 && t.fill == old(t0.fill) && t.height <= old(t0.height) + Adds(script[..i])
    {
      var r;
      assert script[..i + 1][..i] == script[..i] && script[..i + 1][i] == script[i];
      assert Compacts(script[..i]) || script[i].CompactNow? ==> Compacts(script[..i + 1]);
      SizeIsCount(t);
      if t.fill in {Edge, Full} {
        DeepSizes(t.fill);
      }
      r, t := Act(t, script[i]);
      DeepStep(old(t0.Contents()), old(t0.fill), script, rs, i, r);
      assert (rs + [r])[..i] == rs;
      rs := rs + [r];
    }
    assert script[..|script|] == script;
    SizeIsCount(t);
    verdict := Checked(t);
  }

  /** Run the verifier on the file of a handle. */
  method Checked(t: Bpt) returns (verdict: Status)
    requires t.Valid()
    ensures verdict == Ok <==> t.height <= MAX_DEPTH
    ensures t.size < DeepSize(t.fill) ==> verdict == Ok
  {
    VersionsVerify(t.f.store, t.Now());
    ghost var t1, h1;
    verdict, t1, h1 := Verify(t.f.store, t.root, t.order, t.size, t.height <= MAX_DEPTH, t.tree, t.height);
    if verdict == Ok {
      ReprUnique(t.f.store, t.root, t1, t.tree);
      HeightUnique(t1, h1, t.height, Inf, Inf, AnyFill(t.order), 0);
    }
  }

  /**
   * Create, then adds, deletes and compactions in any order, whatever the host answers: the verifier
   * accepts every tree of fewer than 2^128 entries, and nothing is refused for depth before that.
   */
  method RunWithCompaction(order: nat, script: seq<Action>) returns (rs: seq<Status>, verdict: Status, t: Bpt)
    requires order >= 3
    ensures t.Valid() && t.fill in {Edge, Full} && |rs| == |script|
    ensures t.Contents() == ReplayAll(map[], script, rs) && t.size == |t.Contents()|
    ensures DeepOnlyLarge(map[], Full, script, rs)
    ensures t.size < Pow2(MAX_DEPTH) ==> verdict == Ok
  {
    var e, t0;
    e, t0 := Bpt.Create(order, true);
    rs, verdict, t := Run(t0, script);
  }

  // ---- files of unknown origin ----

  /**
   * Open a file at its end and verify it.  When the verifier accepts it, and its values can be read,
   * the handle is good for adds, compactions and reads; for deletes too, if no child has an empty
   * range of keys.
   */
  method OpenVerified(f: File) returns (e: Status, t: Bpt)
    requires f.Clean()
    requires ValuesReadable(f.store)
    ensures e == Ok ==> fresh(t) && t.Valid() && t.f == f && t.height <= MAX_DEPTH
    ensures e == Ok ==> t.fill == if Gapped(t.tree, Inf) then Sparse else Loose
  {
    ghost var none := Version(Meta(0, 0, 0, 0, 0), TLeaf([]), 0, Loose);
    e, t := Bpt.Open(f, false, none);
    if e != Ok {
      return;
    }
    ghost var tree, h;
    e, tree, h := Verify(f.store, t.root, t.order, t.size, false, TLeaf([]), 0);
    if e == Ok {
      t.tree, t.height := tree, h;
      t.fill := if Gapped(tree, Inf) then Sparse else Loose;
      GappedIsSparse(tree, h, Inf, Inf, t.order);
      CellsReadable(f.store, t.root, tree);
    }
  }

  /** Every marker in a leaf of the file leads to a value. */
  ghost predicate ValuesReadable(s: Store) {
    forall o, i :: o in s && s[o].NodeRec? && 0 <= i < |s[o].node.vals| ==> Resolve(s, s[o].node.vals[i]).Some?
  }

  lemma {:induction false} CellsReadable(s: Store, p: nat, t: Tree)
    requires ValuesReadable(s) && Repr(s, p, t)
    ensures CellsOk(s, Entries(t))
    decreases t, 1
  {
    if t.TNode? {
      KidCellsReadable(s, p, t, |t.kids|);
      assert t.kids[..|t.kids|] == t.kids;
    } else {
      forall i | 0 <= i < |t.es| ensures Resolve(s, t.es[i].val).Some? {
        assert t.es[i].val == s[p].node.vals[i];
      }
    }
  }

  lemma {:induction false} KidCellsReadable(s: Store, p: nat, t: Tree, n: nat)
    requires ValuesReadable(s) && Repr(s, p, t) && t.TNode? && n <= |t.kids|
    ensures CellsOk(s, Flat(t.kids[..n]))
    decreases t, 0, n
  {
    if n > 0 {
      KidCellsReadable(s, p, t, n - 1);
      CellsReadable(s, s[p].node.children[n - 1], t.kids[n - 1]);
      FlatUpTo(t.kids, n - 1);
    }
  }

  /** A write beside an open cursor leaves the cursor and what it has to deliver alone. */
  method PerformBeside(t: Bpt, op: Op, hostOk: bool, c: Cursor) returns (r: Status)
    requires t.Valid() && c.Valid() && c.t == t && (op.DeleteOp? ==> t.fill != Loose)
    modifies t
    ensures t.Valid() && t.fill == old(t.fill) && c.Valid() && c.ToCome() == old(c.ToCome())
  {
    r := Perform(t, op, hostOk);
  }

  /** One pull, with the delivered entry moved from what is to come to the output. */
  method PullOnto(c: Cursor, out: seq<Entry<Bytes>>) returns (out2: seq<Entry<Bytes>>, ended: bool)
    requires c.Valid()
    modifies c
    ensures c.Valid()
    ensures out2 + c.ToCome() == out + old(c.ToCome())
    ensures ended ==> c.ToCome() == []
  {
    var r := c.Next();
    if r == None {
      return out, true;
    }
    out2, ended := out + [r.value], false;
    assert out + old(c.ToCome()) == out2 + c.ToCome();
  }

  datatype Step = Write(op: Op, hostOk: bool) | Pull

  /**
   * A cursor pulled between writes, in any order: what it delivers, followed by what it would
   * still deliver, is always the selection of the commit it was opened at.
   */
  method StreamUnderWrites(t: Bpt, sel: Selection, script: seq<Step>)
    returns (e: Status, out: seq<Entry<Bytes>>, ended: bool)
    requires t.Valid() && t.fill != Loose
    modifies t
    ensures t.Valid()
    ensures e == TooDeep <==> old(t.height) > MAX_DEPTH
    ensures e == TooDeep ==> old(t.size) >= DeepSize(old(t.fill))
    ensures e == Ok || e == TooDeep
    ensures e == Ok ==> out <= Resolved(old(t.f.store), Select(old(Entries(t.tree)), sel))
    ensures e == Ok && ended ==> out == Resolved(old(t.f.store), Select(old(Entries(t.tree)), sel))
  {
    out, ended := [], false;
    if t.height > MAX_DEPTH {
      DeepIsLarge(t.f.store, t.Now());
    }
    var c;
    e, c := Cursor.Open(t, sel);
    if e != Ok {
      return;
    }
    ghost var all := c.ToCome();
    for i := 0 to |script|
      invariant t.Valid() && t.fill != Loose && c.Valid() && fresh(c) && c.t == t
      invariant out + c.ToCome() == all
      invariant ended ==> c.ToCome() == []
    {
      match script[i] {
        case Write(op, hostOk) =>
          var r := PerformBeside(t, op, hostOk, c);
        case Pull =>
          out, ended := PullOnto(c, out);
      }
    }
  }
}
