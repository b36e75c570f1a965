// Reading a tree: search, range scan and full scan, on any records that stand for a routed tree.
// Nothing here needs minimum fill, so it applies to every image the verifier accepts.
module TreeRead {
  import opened SortedEntries
  import opened RecordFile
  import opened TreeModel
  import opened NodeFacts
  import opened BPlusTree

  /** What a scan keeps: everything, or the keys of a range closed at the ends it has. */
  datatype Selection = All | Between(min: real, max: real) | From(min: real) | UpTo(max: real) {
    predicate Reaches(k: real) {
      Between? || From? ==> min <= k
    }

    predicate Passes(k: real) {
      Between? || UpTo? ==> k <= max
    }

    predicate Keeps(k: real) {
      Reaches(k) && Passes(k)
    }
  }

  ghost function Select(es: seq<Entry<Cell>>, sel: Selection): seq<Entry<Cell>> {
    if es == [] then []
    else (if sel.Keeps(es[0].key) then [es[0]] else []) + Select(es[1..], sel)
  }

  lemma {:induction false} SelectConcat(a: seq<Entry<Cell>>, b: seq<Entry<Cell>>, sel: Selection)
    ensures Select(a + b, sel) == Select(a, sel) + Select(b, sel)
  {
    if a == [] {
      assert a + b == b;
    } else {
      assert (a + b)[1..] == a[1..] + b;
      SelectConcat(a[1..], b, sel);
    }
  }

  lemma {:induction false} SelectNone(es: seq<Entry<Cell>>, sel: Selection)
    requires forall i :: 0 <= i < |es| ==> !sel.Keeps(es[i].key)
    ensures Select(es, sel) == []
  {
    if es != [] {
      SelectNone(es[1..], sel);
    }
  }

  lemma {:induction false} SelectAll(es: seq<Entry<Cell>>)
    ensures Select(es, All) == es
  {
    if es != [] {
      SelectAll(es[1..]);
    }
  }

  /** Selection keeps exactly the entries in range. */
  lemma {:induction false} SelectMeaning(es: seq<Entry<Cell>>, sel: Selection)
    ensures forall e :: e in Select(es, sel) <==> e in es && sel.Keeps(e.key)
  {
    if es != [] {
      SelectMeaning(es[1..], sel);
      assert es == [es[0]] + es[1..];
    }
  }

  /** Selection keeps the order. */
  lemma {:induction false} SelectOrder(es: seq<Entry<Cell>>, sel: Selection)
    requires Ascending(es)
    ensures Ascending(Select(es, sel))
  {
    if es != [] {
      SelectOrder(es[1..], sel);
      var rest := Select(es[1..], sel);
      forall i | 0 <= i < |rest| ensures es[0].key < rest[i].key {
        SelectMeaning(es[1..], sel);
        assert rest[i] in es[1..];
      }
    }
  }

  lemma {:induction false} ResolvedConcat(s: Store, a: seq<Entry<Cell>>, b: seq<Entry<Cell>>)
    ensures Resolved(s, a + b) == Resolved(s, a) + Resolved(s, b)
  {
    if a == [] {
      assert a + b == b;
    } else {
      assert (a + b)[1..] == a[1..] + b;
      ResolvedConcat(s, a[1..], b);
    }
  }

  /** An entry of an ascending list is a pair of its map. */
  lemma {:induction false} EntryInMap<V>(es: seq<Entry<V>>, k: real, v: V)
    requires Ascending(es)
    ensures Entry(k, v) in es <==> k in MapOf(es) && MapOf(es)[k] == v
  {
    if es != [] {
      EntryInMap(es[1..], k, v);
      MapOfKeys(es[1..]);
      assert es == [es[0]] + es[1..];
      assert forall i :: 0 <= i < |es[1..]| ==> es[0].key < es[1..][i].key;
    }
  }

  /** An entry with key `k` is below the child `k` is routed to, or nowhere. */
  lemma RouteEntry(keys: seq<real>, kids: seq<Tree>, h: nat, lo: Bound, hi: Bound, c: Config, k: real, i: nat)
    requires Routed(TNode(keys, kids), h, lo, hi, c) && RoutesTo(keys, k, i)
    ensures forall cell :: Entry(k, cell) in Flat(kids) <==> Entry(k, cell) in Entries(kids[i])
  {
    RouteSplit(keys, kids, h, lo, hi, c, k, i);
    var pre, mid, post := Flat(kids[..i]), Entries(kids[i]), Flat(kids[i + 1..]);
    forall cell ensures Entry(k, cell) in pre + mid + post <==> Entry(k, cell) in mid {
    }
  }

  /** The tree an image holds below `p`, as far as reading it goes. */
  ghost predicate Readable(s: Store, p: nat, t: Tree, h: nat, order: nat) {
    Repr(s, p, t) && Good(t, h, Inf, Inf, AnyFill(order), 0)
  }

  /** Look a key up. */
  method Search(s: Store, root: nat, key: real, ghost t0: Tree, ghost h0: nat, ghost order: nat)
    returns (e: Status, found: bool, value: Bytes)
    requires Readable(s, root, t0, h0, order)
    ensures e == TooDeep <==> h0 > MAX_DEPTH
    ensures e == Ok ==> (found <==> key in MapOf(Entries(t0)))
    ensures e == Ok && found ==> Resolve(s, MapOf(Entries(t0))[key]) == Some(value)
    ensures e == Eof ==> key in MapOf(Entries(t0)) && Resolve(s, MapOf(Entries(t0))[key]) == None
    ensures e in {Ok, Eof, TooDeep}
  {
    ghost var c := AnyFill(order);
    ghost var t, lo, hi := t0, Inf, Inf;
    ghost var h: nat := h0;
    var ptr, depth := root, 0;
    found, value := false, [];
    RoutedEntries(t0, h0, Inf, Inf, c);
    while true
      invariant Repr(s, ptr, t) && Good(t, h, lo, hi, c, 0)
      invariant depth + h == h0 && (depth > 0 ==> depth - 1 <= MAX_DEPTH)
      invariant forall cell :: Entry(key, cell) in Entries(t0) <==> Entry(key, cell) in Entries(t)
      decreases h
    {
      if depth > MAX_DEPTH {
        return TooDeep, false, [];
      }
      ReprParses(s, ptr, t);
      var nd := ParseNode(s, ptr).1;
      if nd.isLeaf {
        var i := LowerBound(nd.keys, key);
        assert forall j :: 0 <= j < |t.es| ==> t.es[j].key == nd.keys[j];
        forall cell { EntryInMap(Entries(t0), key, cell); }
        if i < |nd.keys| && nd.keys[i] == key {
          assert Entry(key, nd.vals[i]) == t.es[i];
          var r := Resolve(s, nd.vals[i]);
          if r == None {
            return Eof, false, [];
          }
          return Ok, true, r.value;
        }
        LeafAbsent(s, nd, ptr, t, i, key);
        assert forall cell :: Entry(key, cell) !in t.es;
        MapOfKeys(Entries(t0));
        assert forall j :: 0 <= j < |Entries(t0)| && Entries(t0)[j].key == key ==>
            Entry(key, Entries(t0)[j].val) in Entries(t0);
        return Ok, false, [];
      }
      var i := UpperBound(nd.keys, key);
      RouteEntry(t.keys, t.kids, h, lo, hi, c, key, i);
      assert Good(t.kids[i], h - 1, KidLo(t.keys, lo, i), KidHi(t.keys, hi, i), c, 0);
      ptr, depth := nd.children[i], depth + 1;
      t, h, lo, hi := t.kids[i], h - 1, KidLo(t.keys, lo, i), KidHi(t.keys, hi, i);
    }
  }

  lemma FlatInTwo(kids: seq<Tree>, i: nat)
    requires i <= |kids|
    ensures Flat(kids) == Flat(kids[..i]) + Flat(kids[i..])
  {
    assert kids == kids[..i] + kids[i..];
    FlatConcat(kids[..i], kids[i..]);
  }

  lemma SliceTwice<T>(s: seq<T>, i: nat, j: nat)
    requires i <= j <= |s|
    ensures s[i..][..j - i] == s[i..j] && s[i..][j - i..] == s[j..]
  {
  }

  lemma FlatInThree(kids: seq<Tree>, i: nat, j: nat)
    requires i <= j <= |kids|
    ensures Flat(kids) == Flat(kids[..i]) + (Flat(kids[i..j]) + Flat(kids[j..]))
  {
    FlatInTwo(kids, i);
    FlatInTwo(kids[i..], j - i);
    SliceTwice(kids, i, j);
  }

  /** The children a range scan skips hold nothing in the range. */
  lemma SkippedKids(keys: seq<real>, kids: seq<Tree>, h: nat, lo: Bound, hi: Bound, c: Config, mn: real, mx: real,
                    i: nat, j: nat)
    requires Routed(TNode(keys, kids), h, lo, hi, c) && RoutesTo(keys, mn, i) && RoutesTo(keys, mx, j)
    ensures i <= j ==> Select(Flat(kids), Between(mn, mx)) == Select(Flat(kids[i..j + 1]), Between(mn, mx))
    ensures i > j ==> Select(Flat(kids), Between(mn, mx)) == []
  {
    var sel := Between(mn, mx);
    if i > j {
      assert mx < keys[j] <= mn;
      SelectNone(Flat(kids), sel);
    } else {
      RouteSplit(keys, kids, h, lo, hi, c, mn, i);
      RouteSplit(keys, kids, h, lo, hi, c, mx, j);
      FlatInThree(kids, i, j + 1);
      SelectInner(Flat(kids[..i]), Flat(kids[i..j + 1]), Flat(kids[j + 1..]), mn, mx);
    }
  }

  lemma SelectInner(a: seq<Entry<Cell>>, b: seq<Entry<Cell>>, c: seq<Entry<Cell>>, mn: real, mx: real)
    requires AllBelow(a, mn) && AllAbove(c, mx)
    ensures Select(a + (b + c), Between(mn, mx)) == Select(b, Between(mn, mx))
  {
    SelectConcat(a, b + c, Between(mn, mx));
    SelectConcat(b, c, Between(mn, mx));
    SelectNone(a, Between(mn, mx));
    SelectNone(c, Between(mn, mx));
  }

  /** In-order scan of the entries a selection keeps, with routing keys pruning the descent. */
  method Collect(s: Store, ptr: nat, sel: Selection, depth: nat,
                 ghost t: Tree, ghost h: nat, ghost lo: Bound, ghost hi: Bound, ghost c: Config)
    returns (e: Status, out: seq<Entry<Bytes>>)
    requires sel.All? || sel.Between?
    requires Repr(s, ptr, t) && Good(t, h, lo, hi, c, 0) && c == AnyFill(c.order)
    decreases h, 1
    ensures e == Ok ==> out == Resolved(s, Select(Entries(t), sel)) && CellsOk(s, Select(Entries(t), sel))
    ensures e == TooDeep ==> depth + h > MAX_DEPTH
    ensures e == Eof ==> !CellsOk(s, Select(Entries(t), sel))
    ensures e in {Ok, Eof, TooDeep}
  {
    out := [];
    if depth > MAX_DEPTH {
      return TooDeep, [];
    }
    ReprParses(s, ptr, t);
    var nd := ParseNode(s, ptr).1;
    if nd.isLeaf {
      e, out := CollectLeaf(s, nd, sel, ptr, t);
      return;
    }
    var lo', hi' := 0, |nd.children| - 1;
    if sel.Between? {
      lo' := UpperBound(nd.keys, sel.min);
      hi' := UpperBound(nd.keys, sel.max);
      SkippedKids(t.keys, t.kids, h, lo, hi, c, sel.min, sel.max, lo', hi');
    } else {
      assert t.kids[0..hi' + 1] == t.kids;
    }
    if lo' > hi' {
      return Ok, [];
    }
    e, out := CollectKids(s, nd, sel, depth, lo', hi' + 1, ptr, t, h, lo, hi, c);
  }

  /** One more entry of a list: selected behind those before it, and in front of those behind. */
  lemma SelectNext(es: seq<Entry<Cell>>, i: nat, sel: Selection)
    requires i < |es|
    ensures Select(es[..i + 1], sel) == if sel.Keeps(es[i].key) then Select(es[..i], sel) + [es[i]]
            else Select(es[..i], sel)
    ensures Select(es[..i + 1], sel) <= Select(es, sel)
  {
    assert es[..i + 1] == es[..i] + [es[i]];
    assert es == es[..i + 1] + es[i + 1..];
    SelectConcat(es[..i], [es[i]], sel);
    SelectConcat(es[..i + 1], es[i + 1..], sel);
  }

  method CollectLeaf(s: Store, nd: Node, sel: Selection, ghost below: nat, ghost t: Tree)
    returns (e: Status, out: seq<Entry<Bytes>>)
    requires t.TLeaf? && NodeRepr(s, nd, below, t)
    ensures e == Ok ==> out == Resolved(s, Select(t.es, sel)) && CellsOk(s, Select(t.es, sel))
    ensures e == Eof ==> !CellsOk(s, Select(t.es, sel))
    ensures e in {Ok, Eof}
  {
    out := [];
    assert t.es[..0] == [];
    for i := 0 to |nd.keys|
      invariant out == Resolved(s, Select(t.es[..i], sel)) && CellsOk(s, Select(t.es[..i], sel))
    {
      SelectNext(t.es, i, sel);
      assert t.es[i] == Entry(nd.keys[i], nd.vals[i]);
      if sel.Keeps(nd.keys[i]) {
        ghost var done := Select(t.es[..i], sel);
        ResolvedConcat(s, done, [t.es[i]]);
        var r := Resolve(s, nd.vals[i]);
        if r == None {
          assert Select(t.es, sel)[|done|] == t.es[i];
          return Eof, [];
        }
        out := out + [Entry(nd.keys[i], r.value)];
      }
    }
    assert t.es[..|nd.keys|] == t.es;
    e := Ok;
  }

  method CollectKids(s: Store, nd: Node, sel: Selection, depth: nat, from: nat, to: nat, ghost below: nat,
                     ghost t: Tree, ghost h: nat, ghost lo: Bound, ghost hi: Bound, ghost c: Config)
    returns (e: Status, out: seq<Entry<Bytes>>)
    requires t.TNode? && NodeRepr(s, nd, below, t) && Good(t, h, lo, hi, c, 0) && c == AnyFill(c.order)
    requires sel.All? || sel.Between?
    requires from <= to <= |t.kids|
    decreases h, 0
    ensures e == Ok ==> out == Resolved(s, Select(Flat(t.kids[from..to]), sel))
    ensures e == Ok ==> CellsOk(s, Select(Flat(t.kids[from..to]), sel))
    ensures e == TooDeep ==> depth + h > MAX_DEPTH
    ensures e == Eof ==> !CellsOk(s, Select(Flat(t.kids[from..to]), sel))
    ensures e in {Ok, Eof, TooDeep}
  {
    out := [];
    for i := from to to
      invariant out == Resolved(s, Select(Flat(t.kids[from..i]), sel)) && CellsOk(s, Select(Flat(t.kids[from..i]), sel))
    {
      assert Good(t.kids[i], h - 1, KidLo(t.keys, lo, i), KidHi(t.keys, hi, i), c, 0);
      var more;
      e, more := Collect(s, nd.children[i], sel, depth + 1, t.kids[i], h - 1, KidLo(t.keys, lo, i),
          KidHi(t.keys, hi, i), c);
      KidSelected(s, t.kids, from, i, to, sel);
      if e != Ok {
        return e, [];
      }
      out := out + more;
    }
    e := Ok;
  }

  /** The entries of a run of children, around child `i`. */
  lemma KidAmong(kids: seq<Tree>, from: nat, i: nat, to: nat)
    requires from <= i < to <= |kids|
    ensures Flat(kids[from..i + 1]) == Flat(kids[from..i]) + Entries(kids[i])
    ensures Flat(kids[from..to]) == Flat(kids[from..i]) + Entries(kids[i]) + Flat(kids[i + 1..to])
  {
    assert kids[from..i + 1] == kids[from..i] + [kids[i]];
    FlatConcat(kids[from..i], [kids[i]]);
    FlatOne(kids[i]);
    assert kids[from..to] == kids[from..i + 1] + kids[i + 1..to];
    FlatConcat(kids[from..i + 1], kids[i + 1..to]);
  }

  lemma SelectedAmong(s: Store, pre: seq<Entry<Cell>>, kid: seq<Entry<Cell>>, post: seq<Entry<Cell>>, sel: Selection)
    ensures var done, now := Select(pre, sel), Select(kid, sel);
            && Resolved(s, Select(pre + kid, sel)) == Resolved(s, done) + Resolved(s, now)
            && (CellsOk(s, done) && CellsOk(s, now) ==> CellsOk(s, Select(pre + kid, sel)))
            && (!CellsOk(s, now) ==> !CellsOk(s, Select(pre + kid + post, sel)))
  {
    SelectConcat(pre, kid, sel);
    SelectConcat(pre + kid, post, sel);
    ResolvedConcat(s, Select(pre, sel), Select(kid, sel));
    var all := Select(pre + kid + post, sel);
    forall j | 0 <= j < |Select(kid, sel)| ensures all[|Select(pre, sel)| + j] == Select(kid, sel)[j] {
    }
  }

  /** One more child scanned. */
  lemma KidSelected(s: Store, kids: seq<Tree>, from: nat, i: nat, to: nat, sel: Selection)
    requires from <= i < to <= |kids|
    ensures var done, now := Select(Flat(kids[from..i]), sel), Select(Entries(kids[i]), sel);
            && Resolved(s, Select(Flat(kids[from..i + 1]), sel)) == Resolved(s, done) + Resolved(s, now)
            && (CellsOk(s, done) && CellsOk(s, now) ==> CellsOk(s, Select(Flat(kids[from..i + 1]), sel)))
            && (!CellsOk(s, now) ==> !CellsOk(s, Select(Flat(kids[from..to]), sel)))
  {
    KidAmong(kids, from, i, to);
    SelectedAmong(s, Flat(kids[from..i]), Entries(kids[i]), Flat(kids[i + 1..to]), sel);
  }
}
