// The array operators of an update: appending and splicing with sort and slice, adding to a set,
// pulling and popping.
module ArrayUpdates {
  import opened RecordFile
  import opened Wire
  import opened Codec

  datatype Kind =
    | Set | Unset | Inc | Mul | Min | Max | Rename | SetOnInsert
    | AddToSet | Push | Pull | PullAll | Pop | Bit

  /** What the operators take from elsewhere: arithmetic, and how values compare and match. */
  datatype Env = Env(
    compute: (Kind, Option<Value>, Value) -> Option<Value>,  // $inc, $mul and $bit; None is an error
    cmp: (Value, Value) -> int,                           // -1, 0, 1, or -2 for values that do not compare
    whole: Value -> Option<int>,                          // a number without a fraction
    isExpr: Value -> bool,                                // an operator expression such as a comparison
    matches: (Value, Value) -> Option<bool>)              // a value against such an expression

  function Ascii(s: string): (b: Bytes)
    requires forall i :: 0 <= i < |s| ==> s[i] < 128 as char
    ensures |b| == |s| && forall i :: 0 <= i < |s| ==> b[i] == s[i] as int
  {
    seq(|s|, i requires 0 <= i < |s| => s[i] as int)
  }

  predicate IsArray(v: Value) {
    v.Container? && !v.isObject
  }

  function ValuesOf(v: Value): (vs: seq<Value>)
    requires v.Container?
    ensures |vs| == |v.members| && forall i :: 0 <= i < |vs| ==> vs[i] == v.members[i].value
  {
    seq(|v.members|, i requires 0 <= i < |v.members| => v.members[i].value)
  }

  function ArrayOf(vs: seq<Value>): (v: Value)
    ensures IsArray(v) && ValuesOf(v) == vs
  {
    Container(false, seq(|vs|, i requires 0 <= i < |vs| => Member([], vs[i])))
  }

  /** The elements an operator starts from: none if the field is missing, an error if it is no array. */
  function Elements(old_: Option<Value>): Option<seq<Value>> {
    if old_.None? then Some([]) else if IsArray(old_.value) then Some(ValuesOf(old_.value)) else None
  }

  // ---- adding to a set ----

  /** Append the candidates that are not there yet, each once. */
  function Union(base: seq<Value>, cands: seq<Value>): (r: seq<Value>)
    decreases |cands|
  {
    if cands == [] then base
    else
      var r := Union(base, cands[..|cands| - 1]);
      if cands[|cands| - 1] in r then r else r + [cands[|cands| - 1]]
  }

  /** What was there stays in front; every candidate is there; nothing is added twice or from elsewhere. */
  lemma {:induction false} UnionIsUnion(base: seq<Value>, cands: seq<Value>)
    ensures base <= Union(base, cands)
    ensures forall v :: v in Union(base, cands) <==> v in base || v in cands
    ensures forall i, j :: 0 <= i < j < |Union(base, cands)| && j >= |base| ==>
            Union(base, cands)[i] != Union(base, cands)[j]
    decreases |cands|
  {
    if cands != [] {
      var n := |cands| - 1;
      UnionIsUnion(base, cands[..n]);
      assert cands == cands[..n] + [cands[n]];
    }
  }

  /** `v` is among the candidates before any `w`. */
  ghost predicate Sooner(cands: seq<Value>, v: Value, w: Value) {
    exists k :: 0 <= k < |cands| && cands[k] == v && w !in cands[..k]
  }

  /** The base with the new candidates behind it, each once, in the order they first stand. */
  ghost predicate Grown(base: seq<Value>, cands: seq<Value>, r: seq<Value>) {
    && base <= r && (forall v :: v in r <==> v in base || v in cands)
    && (forall i, j :: 0 <= i < j < |r| && j >= |base| ==> r[i] != r[j])
    && forall i, j :: |base| <= i < j < |r| ==> Sooner(cands, r[i], r[j])
  }

  lemma {:induction false} UnionGrows(base: seq<Value>, cands: seq<Value>)
    ensures Grown(base, cands, Union(base, cands))
    decreases |cands|
  {
    UnionIsUnion(base, cands);
    if cands != [] {
      var n := |cands| - 1;
      var r := Union(base, cands);
      UnionGrows(base, cands[..n]);
      forall i, j | |base| <= i < j < |r| ensures Sooner(cands, r[i], r[j]) {
        SoonerThere(base, cands, r[i], r[j], j == |Union(base, cands[..n])|);
      }
    }
  }

  lemma SoonerThere(base: seq<Value>, cands: seq<Value>, v: Value, w: Value, last: bool)
    requires cands != [] && v != w
    requires if last then v in cands && w == cands[|cands| - 1] && w !in cands[..|cands| - 1]
             else Sooner(cands[..|cands| - 1], v, w)
    ensures Sooner(cands, v, w)
  {
    var init := cands[..|cands| - 1];
    if last {
      var k :| 0 <= k < |cands| && cands[k] == v;
      assert cands[..k] == init[..k];
    } else {
      var k :| 0 <= k < |init| && init[k] == v && w !in init[..k];
      assert cands[..k] == init[..k];
    }
  }

  /** Everything behind the base is a candidate. */
  lemma {:induction false} UnionTail(base: seq<Value>, cands: seq<Value>)
    ensures |base| <= |Union(base, cands)| && Union(base, cands) == base + Union(base, cands)[|base|..]
    ensures forall v :: v in Union(base, cands)[|base|..] ==> v in cands
    decreases |cands|
  {
    if cands != [] {
      var n := |cands| - 1;
      UnionTail(base, cands[..n]);
      var r, all := Union(base, cands[..n]), Union(base, cands);
      assert all == r || all[|base|..] == r[|base|..] + [cands[n]];
    }
  }

  lemma {:induction false} UnionAbsorbs(base: seq<Value>, cands: seq<Value>)
    requires forall v :: v in cands ==> v in base
    ensures Union(base, cands) == base
    decreases |cands|
  {
    if cands != [] {
      UnionAbsorbs(base, cands[..|cands| - 1]);
      assert cands[|cands| - 1] in cands;
    }
  }

  method AddedToSet(base: seq<Value>, cands: seq<Value>) returns (r: seq<Value>)
    ensures r == Union(base, cands)
  {
    r := base;
    var added: seq<Value> := [];
    UnionIsUnion(base, []);
    for i := 0 to |cands|
      invariant r == Union(base, cands[..i]) && r == base + added
    {
      assert cands[..i + 1][..i] == cands[..i];
      if cands[i] !in base && cands[i] !in added {
        r := r + [cands[i]];
        added := added + [cands[i]];
      }
    }
    assert cands[..|cands|] == cands;
  }

  // ---- sorting ----

  predicate OutOfOrder(env: Env, dir: int, a: Value, b: Value) {
    var c := env.cmp(a, b);
    if dir < 0 then c == -1 else c == 1
  }

  /** Where an element goes in among those before it: behind the last one it must not precede. */
  function Insert(env: Env, dir: int, done: seq<Value>, v: Value): (r: seq<Value>)
    ensures |r| == |done| + 1
  {
    if done != [] && OutOfOrder(env, dir, done[|done| - 1], v)
    then Insert(env, dir, done[..|done| - 1], v) + [done[|done| - 1]]
    else done + [v]
  }

  function Sorted(env: Env, dir: int, vs: seq<Value>): (r: seq<Value>)
    ensures |r| == |vs|
  {
    if vs == [] then [] else Insert(env, dir, Sorted(env, dir, vs[..|vs| - 1]), vs[|vs| - 1])
  }

  /** The sort as it runs, in place over an array. */
  method SortInPlace(env: Env, dir: int, a: array<Value>)
    modifies a
    ensures a[..] == Sorted(env, dir, old(a[..]))
  {
    for i := 0 to a.Length
      invariant a[..i] == Sorted(env, dir, old(a[..i])) && a[i..] == old(a[i..])
    {
      SortNext(env, dir, old(a[..]), i);
      assert a[i] == a[i..][0] == old(a[i]);
      InsertAt(env, dir, a, i);
      assert a[i + 1..] == old(a[i..])[1..];
    }
    assert a[..a.Length] == a[..] && old(a[..a.Length]) == old(a[..]);
  }

  lemma SortNext(env: Env, dir: int, vs: seq<Value>, i: nat)
    requires i < |vs|
    ensures Sorted(env, dir, vs[..i + 1]) == Insert(env, dir, Sorted(env, dir, vs[..i]), vs[i])
  {
    assert vs[..i + 1][..i] == vs[..i];
  }

  /** Move the element at `n` down among the sorted ones before it. */
  method InsertAt(env: Env, dir: int, a: array<Value>, n: nat)
    requires n < a.Length
    modifies a
    ensures a[..n + 1] == Insert(env, dir, old(a[..n]), old(a[n])) && a[n + 1..] == old(a[n + 1..])
  {
    var key := a[n];
    var j := n;
    ghost var was := a[..n];
    while j > 0 && OutOfOrder(env, dir, a[j - 1], key)
      invariant j <= n && a[..j] == was[..j] && a[j + 1..n + 1] == was[j..] && a[n + 1..] == old(a[n + 1..])
      invariant Insert(env, dir, was, key) == Insert(env, dir, was[..j], key) + was[j..]
    {
      assert a[j - 1] == a[..j][j - 1] == was[j - 1];
      InsertStep(env, dir, was, key, j);
      MoveUp(a, j, n, was);
      j := j - 1;
    }
    PutDown(a, j, n, key, was);
    InsertHere(env, dir, was, key, j);
  }

  /** Shift an element one place up, over the gap. */
  method MoveUp(a: array<Value>, j: nat, n: nat, ghost was: seq<Value>)
    requires 0 < j <= n == |was| < a.Length && a[..j] == was[..j] && a[j + 1..n + 1] == was[j..]
    modifies a
    ensures a[..j - 1] == was[..j - 1] && a[j..n + 1] == was[j - 1..] && a[n + 1..] == old(a[n + 1..])
  {
    ghost var tail := a[j + 1..n + 1];
    assert a[j - 1] == a[..j][j - 1];
    assert a[..j - 1] == a[..j][..j - 1];
    a[j] := a[j - 1];
    assert a[j..n + 1] == [was[j - 1]] + tail;
    assert was[j - 1..] == [was[j - 1]] + was[j..];
  }

  /** Put the element into the gap. */
  method PutDown(a: array<Value>, j: nat, n: nat, key: Value, ghost was: seq<Value>)
    requires j <= n == |was| < a.Length && a[..j] == was[..j] && a[j + 1..n + 1] == was[j..]
    modifies a
    ensures a[..n + 1] == was[..j] + [key] + was[j..] && a[n + 1..] == old(a[n + 1..])
  {
    ghost var tail := a[j + 1..n + 1];
    a[j] := key;
    assert a[..n + 1] == a[..j] + [key] + tail;
  }

  lemma InsertHere(env: Env, dir: int, was: seq<Value>, key: Value, j: nat)
    requires j <= |was| && (j == 0 || !OutOfOrder(env, dir, was[j - 1], key))
    ensures Insert(env, dir, was[..j], key) + was[j..] == was[..j] + [key] + was[j..]
  {
    assert j == 0 || was[..j][j - 1] == was[j - 1];
  }

  lemma InsertStep(env: Env, dir: int, was: seq<Value>, key: Value, j: nat)
    requires 0 < j <= |was| && OutOfOrder(env, dir, was[j - 1], key)
    requires Insert(env, dir, was, key) == Insert(env, dir, was[..j], key) + was[j..]
    ensures Insert(env, dir, was, key) == Insert(env, dir, was[..j - 1], key) + was[j - 1..]
  {
    assert was[..j][..j - 1] == was[..j - 1] && was[..j][j - 1] == was[j - 1];
    assert was[j - 1..] == [was[j - 1]] + was[j..];
  }

  /** On these values the comparison is a total preorder. */
  ghost predicate Ordered(env: Env, dom: set<Value>) {
    && (forall a, b :: a in dom && b in dom ==> env.cmp(a, b) in {-1, 0, 1} && env.cmp(a, b) == -env.cmp(b, a))
    && (forall a, b, c :: a in dom && b in dom && c in dom && env.cmp(a, b) <= 0 && env.cmp(b, c) <= 0 ==>
       env.cmp(a, c) <= 0)
  }

  /** At most in the direction of the sort. */
  predicate AtMost(env: Env, dir: int, a: Value, b: Value) {
    if dir < 0 then env.cmp(b, a) <= 0 else env.cmp(a, b) <= 0
  }

  ghost predicate InSortedOrder(env: Env, dir: int, vs: seq<Value>) {
    forall i, j :: 0 <= i <= j < |vs| ==> AtMost(env, dir, vs[i], vs[j])
  }

  lemma {:induction false} InsertSorts(env: Env, dir: int, done: seq<Value>, v: Value, dom: set<Value>)
    requires Ordered(env, dom) && v in dom && (forall x :: x in done ==> x in dom) && InSortedOrder(env, dir, done)
    ensures InSortedOrder(env, dir, Insert(env, dir, done, v))
    ensures multiset(Insert(env, dir, done, v)) == multiset(done) + multiset{v}
  {
    if done != [] {
      var n := |done| - 1;
      var init, last := done[..n], done[n];
      assert done == init + [last];
      if OutOfOrder(env, dir, last, v) {
        InsertSorts(env, dir, init, v, dom);
        InsertBelow(env, dir, init, last, v, dom);
        AppendLast(env, dir, Insert(env, dir, init, v), last, dom);
      } else {
        AboveAll(env, dir, done, v, dom);
        AppendLast(env, dir, done, v, dom);
      }
    } else {
      assert env.cmp(v, v) == -env.cmp(v, v);
    }
  }

  lemma InsertBelow(env: Env, dir: int, init: seq<Value>, last: Value, v: Value, dom: set<Value>)
    requires Ordered(env, dom) && v in dom && last in dom && OutOfOrder(env, dir, last, v)
    requires InSortedOrder(env, dir, init + [last])
             && multiset(Insert(env, dir, init, v)) == multiset(init) + multiset{v}
    ensures forall x :: x in Insert(env, dir, init, v) ==> AtMost(env, dir, x, last)
  {
    var r, done := Insert(env, dir, init, v), init + [last];
    assert env.cmp(last, v) == -env.cmp(v, last);
    forall x | x in r ensures AtMost(env, dir, x, last) {
      assert x in multiset(r);
      assert x == v || x in multiset(init);
      if x in init {
        var i :| 0 <= i < |init| && init[i] == x;
        assert done[i] == x && done[|init|] == last;
      }
    }
  }

  lemma AboveAll(env: Env, dir: int, done: seq<Value>, v: Value, dom: set<Value>)
    requires Ordered(env, dom) && v in dom && (forall x :: x in done ==> x in dom) && InSortedOrder(env, dir, done)
    requires done != [] && !OutOfOrder(env, dir, done[|done| - 1], v)
    ensures forall x :: x in done ==> AtMost(env, dir, x, v)
  {
    var last := done[|done| - 1];
    assert last in done && env.cmp(last, v) == -env.cmp(v, last);
    forall x | x in done ensures AtMost(env, dir, x, v) {
      var i :| 0 <= i < |done| && done[i] == x;
      assert AtMost(env, dir, x, last) && AtMost(env, dir, last, v);
    }
  }

  lemma AppendLast(env: Env, dir: int, r: seq<Value>, last: Value, dom: set<Value>)
    requires Ordered(env, dom) && last in dom && InSortedOrder(env, dir, r)
             && forall x :: x in r ==> AtMost(env, dir, x, last)
    ensures InSortedOrder(env, dir, r + [last])
  {
    assert env.cmp(last, last) == -env.cmp(last, last);
    var s := r + [last];
    forall i, j | 0 <= i <= j < |s| ensures AtMost(env, dir, s[i], s[j]) {
      if j == |r| && i < |r| {
        assert s[i] in r;
      }
    }
  }

  /** The sort yields the same elements in order, whenever the comparison orders them. */
  lemma {:induction false} SortedIsSorted(env: Env, dir: int, vs: seq<Value>, dom: set<Value>)
    requires Ordered(env, dom) && forall v :: v in vs ==> v in dom
    ensures InSortedOrder(env, dir, Sorted(env, dir, vs)) && multiset(Sorted(env, dir, vs)) == multiset(vs)
  {
    if vs != [] {
      var n := |vs| - 1;
      SortedIsSorted(env, dir, vs[..n], dom);
      assert vs == vs[..n] + [vs[n]];
      forall v | v in Sorted(env, dir, vs[..n]) ensures v in dom {
        assert v in multiset(vs[..n]);
      }
      InsertSorts(env, dir, Sorted(env, dir, vs[..n]), vs[n], dom);
    }
  }

  /** The elements that compare equal to `v`. */
  ghost function EqualTo(env: Env, vs: seq<Value>, v: Value): seq<Value> {
    if vs == [] then []
    else EqualTo(env, vs[..|vs| - 1], v) + (if env.cmp(vs[|vs| - 1], v) == 0 then [vs[|vs| - 1]] else [])
  }

  lemma EqualToSnoc(env: Env, vs: seq<Value>, x: Value, v: Value)
    ensures EqualTo(env, vs + [x], v) == EqualTo(env, vs, v) + (if env.cmp(x, v) == 0 then [x] else [])
  {
    assert (vs + [x])[..|vs|] == vs;
  }

  lemma {:induction false} InsertStable(env: Env, dir: int, done: seq<Value>, x: Value, v: Value, dom: set<Value>)
    requires Ordered(env, dom) && v in dom && x in dom && forall y :: y in done ==> y in dom
    ensures EqualTo(env, Insert(env, dir, done, x), v) == EqualTo(env, done + [x], v)
  {
    if done != [] && OutOfOrder(env, dir, done[|done| - 1], x) {
      var init, last := done[..|done| - 1], done[|done| - 1];
      assert done == init + [last] && last in done;
      InsertStable(env, dir, init, x, v, dom);
      NotBothEqual(env, dir, last, x, v, dom);
      EqualSwapped(env, init, last, x, v, Insert(env, dir, init, x));
    }
  }

  /** Two neighbours of which not both compare equal to `v` may stand either way round. */
  lemma EqualSwapped(env: Env, init: seq<Value>, last: Value, x: Value, v: Value, r: seq<Value>)
    requires EqualTo(env, r, v) == EqualTo(env, init + [x], v) && (env.cmp(last, v) != 0 || env.cmp(x, v) != 0)
    ensures EqualTo(env, r + [last], v) == EqualTo(env, init + [last] + [x], v)
  {
    EqualToSnoc(env, r, last, v);
    EqualToSnoc(env, init, x, v);
    EqualToSnoc(env, init, last, v);
    EqualToSnoc(env, init + [last], x, v);
  }

  lemma NotBothEqual(env: Env, dir: int, a: Value, b: Value, v: Value, dom: set<Value>)
    requires Ordered(env, dom) && a in dom && b in dom && v in dom && OutOfOrder(env, dir, a, b)
    ensures env.cmp(a, v) != 0 || env.cmp(b, v) != 0
  {
    assert env.cmp(b, a) == -env.cmp(a, b) && env.cmp(v, a) == -env.cmp(a, v) && env.cmp(v, b) == -env.cmp(b, v);
  }

  /** Elements that compare equal stay in the order they had. */
  lemma {:induction false} SortedIsStable(env: Env, dir: int, vs: seq<Value>, v: Value, dom: set<Value>)
    requires Ordered(env, dom) && v in dom && forall y :: y in vs ==> y in dom
    ensures EqualTo(env, Sorted(env, dir, vs), v) == EqualTo(env, vs, v)
  {
    if vs != [] {
      var init, last := vs[..|vs| - 1], vs[|vs| - 1];
      assert vs == init + [last] && last in vs;
      SortedIsStable(env, dir, init, v, dom);
      SortedIsSorted(env, dir, init, dom);
      forall y | y in Sorted(env, dir, init) ensures y in dom {
        assert y in multiset(init);
      }
      InsertStable(env, dir, Sorted(env, dir, init), last, v, dom);
      EqualToSnoc(env, Sorted(env, dir, init), last, v);
    }
  }

  /** The same elements in order, those that compare equal as they stood, whenever the comparison orders them. */
  ghost predicate SortOf(env: Env, dir: int, vs: seq<Value>, r: seq<Value>) {
    forall dom :: Ordered(env, dom) && (forall v :: v in vs ==> v in dom) ==>
      && InSortedOrder(env, dir, r) && multiset(r) == multiset(vs)
      && forall v :: v in dom ==> EqualTo(env, r, v) == EqualTo(env, vs, v)
  }

  lemma SortedIsSortOf(env: Env, dir: int, vs: seq<Value>)
    ensures SortOf(env, dir, vs, Sorted(env, dir, vs))
  {
    forall dom | Ordered(env, dom) && forall v :: v in vs ==> v in dom
      ensures InSortedOrder(env, dir, Sorted(env, dir, vs)) && multiset(Sorted(env, dir, vs)) == multiset(vs)
      ensures forall v :: v in dom ==> EqualTo(env, Sorted(env, dir, vs), v) == EqualTo(env, vs, v)
    {
      SortedIsSorted(env, dir, vs, dom);
      forall v | v in dom ensures EqualTo(env, Sorted(env, dir, vs), v) == EqualTo(env, vs, v) {
        SortedIsStable(env, dir, vs, v, dom);
      }
    }
  }

  // ---- splicing and slicing ----

  /** Where new elements go: at the end, or at a position counted from either end and clamped. */
  function PlaceFor(position: Option<int>, count: nat): (at: nat)
    ensures at <= count
  {
    if position.None? then count
    else
      var p := if position.value < 0 then count + position.value else position.value;
      if p < 0 then 0 else if p > count then count else p
  }

  function Spliced(elems: seq<Value>, each: seq<Value>, at: nat): seq<Value>
    requires at <= |elems|
  {
    elems[..at] + each + elems[at..]
  }

  /** The slice the code takes: its limit is cut to 32 bits. */
  function Sliced(vs: seq<Value>, n: Option<int>): (r: seq<Value>) {
    if n.None? then vs
    else if n.value >= 0 then
      var end := n.value % TWO_32;
      if end < |vs| then vs[..end] else vs
    else
      var keep := (-n.value) % TWO_32;
      if keep < |vs| then vs[|vs| - keep..] else vs
  }

  /** The slice that was asked for: the first `n` elements, or the last `-n`. */
  function Wanted(vs: seq<Value>, n: int): seq<Value> {
    if n >= 0 then (if n < |vs| then vs[..n] else vs) else if -n < |vs| then vs[|vs| + n..] else vs
  }

  /** Exactly when the cut limit does no harm: it is unchanged, or still reaches every element. */
  lemma SliceIsWanted(vs: seq<Value>, n: int)
    requires |vs| < TWO_32
    ensures Sliced(vs, Some(n)) == Wanted(vs, n) <==> var k := if n < 0 then -n else n; k < TWO_32 || k % TWO_32 >= |vs|
  {
    if n >= 0 {
      FrontIsWanted(vs, n, n % TWO_32);
    } else {
      BackIsWanted(vs, -n, (-n) % TWO_32);
    }
  }

  lemma FrontIsWanted(vs: seq<Value>, k: nat, cut: nat)
    requires |vs| < TWO_32 && (if k < TWO_32 then cut == k else cut < TWO_32)
    ensures (if cut < |vs| then vs[..cut] else vs) == (if k < |vs| then vs[..k] else vs) <==> k < TWO_32 || cut >= |vs|
  {
    if k >= TWO_32 && cut < |vs| {
      assert |vs[..cut]| < |vs|;
    }
  }

  lemma BackIsWanted(vs: seq<Value>, k: nat, cut: nat)
    requires |vs| < TWO_32 && (if k < TWO_32 then cut == k else cut < TWO_32)
    ensures (if cut < |vs| then vs[|vs| - cut..] else vs) == (if k < |vs| then vs[|vs| - k..] else vs) <==>
            k < TWO_32 || cut >= |vs|
  {
    if k >= TWO_32 && cut < |vs| {
      assert |vs[|vs| - cut..]| < |vs|;
    }
  }

  /** The cut does harm: asked for the first 2^32 elements, the code keeps none. */
  lemma SliceEmptied(v: Value)
    ensures Sliced([v], Some(TWO_32)) == [] && Wanted([v], TWO_32) == [v]
  {
  }

  // ---- the modifiers of a push ----

  datatype Mods = Mods(each: Option<seq<Value>>, slice: Option<int>, sort: Option<int>, position: Option<int>)

  /** A push takes its operand as one value, or as modifiers, or not at all. */
  datatype Form = Literal | Modified(mods: Mods) | Malformed

  const NO_MODS := Mods(None, None, None, None)

  /** One more key of the operand; an unknown one makes the whole operand a plain value. */
  function ModStep(env: Env, m: Mods, key: Bytes, v: Value): Form {
    if key == Ascii("$each") then
      if IsArray(v) then Modified(m.(each := Some(ValuesOf(v)))) else Malformed
    else if key == Ascii("$slice") then
      if env.whole(v).Some? then Modified(m.(slice := env.whole(v))) else Malformed
    else if key == Ascii("$sort") then
      if env.whole(v) == Some(1) || env.whole(v) == Some(-1) then Modified(m.(sort := env.whole(v))) else Malformed
    else if key == Ascii("$position") then
      if env.whole(v).Some? then Modified(m.(position := env.whole(v))) else Malformed
    else Literal
  }

  function ModsFrom(env: Env, ms: seq<Member>, m: Mods): Form {
    if ms == [] then
      if m.each.Some? then Modified(m)
      else if m.slice.Some? || m.sort.Some? || m.position.Some? then Malformed
      else Literal
    else
      var s := ModStep(env, m, ms[0].key, ms[0].value);
      if s.Modified? then ModsFrom(env, ms[1..], s.mods) else s
  }

  function FormOf(env: Env, operand: Value): Form {
    if operand.Container? && operand.isObject then ModsFrom(env, operand.members, NO_MODS) else Literal
  }

  predicate IsModifier(key: Bytes) {
    key in {Ascii("$each"), Ascii("$slice"), Ascii("$sort"), Ascii("$position")}
  }

  /** A modifier with a value it can have. */
  predicate ProperMod(env: Env, m: Member) {
    || (m.key == Ascii("$each") && IsArray(m.value))
    || (m.key == Ascii("$sort") && (env.whole(m.value) == Some(1) || env.whole(m.value) == Some(-1)))
    || (m.key in {Ascii("$slice"), Ascii("$position")} && env.whole(m.value).Some?)
  }

  lemma ModKeysDiffer()
    ensures |Ascii("$each")| == 5 && |Ascii("$slice")| == 6 && |Ascii("$sort")| == 5 && |Ascii("$position")| == 9
    ensures Ascii("$each") != Ascii("$sort")
  {
    assert Ascii("$each")[1] != Ascii("$sort")[1];
  }

  /** What one key decides. */
  lemma StepDecides(env: Env, m: Mods, x: Member)
    ensures ModStep(env, m, x.key, x.value).Modified? <==> ProperMod(env, x)
    ensures ModStep(env, m, x.key, x.value).Literal? <==> !IsModifier(x.key)
    ensures ProperMod(env, x) ==>
      var m2 := ModStep(env, m, x.key, x.value).mods;
      && m2.each == (if x.key == Ascii("$each") then Some(ValuesOf(x.value)) else m.each)
      && m2.slice == (if x.key == Ascii("$slice") then env.whole(x.value) else m.slice)
      && m2.sort == (if x.key == Ascii("$sort") then env.whole(x.value) else m.sort)
      && m2.position == (if x.key == Ascii("$position") then env.whole(x.value) else m.position)
  {
    ModKeysDiffer();
  }

  /** The last member with a key, or what was there before. */
  function LastOf(ms: seq<Member>, key: Bytes): (r: Option<Value>)
    ensures r.Some? ==> exists i :: 0 <= i < |ms| && ms[i] == Member(key, r.value) && forall j :: i < j < |ms| ==>
            ms[j].key != key
    ensures r.None? ==> forall i :: 0 <= i < |ms| ==> ms[i].key != key
  {
    if ms == [] then None
    else if ms[|ms| - 1].key == key then Some(ms[|ms| - 1].value)
    else LastOf(ms[..|ms| - 1], key)
  }

  lemma {:induction false} LastOfFront(ms: seq<Member>, key: Bytes)
    requires ms != []
    ensures LastOf(ms, key) == if LastOf(ms[1..], key).Some? then LastOf(ms[1..], key)
                               else if ms[0].key == key then Some(ms[0].value) else None
    decreases |ms|
  {
    var n := |ms| - 1;
    if n > 0 {
      assert ms[1..][..n - 1] == ms[..n][1..] && ms[1..][n - 1] == ms[n];
      if ms[n].key != key {
        LastOfFront(ms[..n], key);
      }
    }
  }

  ghost predicate AllProper(env: Env, ms: seq<Member>) {
    forall i :: 0 <= i < |ms| ==> ProperMod(env, ms[i])
  }

  lemma ProperFront(env: Env, ms: seq<Member>)
    requires ms != []
    ensures AllProper(env, ms) <==> ProperMod(env, ms[0]) && AllProper(env, ms[1..])
  {
    assert forall i :: 0 < i < |ms| ==> ms[i] == ms[1..][i - 1];
  }

  /** The first member that is no proper modifier is not even a modifier's name. */
  ghost predicate StrangerFirst(env: Env, ms: seq<Member>) {
    exists i :: 0 <= i < |ms| && !IsModifier(ms[i].key) && AllProper(env, ms[..i])
  }

  lemma StrangerNext(env: Env, ms: seq<Member>)
    requires ms != [] && ProperMod(env, ms[0])
    ensures StrangerFirst(env, ms) <==> StrangerFirst(env, ms[1..])
  {
    ModKeysDiffer();
    var rest := ms[1..];
    if StrangerFirst(env, ms) {
      var i :| 0 <= i < |ms| && !IsModifier(ms[i].key) && AllProper(env, ms[..i]);
      assert i > 0 && rest[i - 1] == ms[i];
      assert rest[..i - 1] == ms[..i][1..];
      ProperFront(env, ms[..i]);
    }
    if StrangerFirst(env, rest) {
      var i :| 0 <= i < |rest| && !IsModifier(rest[i].key) && AllProper(env, rest[..i]);
      assert ms[i + 1] == rest[i];
      assert rest[..i] == ms[..i + 1][1..];
      ProperFront(env, ms[..i + 1]);
    }
  }

  /** Modifiers if all keys are, with $each among them; a plain value if a stranger comes first, or nothing. */
  lemma {:induction false} ModsDecide(env: Env, ms: seq<Member>, m: Mods)
    ensures ModsFrom(env, ms, m).Modified? <==> AllProper(env, ms) && (m.each.Some? || LastOf(ms, Ascii("$each")).Some?)
    ensures ModsFrom(env, ms, m).Literal? <==> StrangerFirst(env, ms) || (ms == [] && m == NO_MODS)
    decreases |ms|
  {
    if ms != [] {
      var x := ms[0];
      StepDecides(env, m, x);
      ProperFront(env, ms);
      if ProperMod(env, x) {
        StrangerNext(env, ms);
        LastOfFront(ms, Ascii("$each"));
        ModsDecide(env, ms[1..], ModStep(env, m, x.key, x.value).mods);
      } else if !IsModifier(x.key) {
        assert AllProper(env, ms[..0]);
      }
    }
  }

  /** The number the last member of a name gives. */
  function NumberOf(env: Env, ms: seq<Member>, key: Bytes, other: Option<int>): Option<int> {
    var v := LastOf(ms, key);
    if v.Some? then env.whole(v.value) else other
  }

  function ListOf(ms: seq<Member>, other: Option<seq<Value>>): Option<seq<Value>> {
    var v := LastOf(ms, Ascii("$each"));
    if v.None? then other else if v.value.Container? then Some(ValuesOf(v.value)) else None
  }

  lemma NumberFront(env: Env, ms: seq<Member>, key: Bytes, other: Option<int>)
    requires ms != []
    ensures NumberOf(env, ms, key, other) ==
            NumberOf(env, ms[1..], key, if ms[0].key == key then env.whole(ms[0].value) else other)
  {
    LastOfFront(ms, key);
  }

  lemma ListFront(ms: seq<Member>, other: Option<seq<Value>>)
    requires ms != [] && (ms[0].key == Ascii("$each") ==> IsArray(ms[0].value))
    ensures ListOf(ms, other)
            == ListOf(ms[1..], if ms[0].key == Ascii("$each") then Some(ValuesOf(ms[0].value)) else other)
  {
    LastOfFront(ms, Ascii("$each"));
  }

  /** Each modifier has the value the last member of its name gives it; others are as in `m`. */
  ghost predicate ReadAs(env: Env, ms: seq<Member>, m: Mods, r: Mods) {
    && r.each == ListOf(ms, m.each) && r.slice == NumberOf(env, ms, Ascii("$slice"), m.slice)
    && r.sort == NumberOf(env, ms, Ascii("$sort"), m.sort)
       && r.position == NumberOf(env, ms, Ascii("$position"), m.position)
  }

  lemma ReadFront(env: Env, ms: seq<Member>, m: Mods, r: Mods)
    requires ms != [] && ProperMod(env, ms[0]) && ModStep(env, m, ms[0].key, ms[0].value).Modified?
    requires ReadAs(env, ms[1..], ModStep(env, m, ms[0].key, ms[0].value).mods, r)
    ensures ReadAs(env, ms, m, r)
  {
    StepDecides(env, m, ms[0]);
    ListFront(ms, m.each);
    NumberFront(env, ms, Ascii("$slice"), m.slice);
    NumberFront(env, ms, Ascii("$sort"), m.sort);
    NumberFront(env, ms, Ascii("$position"), m.position);
  }

  lemma {:induction false} ModsRead(env: Env, ms: seq<Member>, m: Mods)
    requires ModsFrom(env, ms, m).Modified?
    ensures ReadAs(env, ms, m, ModsFrom(env, ms, m).mods)
    decreases |ms|
  {
    if ms != [] {
      StepDecides(env, m, ms[0]);
      ModsRead(env, ms[1..], ModStep(env, m, ms[0].key, ms[0].value).mods);
      ReadFront(env, ms, m, ModsFrom(env, ms, m).mods);
    }
  }

  /** How a push takes its operand. */
  lemma FormDecides(env: Env, operand: Value)
    ensures operand.Container? && operand.isObject ==>
      && (FormOf(env, operand).Modified? <==>
         AllProper(env, operand.members) && LastOf(operand.members, Ascii("$each")).Some?)
      && (FormOf(env, operand).Literal? <==> StrangerFirst(env, operand.members) || operand.members == [])
    ensures !(operand.Container? && operand.isObject) ==> FormOf(env, operand).Literal?
    ensures FormOf(env, operand).Modified? ==> ReadAs(env, operand.members, NO_MODS, FormOf(env, operand).mods)
  {
    if operand.Container? && operand.isObject {
      ModsDecide(env, operand.members, NO_MODS);
      if FormOf(env, operand).Modified? {
        ModsRead(env, operand.members, NO_MODS);
      }
    }
  }

  method ParseMods(env: Env, operand: Value) returns (f: Form)
    ensures f == FormOf(env, operand)
  {
    if !(operand.Container? && operand.isObject) {
      return Literal;
    }
    var ms, m := operand.members, NO_MODS;
    for i := 0 to |ms|
      invariant ModsFrom(env, ms, NO_MODS) == ModsFrom(env, ms[i..], m)
    {
      assert ms[i..][0] == ms[i] && ms[i..][1..] == ms[i + 1..];
      var s := ModStep(env, m, ms[i].key, ms[i].value);
      if !s.Modified? {
        return s;
      }
      m := s.mods;
    }
    if m.each.None? {
      return if m.slice.Some? || m.sort.Some? || m.position.Some? then Malformed else Literal;
    }
    f := Modified(m);
  }

  /** The array after a push with modifiers. */
  function PushedWith(env: Env, elems: seq<Value>, m: Mods): seq<Value>
    requires m.each.Some?
  {
    Sliced(if m.sort.Some? then Sorted(env, m.sort.value, elems + m.each.value)
           else Spliced(elems, m.each.value, PlaceFor(m.position, |elems|)), m.slice)
  }

  /** Without a slice a push keeps every element, adds the new ones, and sorts if asked to. */
  lemma PushedHolds(env: Env, elems: seq<Value>, m: Mods, dom: set<Value>)
    requires m.each.Some? && m.slice.None?
    requires Ordered(env, dom) && forall v :: v in elems || v in m.each.value ==> v in dom
    ensures multiset(PushedWith(env, elems, m)) == multiset(elems) + multiset(m.each.value)
    ensures m.sort.Some? ==> InSortedOrder(env, m.sort.value, PushedWith(env, elems, m))
  {
    if m.sort.Some? {
      SortedIsSorted(env, m.sort.value, elems + m.each.value, dom);
    } else {
      var at := PlaceFor(m.position, |elems|);
      assert elems == elems[..at] + elems[at..];
    }
  }

  /** The new elements stand together among the old ones, at the end or where the position says. */
  ghost predicate PutAt(was: seq<Value>, each: seq<Value>, position: Option<int>, at: nat, r: seq<Value>) {
    && at <= |was| && r == was[..at] + each + was[at..]
    && (position.None? ==> at == |was|)
    && (position.Some? && position.value >= 0 ==> at == position.value || (at == |was| && at < position.value))
    && (position.Some? && position.value < 0 ==> at == |was| + position.value || (at == 0 && |was| < -position.value))
  }

  /** What a push makes of a list: a value at its end, or the modifiers' values put, sorted and sliced. */
  ghost predicate PushMakes(env: Env, was: seq<Value>, operand: Value, r: seq<Value>) {
    match FormOf(env, operand)
    case Literal => r == was + [operand]
    case Malformed => false
    case Modified(m) =>
      && m.each.Some?
      && exists all ::
           && r == Sliced(all, m.slice)
           && if m.sort.Some? then SortOf(env, m.sort.value, was + m.each.value, all)
              else exists at :: PutAt(was, m.each.value, m.position, at, all)
  }

  lemma PushedMakes(env: Env, was: seq<Value>, operand: Value)
    ensures var f := FormOf(env, operand);
            && (f.Modified? ==> f.mods.each.Some? && PushMakes(env, was, operand, PushedWith(env, was, f.mods)))
            && (f.Literal? ==> PushMakes(env, was, operand, was + [operand]))
  {
    EachThere(env, operand);
    var f := FormOf(env, operand);
    if f.Modified? {
      var m := f.mods;
      if m.sort.Some? {
        SortedIsSortOf(env, m.sort.value, was + m.each.value);
      } else {
        var at := PlaceFor(m.position, |was|);
        assert PutAt(was, m.each.value, m.position, at, Spliced(was, m.each.value, at));
      }
    }
  }

  function Pushed(env: Env, old_: Option<Value>, operand: Value): Option<Value> {
    var f, elems := FormOf(env, operand), Elements(old_);
    if f.Malformed? || elems.None? then None
    else if f.Literal? then Some(ArrayOf(elems.value + [operand]))
    else EachThere(env, operand); Some(ArrayOf(PushedWith(env, elems.value, f.mods)))
  }

  lemma {:induction false} ModsHaveEach(env: Env, ms: seq<Member>, m: Mods)
    ensures ModsFrom(env, ms, m).Modified? ==> ModsFrom(env, ms, m).mods.each.Some?
    decreases |ms|
  {
    if ms != [] {
      var s := ModStep(env, m, ms[0].key, ms[0].value);
      if s.Modified? {
        ModsHaveEach(env, ms[1..], s.mods);
      }
    }
  }

  lemma EachThere(env: Env, operand: Value)
    ensures FormOf(env, operand).Modified? ==> FormOf(env, operand).mods.each.Some?
  {
    if operand.Container? && operand.isObject {
      ModsHaveEach(env, operand.members, NO_MODS);
    }
  }

  method EmitPushed(env: Env, old_: Option<Value>, operand: Value) returns (r: Option<Value>)
    ensures r == Pushed(env, old_, operand)
  {
    var f := ParseMods(env, operand);
    EachThere(env, operand);
    var elems := Elements(old_);
    if f.Malformed? || elems.None? {
      return None;
    }
    if f.Literal? {
      return Some(ArrayOf(elems.value + [operand]));
    }
    var es, m := elems.value, f.mods;
    if m.sort.Some? {
      var all := es + m.each.value;
      var a := new Value[|all|](i requires 0 <= i < |all| => all[i]);
      assert a[..] == all;
      SortInPlace(env, m.sort.value, a);
      es := a[..];
    } else {
      es := Spliced(es, m.each.value, PlaceFor(m.position, |es|));
    }
    r := Some(ArrayOf(Sliced(es, m.slice)));
  }

  // ---- the operand of an addition to a set ----

  datatype EachForm = Single | Each(vs: seq<Value>) | BadEach

  ghost predicate NamesEach(ms: seq<Member>) {
    exists i :: 0 <= i < |ms| && ms[i].key == Ascii("$each")
  }

  ghost function EachOf(operand: Value): EachForm {
    if !(operand.Container? && operand.isObject) || !NamesEach(operand.members) then Single
    else if |operand.members| == 1 && IsArray(operand.members[0].value) then Each(ValuesOf(operand.members[0].value))
    else BadEach
  }

  method ReadEach(operand: Value) returns (f: EachForm)
    ensures f == EachOf(operand)
  {
    if !(operand.Container? && operand.isObject) {
      return Single;
    }
    var ms := operand.members;
    f := Single;
    for i := 0 to |ms|
      invariant f.Single? <==> !NamesEach(ms[..i])
      invariant !f.BadEach?
      invariant f.Each? ==>
        exists j :: 0 <= j < i && ms[j].key == Ascii("$each") && IsArray(ms[j].value) && f.vs == ValuesOf(ms[j].value)
    {
      EachNext(ms, i);
      if ms[i].key == Ascii("$each") {
        EachSomewhere(ms, i);
        if !IsArray(ms[i].value) {
          return BadEach;
        }
        f := Each(ValuesOf(ms[i].value));
      }
    }
    assert ms[..|ms|] == ms;
    if f.Each? && |ms| != 1 {
      f := BadEach;
    }
  }

  lemma EachNext(ms: seq<Member>, i: nat)
    requires i < |ms|
    ensures NamesEach(ms[..i + 1]) <==> NamesEach(ms[..i]) || ms[i].key == Ascii("$each")
  {
    var a, b := ms[..i], ms[..i + 1];
    assert b[i] == ms[i];
    if NamesEach(a) {
      var j :| 0 <= j < i && a[j].key == Ascii("$each");
      assert b[j] == a[j];
    }
    if NamesEach(b) {
      var j :| 0 <= j < i + 1 && b[j].key == Ascii("$each");
      assert j < i ==> a[j] == b[j];
    }
  }

  lemma EachSomewhere(ms: seq<Member>, i: nat)
    requires i < |ms| && ms[i].key == Ascii("$each")
    ensures NamesEach(ms)
  {
  }

  ghost function AddedSet(old_: Option<Value>, operand: Value): Option<Value> {
    var f, elems := EachOf(operand), Elements(old_);
    if f.BadEach? || elems.None? then None
    else Some(ArrayOf(Union(elems.value, if f.Each? then f.vs else [operand])))
  }

  /** The operand names a list of values to add, and nothing else. */
  predicate ListsEach(operand: Value) {
    && operand.Container? && operand.isObject && |operand.members| == 1
    && operand.members[0].key == Ascii("$each") && IsArray(operand.members[0].value)
  }

  /** It names such a list wrongly. */
  ghost predicate BadAddition(operand: Value) {
    operand.Container? && operand.isObject && NamesEach(operand.members) && !ListsEach(operand)
  }

  function Additions(operand: Value): seq<Value> {
    if ListsEach(operand) then ValuesOf(operand.members[0].value) else [operand]
  }

  lemma AddedSetGrows(old_: Option<Value>, operand: Value)
    ensures AddedSet(old_, operand).None? <==> Elements(old_).None? || BadAddition(operand)
    ensures AddedSet(old_, operand).Some? ==>
              exists r :: AddedSet(old_, operand) == Some(ArrayOf(r))
                          && Grown(Elements(old_).value, Additions(operand), r)
  {
    if AddedSet(old_, operand).Some? {
      if ListsEach(operand) {
        assert operand.members[0].key == Ascii("$each");
      }
      UnionGrows(Elements(old_).value, Additions(operand));
    }
  }

  method EmitAddedToSet(old_: Option<Value>, operand: Value) returns (r: Option<Value>)
    ensures r == AddedSet(old_, operand)
  {
    var f := ReadEach(operand);
    var elems := Elements(old_);
    if f.BadEach? || elems.None? {
      return None;
    }
    var vs := AddedToSet(elems.value, if f.Each? then f.vs else [operand]);
    r := Some(ArrayOf(vs));
  }

  // ---- pulling and popping ----

  /** The elements a test does not drop; None if the test fails on one. */
  function Kept(vs: seq<Value>, drop: Value -> Option<bool>): (r: Option<seq<Value>>) {
    if vs == [] then Some([])
    else
      var init, d := Kept(vs[..|vs| - 1], drop), drop(vs[|vs| - 1]);
      if init.None? || d.None? then None else if d.value then init else Some(init.value + [vs[|vs| - 1]])
  }

  /** Exactly the elements not dropped, in order and as often as they were there. */
  lemma {:induction false} KeptIsFilter(vs: seq<Value>, drop: Value -> Option<bool>, v: Value)
    requires Kept(vs, drop).Some?
    ensures drop(v) == Some(true) ==> v !in Kept(vs, drop).value
    ensures drop(v) == Some(false) ==> multiset(Kept(vs, drop).value)[v] == multiset(vs)[v]
  {
    if vs != [] {
      var n := |vs| - 1;
      KeptIsFilter(vs[..n], drop, v);
      assert vs == vs[..n] + [vs[n]];
    }
  }

  /** `r` is the elements at the places `at`, in order. */
  ghost predicate Picked(vs: seq<Value>, at: seq<nat>, r: seq<Value>) {
    && |at| == |r| && (forall i :: 0 <= i < |at| ==> at[i] < |vs| && r[i] == vs[at[i]])
    && forall i, j :: 0 <= i < j < |at| ==> at[i] < at[j]
  }

  /** What is left of a list: the elements at exactly the places that are not dropped. */
  ghost predicate LeftOf(vs: seq<Value>, drop: Value -> Option<bool>, r: seq<Value>) {
    exists at: seq<nat> :: Picked(vs, at, r) && forall j: nat :: j in at <==> j < |vs| && drop(vs[j]) == Some(false)
  }

  lemma {:induction false} KeptIsLeft(vs: seq<Value>, drop: Value -> Option<bool>)
    ensures Kept(vs, drop).Some? <==> forall v :: v in vs ==> drop(v).Some?
    ensures Kept(vs, drop).Some? ==> LeftOf(vs, drop, Kept(vs, drop).value)
  {
    if vs == [] {
      assert Picked(vs, [], []);
    } else {
      var n := |vs| - 1;
      KeptIsLeft(vs[..n], drop);
      assert vs == vs[..n] + [vs[n]];
      if Kept(vs, drop).Some? {
        var was := Kept(vs[..n], drop).value;
        var at: seq<nat> :| Picked(vs[..n], at, was)
                         && forall j: nat :: j in at <==> j < n && drop(vs[..n][j]) == Some(false);
        LeftNext(vs, drop, at, was);
      }
    }
  }

  lemma LeftNext(vs: seq<Value>, drop: Value -> Option<bool>, at: seq<nat>, was: seq<Value>)
    requires vs != [] && Picked(vs[..|vs| - 1], at, was) && drop(vs[|vs| - 1]).Some?
    requires forall j: nat :: j in at <==> j < |vs| - 1 && drop(vs[..|vs| - 1][j]) == Some(false)
    ensures LeftOf(vs, drop, if drop(vs[|vs| - 1]).value then was else was + [vs[|vs| - 1]])
  {
    var n: nat := |vs| - 1;
    var more: seq<nat> := if drop(vs[n]).value then [] else [n];
    PickedNext(vs, at, was, !drop(vs[n]).value);
    forall j: nat ensures j in at + more <==> j < |vs| && drop(vs[j]) == Some(false) {
      assert j < n ==> vs[..n][j] == vs[j];
      assert j in at + more <==> j in at || j in more;
    }
    assert at + [] == at;
  }

  lemma PickedNext(vs: seq<Value>, at: seq<nat>, was: seq<Value>, take: bool)
    requires vs != [] && Picked(vs[..|vs| - 1], at, was)
    ensures if take then Picked(vs, at + [|vs| - 1], was + [vs[|vs| - 1]]) else Picked(vs, at, was)
  {
  }

  /** What is kept passes the test, so a second pull takes nothing. */
  lemma {:induction false} KeptAgain(vs: seq<Value>, drop: Value -> Option<bool>)
    requires Kept(vs, drop).Some?
    ensures forall v :: v in Kept(vs, drop).value ==> drop(v) == Some(false)
    ensures Kept(Kept(vs, drop).value, drop) == Kept(vs, drop)
  {
    if vs != [] {
      var n := |vs| - 1;
      KeptAgain(vs[..n], drop);
      var r := Kept(vs, drop).value;
      if drop(vs[n]) == Some(false) {
        assert r[..|r| - 1] == Kept(vs[..n], drop).value;
      }
    }
  }

  /** Elements kept in front of elements dropped. */
  lemma {:induction false} KeptFront(a: seq<Value>, b: seq<Value>, drop: Value -> Option<bool>)
    requires (forall v :: v in a ==> drop(v) == Some(false)) && forall v :: v in b ==> drop(v) == Some(true)
    ensures Kept(a + b, drop) == Some(a)
    decreases |a| + |b|
  {
    var vs := a + b;
    if b != [] {
      assert vs[..|vs| - 1] == a + b[..|b| - 1] && vs[|vs| - 1] == b[|b| - 1];
      KeptFront(a, b[..|b| - 1], drop);
    } else if a != [] {
      assert vs == a && a[..|a| - 1] + b == a[..|a| - 1];
      KeptFront(a[..|a| - 1], b, drop);
      assert a[..|a| - 1] + [a[|a| - 1]] == a && a[|a| - 1] in a;
    }
  }

  lemma KeptFails(vs: seq<Value>, drop: Value -> Option<bool>, i: nat)
    requires i <= |vs| && Kept(vs[..i], drop).None?
    ensures Kept(vs, drop).None?
    decreases |vs|
  {
    if i < |vs| {
      assert vs[..|vs| - 1][..i] == vs[..i];
      KeptFails(vs[..|vs| - 1], drop, i);
    } else {
      assert vs[..i] == vs;
    }
  }

  method Filter(vs: seq<Value>, drop: Value -> Option<bool>) returns (r: Option<seq<Value>>)
    ensures r == Kept(vs, drop)
  {
    var out: seq<Value> := [];
    for i := 0 to |vs|
      invariant Kept(vs[..i], drop) == Some(out)
    {
      assert vs[..i + 1][..i] == vs[..i];
      var d := drop(vs[i]);
      if d.None? {
        KeptFails(vs, drop, i + 1);
        return None;
      }
      if !d.value {
        out := out + [vs[i]];
      }
    }
    assert vs[..|vs|] == vs;
    r := Some(out);
  }

  function PullTest(env: Env, operand: Value): Value -> Option<bool> {
    if env.isExpr(operand) then v => env.matches(v, operand) else v => Some(v == operand)
  }

  function PullAllTest(operand: Value): Value -> Option<bool>
    requires IsArray(operand)
  {
    v => Some(v in ValuesOf(operand))
  }

  /** Pulling the candidates out of a union gives back a base that had none of them. */
  lemma UnionPulled(base: seq<Value>, operand: Value)
    requires IsArray(operand) && forall v :: v in base ==> v !in ValuesOf(operand)
    ensures Kept(Union(base, ValuesOf(operand)), PullAllTest(operand)) == Some(base)
  {
    UnionTail(base, ValuesOf(operand));
    KeptFront(base, Union(base, ValuesOf(operand))[|base|..], PullAllTest(operand));
  }

  function Popped(vs: seq<Value>, last: bool): seq<Value> {
    if vs == [] then vs else if last then vs[..|vs| - 1] else vs[1..]
  }
}
