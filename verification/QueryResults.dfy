// From matching documents to results: the stable merge sort, skip, limit and projection.
module QueryResults {
  // ---- collecting ----

  /** The part of a list that skip and limit leave; a limit that is not positive is none. */
  function Window<D>(docs: seq<D>, skip: int, limit: int): (r: seq<D>) {
    var start := if skip <= 0 then 0 else if skip < |docs| then skip else |docs|;
    if limit > 0 && start + limit < |docs| then docs[start..start + limit] else docs[start..]
  }

  function Filtered<D>(docs: seq<D>, matches: D -> bool): (r: seq<D>) {
    if docs == [] then []
    else
      var rest := Filtered(docs[1..], matches);
      if matches(docs[0]) then [docs[0]] + rest else rest
  }

  /** The filter keeps what matches, and works on the parts of a list separately. */
  lemma {:induction false} FilteredJoins<D>(a: seq<D>, b: seq<D>, matches: D -> bool)
    ensures Filtered(a + b, matches) == Filtered(a, matches) + Filtered(b, matches)
    ensures forall d :: d in Filtered(a, matches) <==> d in a && matches(d)
    decreases |a|
  {
    if a == [] {
      assert a + b == b;
    } else {
      assert (a + b)[1..] == a[1..] + b;
      FilteredJoins(a[1..], b, matches);
    }
  }

  function Projected<D>(docs: seq<D>, project: D -> D): (r: seq<D>)
    ensures |r| == |docs| && forall i :: 0 <= i < |r| ==> r[i] == project(docs[i])
  {
    seq(|docs|, i requires 0 <= i < |docs| => project(docs[i]))
  }

  /** What a find returns for documents already in order. */
  function Results<D>(docs: seq<D>, project: D -> D, skip: int, limit: int): seq<D> {
    Projected(Window(docs, skip, limit), project)
  }

  /** The projected documents from position `skip` on, as many as the limit allows. */
  ghost predicate Shown<D>(out: seq<D>, docs: seq<D>, project: D -> D, skip: int, limit: int) {
    var from := if skip > 0 then skip else 0;
    && |out| <= |docs| && (limit > 0 ==> |out| <= limit)
    && (|out| < limit || limit <= 0 ==> if from <= |docs| then from + |out| == |docs| else out == [])
    && forall i :: 0 <= i < |out| ==> from + i < |docs| && out[i] == project(docs[from + i])
  }

  lemma ResultsShown<D>(docs: seq<D>, project: D -> D, skip: int, limit: int)
    ensures Shown(Results(docs, project, skip, limit), docs, project, skip, limit)
  {
  }

  method Collect<D>(docs: seq<D>, project: D -> D, skip: int, limit: int) returns (out: seq<D>)
    ensures out == Results(docs, project, skip, limit) && Shown(out, docs, project, skip, limit)
  {
    var start, end := 0, |docs|;
    if skip > 0 {
      start := if skip < |docs| then skip else |docs|;
    }
    if limit > 0 && start + limit < end {
      end := start + limit;
    }
    ResultsShown(docs, project, skip, limit);
    ghost var w := Window(docs, skip, limit);
    assert w == docs[start..end];
    out := [];
    for i := start to end
      invariant out == Projected(w, project)[..i - start]
    {
      out := out + [project(docs[i])];
    }
  }

  // ---- results one at a time ----

  lemma TakenFirst<D>(out: seq<D>, d: D, rest: seq<D>)
    ensures (out + [d]) + rest == out + ([d] + rest)
    ensures rest == [] ==> (out + [d]) + rest == out + [d]
  {
  }

  lemma SkipOne<D>(d: D, rest: seq<D>, project: D -> D, skip: nat, limit: int)
    requires skip > 0
    ensures Results([d] + rest, project, skip, limit) == Results(rest, project, skip - 1, limit)
  {
    var all := [d] + rest;
    assert all[1..] == rest;
    if skip < |all| {
      assert all[skip..] == rest[skip - 1..];
      if limit > 0 && skip + limit < |all| {
        assert all[skip..skip + limit] == rest[skip - 1..skip - 1 + limit];
      }
    }
    assert Window(all, skip, limit) == Window(rest, skip - 1, limit);
  }

  /** The results behind one that was taken. */
  function ResultsBehind<D>(rest: seq<D>, project: D -> D, limit: int): seq<D> {
    if limit == 1 then [] else Results(rest, project, 0, if limit > 1 then limit - 1 else limit)
  }

  lemma TakeOne<D>(d: D, rest: seq<D>, project: D -> D, limit: int)
    ensures Results([d] + rest, project, 0, limit) == [project(d)] + ResultsBehind(rest, project, limit)
  {
    var all := [d] + rest;
    if limit == 1 {
      assert Window(all, 0, limit) == [d];
    } else {
      WindowBehind(d, rest, limit);
    }
  }

  lemma WindowBehind<D>(d: D, rest: seq<D>, limit: int)
    requires limit != 1
    ensures Window([d] + rest, 0, limit) == [d] + Window(rest, 0, if limit > 1 then limit - 1 else limit)
  {
  }

  // ---- the merge sort ----

  datatype Sortable<D> = Sortable(doc: D, orig: nat)

  /** Ties go to the document that came first. */
  predicate Less<D>(cmp: (D, D) -> int, a: Sortable<D>, b: Sortable<D>) {
    var c := cmp(a.doc, b.doc);
    if c != 0 then c < 0 else a.orig < b.orig
  }

  function Merge<D>(cmp: (D, D) -> int, a: seq<Sortable<D>>, b: seq<Sortable<D>>): (r: seq<Sortable<D>>)
    ensures |r| == |a| + |b|
    decreases |a| + |b|
  {
    if a == [] then b
    else if b == [] then a
    else if Less(cmp, a[0], b[0]) then [a[0]] + Merge(cmp, a[1..], b)
    else [b[0]] + Merge(cmp, a, b[1..])
  }

  /** One pass: neighbouring runs of a width merged. */
  function Pass<D>(cmp: (D, D) -> int, s: seq<Sortable<D>>, w: nat): (r: seq<Sortable<D>>)
    requires w > 0
    ensures |r| == |s|
  {
    if |s| <= w then s
    else if |s| <= 2 * w then Merge(cmp, s[..w], s[w..])
    else Merge(cmp, s[..w], s[w..2 * w]) + Pass(cmp, s[2 * w..], w)
  }

  /** Copy what is left of a run behind what has been merged from `lo` on. */
  method CopyRun<D>(arr: array<Sortable<D>>, scratch: array<Sortable<D>>, from: nat, to: nat, at: nat, ghost lo: nat)
    requires arr != scratch && from <= to <= arr.Length && lo <= at && at + (to - from) <= scratch.Length
    modifies scratch
    ensures scratch[..lo] == old(scratch[..lo])
    ensures scratch[lo..at + (to - from)] == old(scratch[lo..at]) + arr[from..to]
  {
    ghost var merged := scratch[lo..at];
    for i := from to to
      invariant scratch[..lo] == old(scratch[..lo]) && scratch[lo..at + (i - from)] == merged + arr[from..i]
    {
      Store(scratch, at + (i - from), arr[i], lo);
      Snoc(merged, arr[..], from, i);
    }
  }

  lemma Snoc<T>(a: seq<T>, s: seq<T>, from: nat, i: nat)
    requires from <= i < |s|
    ensures (a + s[from..i]) + [s[i]] == a + s[from..i + 1]
  {
  }

  method Store<D>(scratch: array<Sortable<D>>, k: nat, v: Sortable<D>, ghost lo: nat)
    requires lo <= k < scratch.Length
    modifies scratch
    ensures scratch[..k] == old(scratch[..k]) && scratch[lo..k + 1] == old(scratch[lo..k]) + [v]
            && scratch[..lo] == old(scratch[..lo])
  {
    ghost var was := scratch[..];
    scratch[k] := v;
    assert scratch[..k] == was[..k];
    assert scratch[..lo] == was[..lo];
    assert scratch[lo..k + 1] == was[lo..k] + [v];
  }

  /** Merge two neighbouring runs of an array into the scratch array. */
  method MergeRuns<D>(cmp: (D, D) -> int, arr: array<Sortable<D>>, scratch: array<Sortable<D>>, lo: nat, mid: nat,
                      hi: nat)
    requires arr != scratch && arr.Length == scratch.Length && lo <= mid <= hi <= arr.Length
    modifies scratch
    ensures scratch[..lo] == old(scratch[..lo]) && scratch[lo..hi] == Merge(cmp, arr[lo..mid], arr[mid..hi])
  {
    ghost var a, b := arr[lo..mid], arr[mid..hi];
    var i, j, k := MergeHeads(cmp, arr, scratch, lo, mid, hi);
    ghost var merged, left, right := scratch[lo..k], arr[i..mid], arr[j..hi];
    assert arr[..][lo..mid] == a && arr[..][mid..hi] == b && arr[..][i..mid] == left && arr[..][j..hi] == right;
    MergeEnds(cmp, left, right);
    Assoc(merged, left, right);
    assert (merged + left) + right == Merge(cmp, a, b);
    CopyRun(arr, scratch, i, mid, k, lo);
    k := k + (mid - i);
    assert k == j && arr[j..hi] == right && scratch[lo..k] == merged + left;
    CopyRun(arr, scratch, j, hi, k, lo);
    assert scratch[lo..hi] == (merged + left) + right;
    assert arr[lo..mid] == a && arr[mid..hi] == b;
  }

  lemma Assoc<T>(a: seq<T>, b: seq<T>, c: seq<T>)
    ensures (a + b) + c == a + (b + c)
  {
  }

  /** Take the lesser head until one of the runs is used up. */
  method MergeHeads<D>(cmp: (D, D) -> int, arr: array<Sortable<D>>, scratch: array<Sortable<D>>, lo: nat, mid: nat,
                       hi: nat)
    returns (i: nat, j: nat, k: nat)
    requires arr != scratch && arr.Length == scratch.Length && lo <= mid <= hi <= arr.Length
    modifies scratch
    ensures lo <= i <= mid <= j <= hi && k == i + j - mid && (i == mid || j == hi)
            && scratch[..lo] == old(scratch[..lo])
    ensures scratch[lo..k] + Merge(cmp, arr[..][i..mid], arr[..][j..hi])
            == Merge(cmp, arr[..][lo..mid], arr[..][mid..hi])
  {
    i, j, k := lo, mid, lo;
    ghost var src, merged := arr[..], scratch[lo..lo];
    ghost var goal := Merge(cmp, src[lo..mid], src[mid..hi]);
    assert merged + goal == goal;
    while i < mid && j < hi
      invariant lo <= i <= mid <= j <= hi && k == i + j - mid && scratch[..lo] == old(scratch[..lo])
      invariant arr[..] == src && scratch[lo..k] == merged
      invariant merged + Merge(cmp, src[i..mid], src[j..hi]) == goal
    {
      i, j, merged := TakeHead(cmp, arr, scratch, i, mid, j, hi, k, lo, src, merged, goal);
      k := k + 1;
    }
  }

  method TakeHead<D>(cmp: (D, D) -> int, arr: array<Sortable<D>>, scratch: array<Sortable<D>>, i: nat, mid: nat, j: nat,
                     hi: nat, k: nat,
                     ghost lo: nat, ghost src: seq<Sortable<D>>, ghost merged: seq<Sortable<D>>,
                     ghost goal: seq<Sortable<D>>)
    returns (i1: nat, j1: nat, ghost more: seq<Sortable<D>>)
    requires arr != scratch && arr[..] == src && i < mid <= j < hi <= |src| && lo <= k < scratch.Length
    requires scratch[lo..k] == merged && merged + Merge(cmp, src[i..mid], src[j..hi]) == goal
    modifies scratch
    ensures (i1 == i + 1 && j1 == j) || (i1 == i && j1 == j + 1)
    ensures scratch[..lo] == old(scratch[..lo]) && scratch[lo..k + 1] == more
    ensures more + Merge(cmp, src[i1..mid], src[j1..hi]) == goal
  {
    MergeAt(cmp, src, i, mid, j, hi, merged);
    if Less(cmp, arr[i], arr[j]) {
      Store(scratch, k, arr[i], lo);
      return i + 1, j, merged + [src[i]];
    } else {
      Store(scratch, k, arr[j], lo);
      return i, j + 1, merged + [src[j]];
    }
  }

  /** The lesser head of two runs comes next. */
  lemma MergeAt<D>(cmp: (D, D) -> int, src: seq<Sortable<D>>, i: nat, mid: nat, j: nat, hi: nat,
                   merged: seq<Sortable<D>>)
    requires i < mid <= j < hi <= |src|
    ensures merged + Merge(cmp, src[i..mid], src[j..hi])
         == if Less(cmp, src[i], src[j]) then (merged + [src[i]]) + Merge(cmp, src[i + 1..mid], src[j..hi])
            else (merged + [src[j]]) + Merge(cmp, src[i..mid], src[j + 1..hi])
  {
    var a, b := src[i..mid], src[j..hi];
    MergeStep(cmp, a, b);
    assert a[1..] == src[i + 1..mid] && b[1..] == src[j + 1..hi];
    Shift(merged, src[i], Merge(cmp, src[i + 1..mid], src[j..hi]));
    Shift(merged, src[j], Merge(cmp, src[i..mid], src[j + 1..hi]));
  }

  lemma Shift<T>(a: seq<T>, v: T, b: seq<T>)
    ensures a + ([v] + b) == (a + [v]) + b
  {
  }

  lemma MergeEnds<D>(cmp: (D, D) -> int, a: seq<Sortable<D>>, b: seq<Sortable<D>>)
    requires a == [] || b == []
    ensures Merge(cmp, a, b) == a + b
  {
  }

  lemma MergeStep<D>(cmp: (D, D) -> int, a: seq<Sortable<D>>, b: seq<Sortable<D>>)
    requires a != [] && b != []
    ensures Merge(cmp, a, b) == if Less(cmp, a[0], b[0]) then [a[0]] + Merge(cmp, a[1..], b)
            else [b[0]] + Merge(cmp, a, b[1..])
  {
  }

  /** Bottom-up merge sort. */
  method MergeSort<D>(cmp: (D, D) -> int, arr: array<Sortable<D>>, scratch: array<Sortable<D>>,
                      ghost dom: set<Sortable<D>>)
    requires arr != scratch && arr.Length == scratch.Length
    requires Orders(cmp, dom) && forall x :: x in arr[..] ==> x in dom
    modifies arr, scratch
    ensures multiset(arr[..]) == multiset(old(arr[..]))
    ensures forall i, j :: 0 <= i < j < arr.Length ==>
              arr[i] == arr[j] || cmp(arr[i].doc, arr[j].doc) < 0
                  || (cmp(arr[i].doc, arr[j].doc) == 0 && arr[i].orig < arr[j].orig)
  {
    var n, width := arr.Length, 1;
    ghost var all, cur := multiset(arr[..]), arr[..];
    StartSort(cmp, cur, dom);
    while width < n
      invariant width > 0 && arr[..] == cur && Sorting(cmp, cur, width, dom, all)
    {
      PassMerges(cmp, cur, width, dom, all);
      OnePass(cmp, arr, scratch, width);
      cur := Pass(cmp, cur, width);
      width := width * 2;
    }
    assert InOrder(cmp, arr[..]);
    forall i, j | 0 <= i < j < n
      ensures arr[i] == arr[j] || cmp(arr[i].doc, arr[j].doc) < 0
              || (cmp(arr[i].doc, arr[j].doc) == 0 && arr[i].orig < arr[j].orig)
    {
      assert arr[..][i] == arr[..][j] || Less(cmp, arr[..][i], arr[..][j]);
    }
  }

  /** Runs of a width, of the elements there were. */
  ghost predicate Sorting<D>(cmp: (D, D) -> int, s: seq<Sortable<D>>, w: nat, dom: set<Sortable<D>>,
                             all: multiset<Sortable<D>>)
    requires w > 0
  {
    Orders(cmp, dom) && Runs(cmp, s, w) && multiset(s) == all && forall x :: x in all ==> x in dom
  }

  lemma StartSort<D>(cmp: (D, D) -> int, s: seq<Sortable<D>>, dom: set<Sortable<D>>)
    requires Orders(cmp, dom) && forall x :: x in s ==> x in dom
    ensures Sorting(cmp, s, 1, dom, multiset(s))
  {
    SinglesAreRuns(cmp, s);
  }

  method OnePass<D>(cmp: (D, D) -> int, arr: array<Sortable<D>>, scratch: array<Sortable<D>>, width: nat)
    requires arr != scratch && arr.Length == scratch.Length && width > 0
    modifies arr, scratch
    ensures arr[..] == Pass(cmp, old(arr[..]), width)
  {
    var n, lo := arr.Length, 0;
    ghost var was := arr[..];
    assert was[0..] == was;
    while lo < n
      invariant arr[..] == was && lo <= n && scratch[..lo] + PassRest(cmp, was, lo, width) == Pass(cmp, was, width)
      decreases n - lo
    {
      var mid := if lo + width < n then lo + width else n;
      var hi := if lo + 2 * width < n then lo + 2 * width else n;
      PassStep(cmp, was, lo, mid, hi, width, scratch[..lo]);
      OneMerge(cmp, arr, scratch, lo, mid, hi);
      lo := hi;
    }
    CopyRun(scratch, arr, 0, n, 0, 0);
    assert arr[..] == arr[0..n] && scratch[..n] == scratch[0..n] && arr[0..0] == [];
  }

  method OneMerge<D>(cmp: (D, D) -> int, arr: array<Sortable<D>>, scratch: array<Sortable<D>>, lo: nat, mid: nat,
                     hi: nat)
    requires arr != scratch && arr.Length == scratch.Length && lo <= mid <= hi <= arr.Length
    modifies scratch
    ensures scratch[..hi] == old(scratch[..lo]) + Merge(cmp, arr[..][lo..mid], arr[..][mid..hi])
  {
    MergeRuns(cmp, arr, scratch, lo, mid, hi);
    assert arr[..][lo..mid] == arr[lo..mid] && arr[..][mid..hi] == arr[mid..hi];
    assert scratch[..hi] == scratch[..lo] + scratch[lo..hi];
  }

  function PassRest<D>(cmp: (D, D) -> int, s: seq<Sortable<D>>, lo: nat, w: nat): seq<Sortable<D>>
    requires w > 0 && lo <= |s|
  {
    if lo < |s| then Pass(cmp, s[lo..], w) else []
  }

  lemma PassStep<D>(cmp: (D, D) -> int, s: seq<Sortable<D>>, lo: nat, mid: nat, hi: nat, w: nat, a: seq<Sortable<D>>)
    requires w > 0 && lo < |s| && mid == (if lo + w < |s| then lo + w else |s|)
             && hi == (if lo + 2 * w < |s| then lo + 2 * w else |s|)
    ensures (a + Merge(cmp, s[lo..mid], s[mid..hi])) + PassRest(cmp, s, hi, w) == a + PassRest(cmp, s, lo, w)
  {
    var t := s[lo..];
    if |t| <= w {
      assert s[lo..mid] == t && s[mid..hi] == [];
    } else if |t| <= 2 * w {
      assert t[..w] == s[lo..mid] && t[w..] == s[mid..hi];
    } else {
      assert t[..w] == s[lo..mid] && t[w..2 * w] == s[mid..hi] && t[2 * w..] == s[hi..];
    }
    Assoc(a, Merge(cmp, s[lo..mid], s[mid..hi]), PassRest(cmp, s, hi, w));
  }

  /** The comparison orders these elements strictly: of two, one comes first. */
  ghost predicate Orders<D>(cmp: (D, D) -> int, dom: set<Sortable<D>>) {
    && (forall a, b :: a in dom && b in dom ==>
       (a == b || Less(cmp, a, b) || Less(cmp, b, a)) && !(Less(cmp, a, b) && Less(cmp, b, a)))
    && forall a, b, c :: a in dom && b in dom && c in dom && Less(cmp, a, b) && Less(cmp, b, c) ==> Less(cmp, a, c)
  }

  ghost predicate InOrder<D>(cmp: (D, D) -> int, s: seq<Sortable<D>>) {
    forall i, j :: 0 <= i < j < |s| ==> s[i] == s[j] || Less(cmp, s[i], s[j])
  }

  /** Sorted in runs of a width. */
  ghost predicate Runs<D>(cmp: (D, D) -> int, s: seq<Sortable<D>>, w: nat)
    requires w > 0
  {
    if |s| <= w then InOrder(cmp, s) else InOrder(cmp, s[..w]) && Runs(cmp, s[w..], w)
  }

  lemma {:induction false} SinglesAreRuns<D>(cmp: (D, D) -> int, s: seq<Sortable<D>>)
    ensures Runs(cmp, s, 1)
  {
    if |s| > 1 {
      SinglesAreRuns(cmp, s[1..]);
    }
  }

  lemma {:induction false} MergeSorts<D>(cmp: (D, D) -> int, a: seq<Sortable<D>>, b: seq<Sortable<D>>,
                                         dom: set<Sortable<D>>)
    requires Orders(cmp, dom) && (forall x :: x in a ==> x in dom) && (forall x :: x in b ==> x in dom)
    requires InOrder(cmp, a) && InOrder(cmp, b)
    ensures InOrder(cmp, Merge(cmp, a, b)) && multiset(Merge(cmp, a, b)) == multiset(a) + multiset(b)
    decreases |a| + |b|
  {
    if a == [] || b == [] {
    } else if Less(cmp, a[0], b[0]) {
      MergeSorts(cmp, a[1..], b, dom);
      HeadFirst(cmp, a[0], a, b, Merge(cmp, a[1..], b), dom);
    } else {
      MergeSorts(cmp, a, b[1..], dom);
      HeadFirst(cmp, b[0], b, a, Merge(cmp, a, b[1..]), dom);
    }
  }

  /** The lesser of two heads goes in front of the merged rest. */
  lemma HeadFirst<D>(cmp: (D, D) -> int, x: Sortable<D>, a: seq<Sortable<D>>, b: seq<Sortable<D>>,
                     rest: seq<Sortable<D>>, dom: set<Sortable<D>>)
    requires Orders(cmp, dom) && (forall y :: y in a ==> y in dom) && (forall y :: y in b ==> y in dom)
    requires a != [] && b != [] && x == a[0] && !Less(cmp, b[0], x) && InOrder(cmp, a) && InOrder(cmp, b)
    requires InOrder(cmp, rest) && multiset(rest) == multiset(a[1..]) + multiset(b)
    ensures InOrder(cmp, [x] + rest) && multiset([x] + rest) == multiset(a) + multiset(b)
  {
    assert a == [x] + a[1..];
    forall y | y in rest ensures x == y || Less(cmp, x, y) {
      assert y in multiset(rest);
      assert b[0] in b && x in a;
      if y in a[1..] {
        var i :| 0 <= i < |a[1..]| && a[1..][i] == y;
        assert a[i + 1] == y;
      } else {
        assert y in multiset(b);
        var i :| 0 <= i < |b| && b[i] == y;
        assert x == b[0] || Less(cmp, x, b[0]);
        assert i == 0 || b[0] == y || Less(cmp, b[0], y);
      }
    }
    var s := [x] + rest;
    forall i, j | 0 <= i < j < |s| ensures s[i] == s[j] || Less(cmp, s[i], s[j]) {
      assert s[j] in rest;
    }
  }

  lemma PrefixIn<D>(s: seq<D>, w: nat)
    requires w <= |s|
    ensures forall x :: x in s[..w] ==> x in s
    ensures forall x :: x in s[w..] ==> x in s
    ensures multiset(s) == multiset(s[..w]) + multiset(s[w..])
  {
    assert s == s[..w] + s[w..];
  }

  lemma JoinRuns<D>(cmp: (D, D) -> int, m: seq<Sortable<D>>, p: seq<Sortable<D>>, w: nat)
    requires w > 0 && |m| == w && InOrder(cmp, m) && Runs(cmp, p, w)
    ensures Runs(cmp, m + p, w) && multiset(m + p) == multiset(m) + multiset(p)
  {
    assert (m + p)[..w] == m && (m + p)[w..] == p;
    if p == [] {
      assert m + p == m;
    }
  }

  /** The first two runs, and the others. */
  lemma TwoRuns<D>(cmp: (D, D) -> int, s: seq<Sortable<D>>, w: nat)
    requires w > 0 && 2 * w < |s| && Runs(cmp, s, w)
    ensures InOrder(cmp, s[..w]) && InOrder(cmp, s[w..2 * w]) && Runs(cmp, s[2 * w..], w)
    ensures forall x :: x in s[w..2 * w] || x in s[2 * w..] ==> x in s
    ensures multiset(s) == multiset(s[..w]) + multiset(s[w..2 * w]) + multiset(s[2 * w..])
  {
    var t := s[w..];
    PrefixIn(s, w);
    PrefixIn(t, w);
    assert t[..w] == s[w..2 * w] && t[w..] == s[2 * w..];
  }

  /** A pass doubles the width of the runs and keeps the elements. */
  lemma {:induction false} PassDoubles<D>(cmp: (D, D) -> int, s: seq<Sortable<D>>, w: nat, dom: set<Sortable<D>>)
    requires w > 0 && Orders(cmp, dom) && (forall x :: x in s ==> x in dom) && Runs(cmp, s, w)
    ensures Runs(cmp, Pass(cmp, s, w), 2 * w) && multiset(Pass(cmp, s, w)) == multiset(s)
    decreases |s|
  {
    if |s| <= w {
    } else {
      PrefixIn(s, w);
      if |s| <= 2 * w {
        MergeSorts(cmp, s[..w], s[w..], dom);
      } else {
        TwoRuns(cmp, s, w);
        MergeSorts(cmp, s[..w], s[w..2 * w], dom);
        PassDoubles(cmp, s[2 * w..], w, dom);
        JoinRuns(cmp, Merge(cmp, s[..w], s[w..2 * w]), Pass(cmp, s[2 * w..], w), 2 * w);
      }
    }
  }

  lemma PassMerges<D>(cmp: (D, D) -> int, s: seq<Sortable<D>>, w: nat, dom: set<Sortable<D>>,
                      all: multiset<Sortable<D>>)
    requires w > 0 && Sorting(cmp, s, w, dom, all)
    ensures Sorting(cmp, Pass(cmp, s, w), w * 2, dom, all)
  {
    forall x | x in s ensures x in dom {
      assert x in multiset(s);
    }
    PassDoubles(cmp, s, w, dom);
  }

  // ---- find with a sort ----

  function Tagged<D>(docs: seq<D>): (t: seq<Sortable<D>>)
    ensures |t| == |docs| && forall i :: 0 <= i < |t| ==> t[i] == Sortable(docs[i], i)
  {
    seq(|docs|, i requires 0 <= i < |docs| => Sortable(docs[i], i))
  }

  function Untagged<D>(t: seq<Sortable<D>>): (docs: seq<D>)
    ensures |docs| == |t| && forall i :: 0 <= i < |t| ==> docs[i] == t[i].doc
  {
    seq(|t|, i requires 0 <= i < |t| => t[i].doc)
  }

  /** No tagged document comes twice, in whatever order. */
  lemma TaggedOnce<D>(docs: seq<D>, order: seq<Sortable<D>>, i: nat, j: nat)
    requires multiset(order) == multiset(Tagged(docs)) && i < j < |order|
    ensures order[i] != order[j]
  {
    TaggedCount(docs, order[i]);
    TwiceCounted(order, i, j);
  }

  lemma TaggedCount<D>(docs: seq<D>, x: Sortable<D>)
    ensures multiset(Tagged(docs))[x] <= 1
  {
    var t := Tagged(docs);
    if x in t {
      assert t == t[..x.orig] + [x] + t[x.orig + 1..];
      assert x !in t[..x.orig] && x !in t[x.orig + 1..];
    } else {
      assert x !in multiset(t);
    }
  }

  lemma TwiceCounted<T>(s: seq<T>, i: nat, j: nat)
    requires i < j < |s|
    ensures s[i] == s[j] ==> multiset(s)[s[i]] >= 2
  {
    assert s == s[..j] + [s[j]] + s[j + 1..];
    assert s[i] == s[..j][i];
  }

  /** The sort specification compares these documents like a total preorder. */
  ghost predicate Preorder<D>(cmp: (D, D) -> int, docs: seq<D>) {
    && (forall a, b :: a in docs && b in docs ==> (cmp(a, b) < 0 <==> cmp(b, a) > 0))
    && forall a, b, c :: a in docs && b in docs && c in docs && cmp(a, b) <= 0 && cmp(b, c) <= 0 ==> cmp(a, c) <= 0
  }

  lemma PreorderOrders<D>(cmp: (D, D) -> int, docs: seq<D>, dom: set<Sortable<D>>)
    requires Preorder(cmp, docs) && forall x :: x in dom ==> x.orig < |docs| && x.doc == docs[x.orig]
    ensures Orders(cmp, dom)
  {
    forall a, b | a in dom && b in dom
      ensures (a == b || Less(cmp, a, b) || Less(cmp, b, a)) && !(Less(cmp, a, b) && Less(cmp, b, a)) {
      assert a.doc in docs && b.doc in docs;
      assert a.orig == b.orig ==> a == b;
    }
    forall a, b, c | a in dom && b in dom && c in dom && Less(cmp, a, b) && Less(cmp, b, c) ensures Less(cmp, a, c) {
      assert a.doc in docs && b.doc in docs && c.doc in docs;
      assert cmp(a.doc, b.doc) <= 0 && cmp(b.doc, c.doc) <= 0;
      if cmp(a.doc, c.doc) == 0 {
        assert cmp(c.doc, a.doc) <= 0;
      }
    }
  }

  /** The documents sorted, those that compare equal in the order they came; then skip, limit and projection. */
  method Find<D>(docs: seq<D>, cmp: (D, D) -> int, sorted: bool, project: D -> D, skip: int, limit: int)
    returns (out: seq<D>, ghost order: seq<Sortable<D>>)
    requires sorted ==> Preorder(cmp, docs)
    ensures out == Results(Untagged(order), project, skip, limit) && multiset(order) == multiset(Tagged(docs))
    ensures Shown(out, Untagged(order), project, skip, limit)
    ensures !sorted ==> Untagged(order) == docs
    ensures sorted ==> forall i, j :: 0 <= i < j < |order| ==>
              && cmp(order[i].doc, order[j].doc) <= 0
              && (cmp(order[i].doc, order[j].doc) == 0 ==> order[i].orig < order[j].orig)
  {
    if !sorted {
      order := Tagged(docs);
      assert Untagged(order) == docs;
      out := Collect(docs, project, skip, limit);
      return;
    }
    var tagged := Tagged(docs);
    ghost var dom := set x | x in tagged;
    PreorderOrders(cmp, docs, dom);
    var arr := new Sortable<D>[|tagged|](i requires 0 <= i < |tagged| => tagged[i]);
    var scratch := new Sortable<D>[|tagged|](i requires 0 <= i < |tagged| => tagged[i]);
    assert arr[..] == tagged;
    MergeSort(cmp, arr, scratch, dom);
    order := arr[..];
    forall i, j | 0 <= i < j < |order| ensures order[i] != order[j] {
      TaggedOnce(docs, order, i, j);
    }
    var list := Untagged(arr[..]);
    out := Collect(list, project, skip, limit);
  }
}
