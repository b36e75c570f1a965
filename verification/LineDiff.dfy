// Line diff of two texts: cut both into lines, search for an edit script, and turn the script back
// into text.
module LineDiff {
  import opened RecordFile
  import opened MyersDiff

  const LF: Byte := 10
  const CR: Byte := 13

  /** A stretch of a text. */
  datatype Rng = Rng(off: nat, len: nat) {
    function End(): (e: nat)
      ensures off <= e
    {
      off + len
    }
  }

  function EndOf(rs: seq<Rng>, i: nat): nat
    requires i <= |rs|
  {
    if i == 0 then 0 else rs[i - 1].End()
  }

  /** The stretches follow one another from the start of the text. */
  ghost predicate Contiguous(rs: seq<Rng>) {
    forall i :: 0 <= i < |rs| ==> Adjoins(rs, i)
  }

  ghost predicate Adjoins(rs: seq<Rng>, i: nat)
    requires i < |rs|
  {
    rs[i].off == EndOf(rs, i)
  }

  lemma ContiguousSnoc(rs: seq<Rng>, r: Rng)
    requires Contiguous(rs) && r.off == EndOf(rs, |rs|)
    ensures Contiguous(rs + [r])
  {
    var p := rs + [r];
    forall i | 0 <= i < |p| ensures Adjoins(p, i) {
      assert i < |rs| ==> Adjoins(rs, i);
    }
  }

  lemma ContiguousInit(rs: seq<Rng>)
    requires Contiguous(rs) && rs != []
    ensures Contiguous(rs[..|rs| - 1]) && rs[|rs| - 1].off == EndOf(rs, |rs| - 1) == EndOf(rs[..|rs| - 1], |rs| - 1)
  {
    var p := rs[..|rs| - 1];
    assert Adjoins(rs, |rs| - 1);
    forall i | 0 <= i < |p| ensures Adjoins(p, i) {
      assert Adjoins(rs, i);
    }
  }

  predicate BreakAt(s: Bytes, j: nat) {
    j < |s| && (s[j] == LF || (s[j] == CR && j + 1 < |s| && s[j + 1] == LF))
  }

  ghost predicate NoBreak(s: Bytes, from: nat, to: nat) {
    forall q :: from <= q < to && q < |s| ==> s[q] != LF
  }

  /** A line with its line feed. */
  ghost predicate IsLine(s: Bytes, r: Rng) {
    0 < r.len && r.End() <= |s| && NoBreak(s, r.off, r.End() - 1) && s[r.End() - 1] == LF
  }

  /** The lines of `s`, each with its line feed; the last may lack one. */
  ghost predicate Lines(s: Bytes, toks: seq<Rng>) {
    && Contiguous(toks) && EndOf(toks, |toks|) == |s|
    && (forall i :: 0 <= i < |toks| - 1 ==> IsLine(s, toks[i]))
    && (toks != [] ==>
         IsLine(s, toks[|toks| - 1]) || (0 < toks[|toks| - 1].len && NoBreak(s, toks[|toks| - 1].off, |s|)))
  }

  // ---- tokenization ----

  /** Contents at even places, line breaks at odd ones. */
  ghost predicate Alternate(s: Bytes, parts: seq<Rng>) {
    && Contiguous(parts) && EndOf(parts, |parts|) <= |s|
    && (forall k :: 0 <= k < |parts| ==> parts[k].End() <= |s|)
    && (forall k :: 0 <= k < |parts| && k % 2 == 0 ==> NoBreak(s, parts[k].off, parts[k].End()))
    && (forall k :: 0 <= k < |parts| && k % 2 == 1 ==> IsLine(s, parts[k]))
  }

  lemma AlternateSnoc(s: Bytes, parts: seq<Rng>, r: Rng)
    requires Alternate(s, parts) && r.off == EndOf(parts, |parts|) && r.End() <= |s|
    requires if |parts| % 2 == 0 then NoBreak(s, r.off, r.End()) else IsLine(s, r)
    ensures Alternate(s, parts + [r])
  {
    ContiguousSnoc(parts, r);
  }

  /** Contents and breaks up to `i`, where a content comes next. */
  ghost predicate CutUpTo(s: Bytes, parts: seq<Rng>, i: nat) {
    i <= |s| && Alternate(s, parts) && |parts| % 2 == 0 && EndOf(parts, |parts|) == i
  }

  lemma ContentCut(s: Bytes, parts: seq<Rng>, i: nat, j: nat)
    requires CutUpTo(s, parts, i) && i <= j <= |s| && NoBreak(s, i, j)
    ensures Alternate(s, parts + [Rng(i, j - i)]) && EndOf(parts + [Rng(i, j - i)], |parts| + 1) == j
  {
    AlternateSnoc(s, parts, Rng(i, j - i));
  }

  lemma BreakCut(s: Bytes, parts: seq<Rng>, j: nat, n: nat)
    requires Alternate(s, parts) && |parts| % 2 == 1 && EndOf(parts, |parts|) == j
    requires j + n <= |s| && IsLine(s, Rng(j, n))
    ensures CutUpTo(s, parts + [Rng(j, n)], j + n)
  {
    AlternateSnoc(s, parts, Rng(j, n));
  }

  /** The next break at or after `i`, or the end of the text. */
  method FindBreak(s: Bytes, i: nat) returns (j: nat)
    requires i <= |s|
    ensures i <= j <= |s| && NoBreak(s, i, j) && (j < |s| ==> BreakAt(s, j))
  {
    j := i;
    while j < |s| && !BreakAt(s, j)
      invariant i <= j <= |s| && NoBreak(s, i, j)
    {
      j := j + 1;
    }
  }

  /** Cut a text into contents and breaks. */
  method SplitParts(s: Bytes) returns (parts: seq<Rng>)
    ensures Alternate(s, parts) && |parts| % 2 == 1 && EndOf(parts, |parts|) == |s|
  {
    parts := [];
    var i := 0;
    while true
      invariant CutUpTo(s, parts, i)
      decreases |s| - i
    {
      var j := FindBreak(s, i);
      ContentCut(s, parts, i, j);
      parts := parts + [Rng(i, j - i)];
      if j >= |s| {
        break;
      }
      var sepLen := if s[j] == LF then 1 else 2;
      BreakCut(s, parts, j, sepLen);
      parts := parts + [Rng(j, sepLen)];
      i := j + sepLen;
    }
  }

  /** After `k` parts: whole lines, and the content still waiting for its break when `k` is odd. */
  ghost predicate Merged(s: Bytes, parts: seq<Rng>, k: nat, toks: seq<Rng>) {
    && k <= |parts| && Contiguous(toks) && |toks| == (k + 1) / 2 && EndOf(toks, |toks|) == EndOf(parts, k)
    && (forall i :: 0 <= i < k / 2 ==> IsLine(s, toks[i]))
    && (k % 2 == 1 ==> toks[|toks| - 1] == parts[k - 1])
  }

  lemma MergeStep(s: Bytes, parts: seq<Rng>, k: nat, toks: seq<Rng>, toks2: seq<Rng>)
    requires Alternate(s, parts) && k < |parts| && Merged(s, parts, k, toks)
    requires if k % 2 == 1 then toks2 == toks[..|toks| - 1]
             + [toks[|toks| - 1].(len := toks[|toks| - 1].len + parts[k].len)]
             else toks2 == toks + [parts[k]]
    ensures Merged(s, parts, k + 1, toks2)
  {
    assert Adjoins(parts, k);
    if k % 2 == 1 {
      ContiguousInit(toks);
      ContiguousSnoc(toks[..|toks| - 1], toks2[|toks2| - 1]);
      assert NoBreak(s, parts[k - 1].off, parts[k - 1].End()) && IsLine(s, parts[k]);
      assert IsLine(s, toks2[|toks2| - 1]);
    } else {
      ContiguousSnoc(toks, parts[k]);
    }
  }

  /** Join every break to the content before it. */
  method MergeParts(s: Bytes, parts: seq<Rng>) returns (toks: seq<Rng>)
    requires Alternate(s, parts)
    ensures Merged(s, parts, |parts|, toks)
  {
    toks := [];
    for k := 0 to |parts|
      invariant Merged(s, parts, k, toks)
    {
      ghost var before := toks;
      if k % 2 == 1 {
        if |toks| > 0 {
          var last := toks[|toks| - 1];
          toks := toks[..|toks| - 1] + [last.(len := last.len + parts[k].len)];
        }
      } else {
        toks := toks + [parts[k]];
      }
      MergeStep(s, parts, k, before, toks);
    }
  }

  method DropEmpty(rs: seq<Rng>) returns (kept: seq<Rng>)
    ensures (forall i :: 0 <= i < |rs| ==> rs[i].len > 0) ==> kept == rs
  {
    kept := [];
    for k := 0 to |rs|
      invariant (forall i :: 0 <= i < k ==> rs[i].len > 0) ==> kept == rs[..k]
    {
      if rs[k].len > 0 {
        kept := kept + [rs[k]];
      }
    }
    assert rs[..|rs|] == rs;
  }

  method TokenizeLines(s: Bytes) returns (toks: seq<Rng>)
    ensures Lines(s, toks)
  {
    var parts := SplitParts(s);
    ghost var all := parts;
    if parts[|parts| - 1].len == 0 {
      parts := parts[..|parts| - 1];
      AlternateInit(s, all);
    }
    toks := MergeParts(s, parts);
    MergedAll(s, parts, toks);
    toks := DropEmpty(toks);
  }

  lemma AlternateInit(s: Bytes, parts: seq<Rng>)
    requires Alternate(s, parts) && parts != []
    ensures Alternate(s, parts[..|parts| - 1]) && EndOf(parts[..|parts| - 1], |parts| - 1) == parts[|parts| - 1].off
  {
    ContiguousInit(parts);
  }

  lemma MergedAll(s: Bytes, parts: seq<Rng>, toks: seq<Rng>)
    requires Alternate(s, parts) && Merged(s, parts, |parts|, toks) && EndOf(parts, |parts|) == |s|
    requires |parts| % 2 == 1 ==> parts[|parts| - 1].len > 0
    ensures Lines(s, toks) && forall i :: 0 <= i < |toks| ==> toks[i].len > 0
  {
  }

  // ---- lines as strings ----

  function Text(s: Bytes, r: Rng): Bytes
    requires r.End() <= |s|
  {
    s[r.off..r.off + r.len]
  }

  /** The bytes of each line. */
  function Values(s: Bytes, toks: seq<Rng>): (r: seq<Bytes>)
    requires forall i :: 0 <= i < |toks| ==> toks[i].End() <= |s|
    ensures |r| == |toks| && forall i :: 0 <= i < |r| ==> r[i] == Text(s, toks[i])
  {
    seq(|toks|, i requires 0 <= i < |toks| => Text(s, toks[i]))
  }

  /** Stretches that follow one another and cover the whole text. */
  ghost predicate Covers(s: Bytes, toks: seq<Rng>) {
    && Contiguous(toks) && EndOf(toks, |toks|) == |s| && forall i :: 0 <= i < |toks| ==> toks[i].End() <= |s|
  }

  lemma {:induction false} EndsGrow(toks: seq<Rng>, i: nat, j: nat)
    requires Contiguous(toks) && i <= j <= |toks|
    ensures EndOf(toks, i) <= EndOf(toks, j)
    decreases j
  {
    if i < j {
      EndsGrow(toks, i, j - 1);
      assert Adjoins(toks, j - 1);
    }
  }

  /** The lines of the text, as one fact to hand on. */
  ghost function Cut(s: Bytes): seq<Rng> -> bool {
    (toks: seq<Rng>) => Lines(s, toks)
  }

  lemma LinesCover(s: Bytes, toks: seq<Rng>)
    requires Lines(s, toks)
    ensures Covers(s, toks)
  {
    forall i | 0 <= i < |toks| ensures toks[i].End() <= |s| {
      EndsGrow(toks, i + 1, |toks|);
    }
  }

  ghost function Concat(ls: seq<Bytes>): Bytes {
    if ls == [] then [] else Concat(ls[..|ls| - 1]) + ls[|ls| - 1]
  }

  lemma ConcatSnoc(ls: seq<Bytes>, i: nat, j: nat)
    requires i <= j < |ls|
    ensures Concat(ls[i..j + 1]) == Concat(ls[i..j]) + ls[j]
  {
    assert ls[i..j + 1][..j - i] == ls[i..j];
  }

  /** Line `j` is the text between its neighbours' ends. */
  lemma LineAt(s: Bytes, toks: seq<Rng>, j: nat)
    requires Covers(s, toks) && j < |toks|
    ensures EndOf(toks, j) <= EndOf(toks, j + 1) <= |s| && Values(s, toks)[j] == s[EndOf(toks, j)..EndOf(toks, j + 1)]
  {
    assert Adjoins(toks, j);
  }

  /** The text between two line ends is its lines joined. */
  lemma {:induction false} Segment(s: Bytes, toks: seq<Rng>, i: nat, j: nat)
    requires Covers(s, toks) && i <= j <= |toks|
    ensures EndOf(toks, i) <= EndOf(toks, j) <= |s|
    ensures s[EndOf(toks, i)..EndOf(toks, j)] == Concat(Values(s, toks)[i..j])
    decreases j - i
  {
    if i == j {
      EndsGrow(toks, j, |toks|);
    } else {
      Segment(s, toks, i, j - 1);
      SegmentSnoc(s, toks, i, j - 1);
    }
  }

  lemma SegmentSnoc(s: Bytes, toks: seq<Rng>, i: nat, j: nat)
    requires Covers(s, toks) && i <= j < |toks| && EndOf(toks, i) <= EndOf(toks, j) <= |s|
    requires s[EndOf(toks, i)..EndOf(toks, j)] == Concat(Values(s, toks)[i..j])
    ensures EndOf(toks, j) <= EndOf(toks, j + 1) <= |s|
    ensures s[EndOf(toks, i)..EndOf(toks, j + 1)] == Concat(Values(s, toks)[i..j + 1])
  {
    LineAt(s, toks, j);
    ConcatSnoc(Values(s, toks), i, j);
    SliceJoin(s, EndOf(toks, i), EndOf(toks, j), EndOf(toks, j + 1));
  }

  lemma SliceJoin<T>(s: seq<T>, p: nat, q: nat, r: nat)
    requires p <= q <= r <= |s|
    ensures s[p..r] == s[p..q] + s[q..r]
  {
  }

  // ---- the number of lines ----

  ghost function Feeds(s: Bytes): nat {
    if s == [] then 0 else Feeds(s[..|s| - 1]) + (if s[|s| - 1] == LF then 1 else 0)
  }

  ghost function LineCount(s: Bytes): nat {
    Feeds(s) + (if s != [] && s[|s| - 1] != LF then 1 else 0)
  }

  lemma {:induction false} FeedsAdd(a: Bytes, b: Bytes)
    ensures Feeds(a + b) == Feeds(a) + Feeds(b)
  {
    if b == [] {
      assert a + b == a;
    } else {
      assert (a + b)[..|a + b| - 1] == a + b[..|b| - 1];
      FeedsAdd(a, b[..|b| - 1]);
    }
  }

  lemma {:induction false} NoFeeds(s: Bytes)
    requires forall q :: 0 <= q < |s| ==> s[q] != LF
    ensures Feeds(s) == 0
  {
    if s != [] {
      NoFeeds(s[..|s| - 1]);
    }
  }

  lemma LineFeeds(s: Bytes, r: Rng)
    requires IsLine(s, r)
    ensures Feeds(s[r.off..r.End()]) == 1
  {
    var line := s[r.off..r.End()];
    var body := line[..|line| - 1];
    NoFeeds(body);
    assert line == body + [LF];
  }

  lemma {:induction false} FeedsBefore(s: Bytes, toks: seq<Rng>, i: nat)
    requires Lines(s, toks) && i < |toks|
    ensures EndOf(toks, i) <= |s| && Feeds(s[..EndOf(toks, i)]) == i
    decreases i
  {
    LinesCover(s, toks);
    EndsGrow(toks, i, |toks|);
    if i > 0 {
      FeedsBefore(s, toks, i - 1);
      assert Adjoins(toks, i - 1);
      LineFeeds(s, toks[i - 1]);
      SliceJoin(s, 0, EndOf(toks, i - 1), EndOf(toks, i));
      FeedsAdd(s[..EndOf(toks, i - 1)], s[EndOf(toks, i - 1)..EndOf(toks, i)]);
      assert s[0..EndOf(toks, i)] == s[..EndOf(toks, i)] && s[0..EndOf(toks, i - 1)] == s[..EndOf(toks, i - 1)];
    }
  }

  /** There is exactly one way to cut a text into its lines, as far as their number goes. */
  lemma LinesCounted(s: Bytes, toks: seq<Rng>)
    requires Lines(s, toks)
    ensures |toks| == LineCount(s)
  {
    if toks != [] {
      var n := |toks| - 1;
      FeedsBefore(s, toks, n);
      assert Adjoins(toks, n);
      var at := EndOf(toks, n);
      assert s == s[..at] + s[at..] && s[at..] == s[toks[n].off..toks[n].End()];
      FeedsAdd(s[..at], s[at..]);
      if IsLine(s, toks[n]) {
        LineFeeds(s, toks[n]);
      } else {
        NoFeeds(s[at..]);
      }
    }
  }

  /** The lines from token `i` up to token `j` are as many lines of their own. */
  lemma LinesBetween(s: Bytes, toks: seq<Rng>, i: nat, j: nat)
    requires Lines(s, toks) && i <= j <= |toks|
    ensures EndOf(toks, i) <= EndOf(toks, j) <= |s| && LineCount(s[EndOf(toks, i)..EndOf(toks, j)]) == j - i
  {
    LinesCover(s, toks);
    EndsGrow(toks, i, j);
    EndsGrow(toks, j, |toks|);
    if i < j {
      FeedsBefore(s, toks, i);
      FeedsSlice(s, EndOf(toks, i), EndOf(toks, j));
      if j < |toks| {
        FeedsBefore(s, toks, j);
        LastFeed(s, toks, j - 1);
      } else {
        LinesCounted(s, toks);
        assert s[..EndOf(toks, j)] == s;
        EndsGrow(toks, i + 1, j);
        assert Adjoins(toks, i);
      }
    }
  }

  lemma FeedsSlice(s: Bytes, p: nat, q: nat)
    requires p <= q <= |s|
    ensures Feeds(s[..q]) == Feeds(s[..p]) + Feeds(s[p..q])
  {
    FeedsAdd(s[..p], s[p..q]);
    assert s[..q] == s[..p] + s[p..q];
  }

  lemma LastFeed(s: Bytes, toks: seq<Rng>, i: nat)
    requires Lines(s, toks) && i + 1 < |toks|
    ensures 0 <= EndOf(toks, i) < EndOf(toks, i + 1) <= |s| && s[EndOf(toks, i + 1) - 1] == LF
  {
    assert Adjoins(toks, i);
  }

  /** A text has only one way to be cut into its lines. */
  lemma {:induction false} SameLine(s: Bytes, t1: seq<Rng>, t2: seq<Rng>, i: nat)
    requires Lines(s, t1) && Lines(s, t2) && i < |t1| && i < |t2|
    ensures t1[i] == t2[i]
    decreases i
  {
    assert Adjoins(t1, i) && Adjoins(t2, i);
    if i > 0 {
      SameLine(s, t1, t2, i - 1);
    }
    LinesCover(s, t1);
    LinesCover(s, t2);
    NotLonger(s, t1, t2, i);
    NotLonger(s, t2, t1, i);
  }

  /** A line that starts with another does not go on after its line feed. */
  lemma NotLonger(s: Bytes, t1: seq<Rng>, t2: seq<Rng>, i: nat)
    requires Lines(s, t1) && Lines(s, t2) && i < |t1| && i < |t2| && t1[i].off == t2[i].off && t2[i].End() <= |s|
    ensures t2[i].len <= t1[i].len
  {
    var e := t1[i].End();
    if IsLine(s, t1[i]) {
      assert s[e - 1] == LF;
    }
  }

  lemma LinesUnique(s: Bytes, t1: seq<Rng>, t2: seq<Rng>)
    requires Lines(s, t1) && Lines(s, t2)
    ensures t1 == t2
  {
    LinesCounted(s, t1);
    LinesCounted(s, t2);
    forall i | 0 <= i < |t1| ensures t1[i] == t2[i] {
      SameLine(s, t1, t2, i);
    }
  }

  // ---- from a script to changes ----

  datatype Piece = Piece(count: nat, kind: Kind)

  datatype Change = Change(kind: Kind, value: Bytes)

  ghost function Flatten(c: Comp): seq<Piece> {
    match c
    case Start => []
    case Comp(n, k, prev) => Flatten(prev) + [Piece(n, k)]
  }

  /** The pieces take line `i` of the old text and line `j` of the new one to the ends of both. */
  ghost predicate Follows(a: seq<Bytes>, b: seq<Bytes>, ps: seq<Piece>, i: nat, j: nat)
    decreases |ps|
  {
    && i <= |a| && j <= |b|
    && if ps == [] then i == |a| && j == |b|
       else
         var n := ps[0].count;
         match ps[0].kind
         case Keep => i + n <= |a| && j + n <= |b| && a[i..i + n] == b[j..j + n] && Follows(a, b, ps[1..], i + n, j + n)
         case Added => Follows(a, b, ps[1..], i, j + n)
         case Removed => Follows(a, b, ps[1..], i + n, j)
  }

  lemma {:induction false} ScriptFollows(a: seq<Bytes>, b: seq<Bytes>, c: Comp, i: nat, j: nat, rest: seq<Piece>)
    requires Script(a, b, c, i, j) && Follows(a, b, rest, i, j)
    ensures Follows(a, b, Flatten(c) + rest, 0, 0)
    decreases c
  {
    match c
    case Start =>
      assert Flatten(c) + rest == rest;
    case Comp(n, k, prev) =>
      var r := [Piece(n, k)] + rest;
      assert r[1..] == rest && Flatten(c) + rest == Flatten(prev) + r;
      if k == Keep {
        ScriptFollows(a, b, prev, i - n, j - n, r);
      } else if k == Added {
        ScriptFollows(a, b, prev, i, j - n, r);
      } else {
        ScriptFollows(a, b, prev, i - n, j, r);
      }
  }

  /** The old text: what was kept and what was removed. */
  ghost function OldText(cs: seq<Change>): Bytes {
    if cs == [] then []
    else OldText(cs[..|cs| - 1]) + (if cs[|cs| - 1].kind == Added then [] else cs[|cs| - 1].value)
  }

  /** The new text: what was kept and what was added. */
  ghost function NewText(cs: seq<Change>): Bytes {
    if cs == [] then []
    else NewText(cs[..|cs| - 1]) + (if cs[|cs| - 1].kind == Removed then [] else cs[|cs| - 1].value)
  }

  lemma TextSnoc(cs: seq<Change>, c: Change)
    ensures OldText(cs + [c]) == OldText(cs) + (if c.kind == Added then [] else c.value)
    ensures NewText(cs + [c]) == NewText(cs) + (if c.kind == Removed then [] else c.value)
  {
    assert (cs + [c])[..|cs|] == cs;
  }

  /** The change shows the piece: its kind, and as many lines as it counts. */
  ghost predicate Shows(c: Change, p: Piece) {
    c.kind == p.kind && LineCount(c.value) == p.count
  }

  /** One change for each piece, in order. */
  ghost predicate ShowAll(cs: seq<Change>, ps: seq<Piece>) {
    |cs| == |ps| && forall k :: 0 <= k < |cs| ==> Shows(cs[k], ps[k])
  }

  /** How many lines are added and removed. */
  ghost function ChangedLines(cs: seq<Change>): nat {
    if cs == [] then 0
    else ChangedLines(cs[..|cs| - 1]) + (if cs[|cs| - 1].kind == Keep then 0 else LineCount(cs[|cs| - 1].value))
  }

  lemma {:induction false} ChangedIsEdits(cs: seq<Change>, c: Comp)
    requires ShowAll(cs, Flatten(c))
    ensures ChangedLines(cs) == Edits(c)
    decreases c
  {
    if c.Comp? {
      assert Flatten(c)[..|cs| - 1] == Flatten(c.prev);
      assert Shows(cs[|cs| - 1], Flatten(c)[|cs| - 1]);
      ChangedIsEdits(cs[..|cs| - 1], c.prev);
    }
  }

  /** A script without edits and without empty components only keeps. */
  lemma {:induction false} OnlyKeeps(c: Comp, k: nat)
    requires Solid(c) && Edits(c) == 0 && k < |Flatten(c)|
    ensures Flatten(c)[k].kind == Keep
    decreases c
  {
    if k < |Flatten(c)| - 1 {
      OnlyKeeps(c.prev, k);
    }
  }

  /** Between equal texts nothing is changed. */
  lemma EqualKept<T>(a: seq<T>, c: Comp)
    requires Least(a, a, c)
    ensures Edits(c) == 0
  {
    var same := Comp(|a|, Keep, Start);
    assert Script(a, a, same, |a|, |a|);
    assert Edits(same) == 0;
  }

  /** Old line `i` and new line `j` have been reached, and the changes so far spell both texts up to there. */
  ghost predicate Spelled(sa: Bytes, ta: seq<Rng>, sb: Bytes, tb: seq<Rng>, cs: seq<Change>, i: nat, j: nat) {
    && i <= |ta| && j <= |tb| && EndOf(ta, i) <= |sa| && EndOf(tb, j) <= |sb|
    && OldText(cs) == sa[..EndOf(ta, i)] && NewText(cs) == sb[..EndOf(tb, j)]
  }

  lemma PrefixGrows(s: Bytes, toks: seq<Rng>, i: nat, n: nat)
    requires Covers(s, toks) && i + n <= |toks|
    ensures EndOf(toks, i) <= EndOf(toks, i + n) <= |s|
    ensures s[..EndOf(toks, i + n)] == s[..EndOf(toks, i)] + s[EndOf(toks, i)..EndOf(toks, i + n)]
    ensures s[EndOf(toks, i)..EndOf(toks, i + n)] == Concat(Values(s, toks)[i..i + n])
  {
    Segment(s, toks, i, i + n);
    EndsGrow(toks, i + n, |toks|);
    PrefixJoin(s, EndOf(toks, i), EndOf(toks, i + n));
  }

  lemma PrefixJoin<T>(s: seq<T>, p: nat, q: nat)
    requires p <= q <= |s|
    ensures s[..q] == s[..p] + s[p..q]
  {
  }

  /** The text of `n` lines from line `i` on. */
  method ValueOf(s: Bytes, toks: seq<Rng>, i: nat, n: nat) returns (v: Bytes)
    requires Cut(s)(toks) && Covers(s, toks) && i + n <= |toks|
    ensures EndOf(toks, i) <= EndOf(toks, i + n) <= |s| && v == s[EndOf(toks, i)..EndOf(toks, i + n)]
    ensures LineCount(v) == n
  {
    LinesBetween(s, toks, i, i + n);
    EndsGrow(toks, i, i + n);
    EndsGrow(toks, i + n, |toks|);
    if n > 0 {
      assert Adjoins(toks, i);
      v := s[toks[i].off..toks[i + n - 1].End()];
    } else {
      v := [];
    }
  }

  lemma SpelledKeep(sa: Bytes, ta: seq<Rng>, sb: Bytes, tb: seq<Rng>, cs: seq<Change>, i: nat, j: nat, n: nat, v: Bytes)
    requires Covers(sa, ta) && Covers(sb, tb) && Spelled(sa, ta, sb, tb, cs, i, j) && i + n <= |ta| && j + n <= |tb|
    requires Values(sa, ta)[i..i + n] == Values(sb, tb)[j..j + n]
    requires EndOf(tb, j) <= EndOf(tb, j + n) <= |sb| && v == sb[EndOf(tb, j)..EndOf(tb, j + n)]
    ensures Spelled(sa, ta, sb, tb, cs + [Change(Keep, v)], i + n, j + n)
  {
    PrefixGrows(sa, ta, i, n);
    PrefixGrows(sb, tb, j, n);
    TextSnoc(cs, Change(Keep, v));
  }

  lemma SpelledAdd(sa: Bytes, ta: seq<Rng>, sb: Bytes, tb: seq<Rng>, cs: seq<Change>, i: nat, j: nat, n: nat, v: Bytes)
    requires Covers(sb, tb) && Spelled(sa, ta, sb, tb, cs, i, j) && j + n <= |tb|
    requires EndOf(tb, j) <= EndOf(tb, j + n) <= |sb| && v == sb[EndOf(tb, j)..EndOf(tb, j + n)]
    ensures Spelled(sa, ta, sb, tb, cs + [Change(Added, v)], i, j + n)
  {
    PrefixGrows(sb, tb, j, n);
    TextSnoc(cs, Change(Added, v));
  }

  lemma SpelledRemove(sa: Bytes, ta: seq<Rng>, sb: Bytes, tb: seq<Rng>, cs: seq<Change>, i: nat, j: nat, n: nat,
                      v: Bytes)
    requires Covers(sa, ta) && Spelled(sa, ta, sb, tb, cs, i, j) && i + n <= |ta|
    requires EndOf(ta, i) <= EndOf(ta, i + n) <= |sa| && v == sa[EndOf(ta, i)..EndOf(ta, i + n)]
    ensures Spelled(sa, ta, sb, tb, cs + [Change(Removed, v)], i + n, j)
  {
    PrefixGrows(sa, ta, i, n);
    TextSnoc(cs, Change(Removed, v));
  }

  /** A piece kept or added spells out its part of the new text, and of the old one if it is kept. */
  lemma NewSpelled(sa: Bytes, ta: seq<Rng>, sb: Bytes, tb: seq<Rng>, cs: seq<Change>, i: nat, j: nat, p: Piece,
                   v: Bytes)
    requires Covers(sa, ta) && Covers(sb, tb) && Spelled(sa, ta, sb, tb, cs, i, j)
    requires p.kind != Removed && j + p.count <= |tb| && (p.kind == Keep ==> i + p.count <= |ta|)
    requires p.kind == Keep ==> Values(sa, ta)[i..i + p.count] == Values(sb, tb)[j..j + p.count]
    requires EndOf(tb, j) <= EndOf(tb, j + p.count) <= |sb| && v == sb[EndOf(tb, j)..EndOf(tb, j + p.count)]
    ensures Spelled(sa, ta, sb, tb, cs + [Change(p.kind, v)], if p.kind == Keep then i + p.count else i, j + p.count)
  {
    if p.kind == Keep {
      SpelledKeep(sa, ta, sb, tb, cs, i, j, p.count, v);
    } else {
      SpelledAdd(sa, ta, sb, tb, cs, i, j, p.count, v);
    }
  }

  /** The change that one piece of the script stands for, at old line `i` and new line `j`. */
  method BuildChange(sa: Bytes, ta: seq<Rng>, sb: Bytes, tb: seq<Rng>, p: Piece, i: nat, j: nat, ghost cs: seq<Change>)
    returns (c: Change, i2: nat, j2: nat)
    requires Cut(sa)(ta) && Cut(sb)(tb) && Covers(sa, ta) && Covers(sb, tb) && Spelled(sa, ta, sb, tb, cs, i, j)
    requires p.kind != Added ==> i + p.count <= |ta|
    requires p.kind != Removed ==> j + p.count <= |tb|
    requires p.kind == Keep ==> Values(sa, ta)[i..i + p.count] == Values(sb, tb)[j..j + p.count]
    ensures i2 == (if p.kind == Added then i else i + p.count) && j2 == (if p.kind == Removed then j else j + p.count)
    ensures Spelled(sa, ta, sb, tb, cs + [c], i2, j2) && Shows(c, p)
  {
    i2, j2 := i, j;
    if p.kind != Removed {
      var v := ValueOf(sb, tb, j, p.count);
      c := Change(p.kind, v);
      NewSpelled(sa, ta, sb, tb, cs, i, j, p, v);
      if p.kind == Keep {
        i2 := i + p.count;
      }
      j2 := j + p.count;
    } else {
      var v := ValueOf(sa, ta, i, p.count);
      c := Change(Removed, v);
      SpelledRemove(sa, ta, sb, tb, cs, i, j, p.count, v);
      i2 := i + p.count;
    }
  }

  lemma FollowsStep(a: seq<Bytes>, b: seq<Bytes>, ps: seq<Piece>, k: nat, i: nat, j: nat)
    requires k < |ps| && Follows(a, b, ps[k..], i, j)
    ensures var n := ps[k].count;
            && (ps[k].kind != Added ==> i + n <= |a|) && (ps[k].kind != Removed ==> j + n <= |b|)
            && (ps[k].kind == Keep ==> a[i..i + n] == b[j..j + n])
            && Follows(a, b, ps[k + 1..], if ps[k].kind == Added then i else i + n,
               if ps[k].kind == Removed then j else j + n)
  {
    assert ps[k..][0] == ps[k] && ps[k..][1..] == ps[k + 1..];
  }

  /** The pieces still to come lead from line `i` and line `j` on; those before spell out both texts up to there. */
  ghost predicate Underway(sa: Bytes, ta: seq<Rng>, sb: Bytes, tb: seq<Rng>, toCome: seq<Piece>, cs: seq<Change>,
                           i: nat, j: nat)
  {
    && Cut(sa)(ta) && Cut(sb)(tb) && Covers(sa, ta) && Covers(sb, tb)
    && Follows(Values(sa, ta), Values(sb, tb), toCome, i, j) && Spelled(sa, ta, sb, tb, cs, i, j)
  }

  /** The same, as one fact to hand on. */
  ghost function Way(sa: Bytes, ta: seq<Rng>, sb: Bytes, tb: seq<Rng>): (seq<Piece>, seq<Change>, nat, nat) -> bool {
    (toCome: seq<Piece>, cs: seq<Change>, i: nat, j: nat) => Underway(sa, ta, sb, tb, toCome, cs, i, j)
  }

  /** The next piece fits both texts. */
  lemma PieceFits(sa: Bytes, ta: seq<Rng>, sb: Bytes, tb: seq<Rng>, pieces: seq<Piece>, k: nat, cs: seq<Change>,
                  i: nat, j: nat)
    requires k < |pieces| && Way(sa, ta, sb, tb)(pieces[k..], cs, i, j)
    ensures Cut(sa)(ta) && Cut(sb)(tb) && Covers(sa, ta) && Covers(sb, tb) && Spelled(sa, ta, sb, tb, cs, i, j)
    ensures var p := pieces[k];
            && (p.kind != Added ==> i + p.count <= |ta|) && (p.kind != Removed ==> j + p.count <= |tb|)
            && (p.kind == Keep ==> Values(sa, ta)[i..i + p.count] == Values(sb, tb)[j..j + p.count])
  {
    FollowsStep(Values(sa, ta), Values(sb, tb), pieces, k, i, j);
  }

  /** Behind a spelled-out piece the others lead on. */
  lemma LeadsOn(sa: Bytes, ta: seq<Rng>, sb: Bytes, tb: seq<Rng>, pieces: seq<Piece>, k: nat, cs: seq<Change>,
                i: nat, j: nat, c: Change, i2: nat, j2: nat)
    requires k < |pieces| && Way(sa, ta, sb, tb)(pieces[k..], cs, i, j)
    requires i2 == if pieces[k].kind == Added then i else i + pieces[k].count
    requires j2 == if pieces[k].kind == Removed then j else j + pieces[k].count
    requires Spelled(sa, ta, sb, tb, cs + [c], i2, j2)
    ensures Way(sa, ta, sb, tb)(pieces[k + 1..], cs + [c], i2, j2)
  {
    FollowsStep(Values(sa, ta), Values(sb, tb), pieces, k, i, j);
  }

  /** Give piece `k` its text. */
  method NextChange(sa: Bytes, ta: seq<Rng>, sb: Bytes, tb: seq<Rng>, pieces: seq<Piece>, k: nat, i: nat, j: nat,
                    ghost cs: seq<Change>) returns (c: Change, i2: nat, j2: nat)
    requires k < |pieces| && Way(sa, ta, sb, tb)(pieces[k..], cs, i, j)
    ensures Way(sa, ta, sb, tb)(pieces[k + 1..], cs + [c], i2, j2) && Shows(c, pieces[k])
  {
    PieceFits(sa, ta, sb, tb, pieces, k, cs, i, j);
    c, i2, j2 := BuildChange(sa, ta, sb, tb, pieces[k], i, j, cs);
    LeadsOn(sa, ta, sb, tb, pieces, k, cs, i, j, c, i2, j2);
  }

  /** Give every piece its text, in order. */
  method ChangesOf(sa: Bytes, ta: seq<Rng>, sb: Bytes, tb: seq<Rng>, pieces: seq<Piece>) returns (cs: seq<Change>)
    requires Lines(sa, ta) && Lines(sb, tb) && Covers(sa, ta) && Covers(sb, tb)
    requires Follows(Values(sa, ta), Values(sb, tb), pieces, 0, 0)
    ensures Spelled(sa, ta, sb, tb, cs, |ta|, |tb|) && ShowAll(cs, pieces)
  {
    cs := [];
    var oldPos: nat, newPos: nat := 0, 0;
    assert pieces[0..] == pieces;
    for k := 0 to |pieces|
      invariant Way(sa, ta, sb, tb)(pieces[k..], cs, oldPos, newPos) && ShowAll(cs, pieces[..k])
    {
      var c;
      c, oldPos, newPos := NextChange(sa, ta, sb, tb, pieces, k, oldPos, newPos, cs);
      cs := cs + [c];
    }
  }

  /** Turn the script around and give every component its text. */
  method BuildValues(sa: Bytes, ta: seq<Rng>, sb: Bytes, tb: seq<Rng>, last: Comp) returns (cs: seq<Change>)
    requires Lines(sa, ta) && Lines(sb, tb) && Covers(sa, ta) && Covers(sb, tb)
    requires Script(Values(sa, ta), Values(sb, tb), last, |ta|, |tb|)
    ensures OldText(cs) == sa && NewText(cs) == sb && ShowAll(cs, Flatten(last))
  {
    var pieces := Reverse(last);
    assert pieces + [] == pieces;
    ScriptFollows(Values(sa, ta), Values(sb, tb), last, |ta|, |tb|, []);
    cs := ChangesOf(sa, ta, sb, tb, pieces);
    assert sa[..|sa|] == sa && sb[..|sb|] == sb;
  }

  /** The linked list as an array in order: count its components, then fill from the back. */
  method Reverse(last: Comp) returns (pieces: seq<Piece>)
    ensures pieces == Flatten(last)
  {
    var cnt, c := 0, last;
    while c.Comp?
      invariant cnt + |Flatten(c)| == |Flatten(last)|
      decreases c
    {
      cnt, c := cnt + 1, c.prev;
    }
    var arr := new Piece[cnt](_ => Piece(0, Keep));
    var idx := cnt;
    c := last;
    while c.Comp?
      invariant 0 <= idx == |Flatten(c)| <= arr.Length && Flatten(c) + arr[idx..] == Flatten(last)
      decreases c
    {
      idx := idx - 1;
      arr[idx] := Piece(c.count, c.kind);
      assert arr[idx..] == [Piece(c.count, c.kind)] + arr[idx + 1..];
      c := c.prev;
    }
    pieces := arr[..];
    assert arr[idx..] == arr[..];
  }

  /**
   * The diff of two texts.  It cannot fail, and it spells both of them: the kept and removed parts
   * the old one, the kept and added parts the new one.  It adds and removes as few lines as any
   * edit script between the lines of the two texts, and nothing if they are the same.
   */
  method DiffLines(sa: Bytes, sb: Bytes) returns (ok: bool, cs: seq<Change>, ghost la: seq<Rng>, ghost lb: seq<Rng>)
    requires LineCount(sa) + LineCount(sb) <= FAR
    ensures ok && OldText(cs) == sa && NewText(cs) == sb
    ensures Lines(sa, la) && Lines(sb, lb) && Covers(sa, la) && Covers(sb, lb)
    ensures NoneBelow(Values(sa, la), Values(sb, lb), ChangedLines(cs))
    ensures sa == sb ==> forall k :: 0 <= k < |cs| ==> cs[k].kind == Keep
  {
    var ta := TokenizeLines(sa);
    var tb := TokenizeLines(sb);
    la, lb := ta, tb;
    LinesCover(sa, ta);
    LinesCover(sb, tb);
    LinesCounted(sa, ta);
    LinesCounted(sb, tb);
    var found, script := FindScript(Values(sa, ta), Values(sb, tb));
    if !found {
      return false, [], la, lb;
    }
    cs := BuildValues(sa, ta, sb, tb, script);
    ok := true;
    ChangedIsEdits(cs, script);
    if sa == sb {
      LinesUnique(sa, ta, tb);
      EqualKept(Values(sa, ta), script);
      forall k | 0 <= k < |cs| ensures cs[k].kind == Keep {
        assert Shows(cs[k], Flatten(script)[k]);
        OnlyKeeps(script, k);
      }
    }
  }
}
