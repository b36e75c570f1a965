// The greedy edit-script search: furthest paths per diagonal, edit length by edit length, with the
// diagonals beyond a path that has reached an edge of the grid no longer considered.
module MyersDiff {

  datatype Kind = Keep | Added | Removed

  /** An edit script, last component first, as the shared linked list that paths extend. */
  datatype Comp = Start | Comp(count: nat, kind: Kind, prev: Comp)

  /** The furthest path found on one diagonal; `oldPos` is the last old token it has passed. */
  datatype PathNode = PathNode(oldPos: int, last: Comp, present: bool)

  const FAR: int := 1_000_000_000

  /** The script takes the first `i` tokens of `a` to the first `j` of `b`, and keeps only equal tokens. */
  ghost predicate Script<T>(a: seq<T>, b: seq<T>, c: Comp, i: int, j: int) {
    && 0 <= i <= |a| && 0 <= j <= |b|
    && match c
       case Start => i == 0 && j == 0
       case Comp(n, Keep, prev) => n <= i && n <= j && a[i - n..i] == b[j - n..j] && Script(a, b, prev, i - n, j - n)
       case Comp(n, Added, prev) => n <= j && Script(a, b, prev, i, j - n)
       case Comp(n, Removed, prev) => n <= i && Script(a, b, prev, i - n, j)
  }

  /** How many tokens the script adds and removes. */
  ghost function Edits(c: Comp): nat {
    match c
    case Start => 0
    case Comp(n, kind, prev) => Edits(prev) + if kind == Keep then 0 else n
  }

  /** No component is empty. */
  ghost predicate Solid(c: Comp) {
    c.Comp? ==> c.count > 0 && Solid(c.prev)
  }

  /** No script between the same texts has fewer edits. */
  ghost predicate Least<T>(a: seq<T>, b: seq<T>, c: Comp) {
    Script(a, b, c, |a|, |b|) && NoneBelow(a, b, Edits(c))
  }

  /** Every script for the whole texts has at least `e` edits. */
  ghost predicate NoneBelow<T>(a: seq<T>, b: seq<T>, e: nat) {
    forall c :: Script(a, b, c, |a|, |b|) ==> e <= Edits(c)
  }

  /** A script for the whole texts with `e` edits. */
  ghost predicate Whole<T>(a: seq<T>, b: seq<T>, c: Comp, e: int) {
    Script(a, b, c, |a|, |b|) && Edits(c) == e && Solid(c)
  }

  /** A path on diagonal `d`: a script with `e` edits within the grid. */
  ghost predicate OnPath<T>(a: seq<T>, b: seq<T>, n: PathNode, d: int, e: int) {
    && n.present && Script(a, b, n.last, n.oldPos + 1, n.oldPos - d + 1)
    && Edits(n.last) == e && Solid(n.last)
  }

  /** Every edit passes a token, and changes the diagonal by one. */
  lemma {:induction false} EditsMove<T>(a: seq<T>, b: seq<T>, c: Comp, i: int, j: int)
    requires Script(a, b, c, i, j)
    ensures i + j >= Edits(c) && i - j <= Edits(c) && j - i <= Edits(c) && (i - j - Edits(c)) % 2 == 0
    decreases c
  {
    match c
    case Start =>
    case Comp(n, Keep, prev) => EditsMove(a, b, prev, i - n, j - n);
    case Comp(n, Added, prev) => EditsMove(a, b, prev, i, j - n);
    case Comp(n, Removed, prev) => EditsMove(a, b, prev, i - n, j);
  }

  /** No script with as many edits comes further on the diagonal. */
  ghost predicate Furthest<T>(a: seq<T>, b: seq<T>, n: PathNode, d: int, e: int) {
    forall c, i, j :: Script(a, b, c, i, j) && Edits(c) == e && i - j == d ==> i <= n.oldPos + 1
  }

  /** The path has passed all `nb` new tokens. */
  predicate AtBottom(nb: nat, n: PathNode, d: int) {
    n.oldPos - d + 1 >= nb
  }

  /** The path has passed all `na` old tokens. */
  predicate AtRight(na: nat, n: PathNode) {
    n.oldPos + 1 >= na
  }

  /** A furthest path that has not yet reached the end of both texts. */
  ghost predicate Open<T>(a: seq<T>, b: seq<T>, n: PathNode, d: int, e: int) {
    OnPath(a, b, n, d, e) && Furthest(a, b, n, d, e) && !(AtRight(|a|, n) && AtBottom(|b|, n, d))
  }

  /** The path cannot follow its diagonal any further. */
  predicate Stuck<T(==)>(a: seq<T>, b: seq<T>, n: PathNode, d: int) {
    var i, j := n.oldPos + 1, n.oldPos - d + 1;
    !(0 <= i < |a| && 0 <= j < |b| && a[i] == b[j])
  }

  // ---- the last edit of a script ----

  /** The tokens from `i0` and `j0` on up to `i` and `j` are equal. */
  ghost predicate Snake<T>(a: seq<T>, b: seq<T>, i0: int, j0: int, i: int, j: int) {
    && 0 <= i0 <= i <= |a| && 0 <= j0 <= j <= |b| && i - j == i0 - j0
    && forall k :: i0 <= k < i ==> a[k] == b[k - i0 + j0]
  }

  lemma SnakeOn<T>(a: seq<T>, b: seq<T>, i0: int, j0: int, i: int, j: int, n: nat)
    requires Snake(a, b, i0, j0, i, j) && i + n <= |a| && j + n <= |b| && a[i..i + n] == b[j..j + n]
    ensures Snake(a, b, i0, j0, i + n, j + n)
  {
    forall k | i <= k < i + n ensures a[k] == b[k - i + j] {
      assert a[k] == a[i..i + n][k - i] && b[k - i + j] == b[j..j + n][k - i];
    }
  }

  /** A script with one edit fewer, an edit, and equal tokens up to `i` and `j`. */
  ghost predicate LastEdit<T>(a: seq<T>, b: seq<T>, e: int, c0: Comp, i0: int, j0: int, i: int, j: int) {
    && Script(a, b, c0, i0, j0) && Edits(c0) == e
    && ((i0 < |a| && Snake(a, b, i0 + 1, j0, i, j)) || (j0 < |b| && Snake(a, b, i0, j0 + 1, i, j)))
  }

  lemma LastEditOn<T>(a: seq<T>, b: seq<T>, e: int, c0: Comp, i0: int, j0: int, i: int, j: int, n: nat)
    requires LastEdit(a, b, e, c0, i0, j0, i, j)
    requires i + n <= |a| && j + n <= |b| && a[i..i + n] == b[j..j + n]
    ensures LastEdit(a, b, e, c0, i0, j0, i + n, j + n)
  {
    if i0 < |a| && Snake(a, b, i0 + 1, j0, i, j) {
      SnakeOn(a, b, i0 + 1, j0, i, j, n);
    } else {
      SnakeOn(a, b, i0, j0 + 1, i, j, n);
    }
  }

  lemma AddedLast<T>(a: seq<T>, b: seq<T>, n: nat, prev: Comp, i: int, j: int)
    requires n > 0 && Script(a, b, Comp(n, Added, prev), i, j)
    ensures LastEdit(a, b, Edits(prev) + n - 1, Comp(n - 1, Added, prev), i, j - 1, i, j)
  {
  }

  lemma RemovedLast<T>(a: seq<T>, b: seq<T>, n: nat, prev: Comp, i: int, j: int)
    requires n > 0 && Script(a, b, Comp(n, Removed, prev), i, j)
    ensures LastEdit(a, b, Edits(prev) + n - 1, Comp(n - 1, Removed, prev), i - 1, j, i, j)
  {
  }

  lemma {:induction false} HasLastEdit<T>(a: seq<T>, b: seq<T>, c: Comp, i: int, j: int)
    returns (c0: Comp, i0: int, j0: int)
    requires Script(a, b, c, i, j) && Edits(c) > 0
    ensures LastEdit(a, b, Edits(c) - 1, c0, i0, j0, i, j)
    decreases c
  {
    match c
    case Comp(n, Keep, prev) =>
      c0, i0, j0 := HasLastEdit(a, b, prev, i - n, j - n);
      LastEditOn(a, b, Edits(c) - 1, c0, i0, j0, i - n, j - n, n);
    case Comp(n, Added, prev) =>
      if n == 0 {
        c0, i0, j0 := HasLastEdit(a, b, prev, i, j);
      } else {
        c0, i0, j0 := Comp(n - 1, Added, prev), i, j - 1;
        AddedLast(a, b, n, prev, i, j);
      }
    case Comp(n, Removed, prev) =>
      if n == 0 {
        c0, i0, j0 := HasLastEdit(a, b, prev, i, j);
      } else {
        c0, i0, j0 := Comp(n - 1, Removed, prev), i - 1, j;
        RemovedLast(a, b, n, prev, i, j);
      }
  }

  /** A script without edits is a snake from the start. */
  lemma {:induction false} NoEdits<T>(a: seq<T>, b: seq<T>, c: Comp, i: int, j: int)
    requires Script(a, b, c, i, j) && Edits(c) == 0
    ensures Snake(a, b, 0, 0, i, j)
    decreases c
  {
    match c
    case Start =>
    case Comp(n, kind, prev) =>
      if kind == Keep {
        NoEdits(a, b, prev, i - n, j - n);
        SnakeOn(a, b, 0, 0, i - n, j - n, n);
      } else {
        NoEdits(a, b, prev, i, j);
      }
  }

  /** A path that has followed its diagonal to the end from `s` on is past every snake that starts before `s`. */
  lemma SnakePassed<T>(a: seq<T>, b: seq<T>, n: PathNode, d: int, s: int, i0: int, i: int, j: int)
    requires Snake(a, b, i0, i0 - d, i, j) && i0 <= s <= n.oldPos + 1 && Stuck(a, b, n, d)
    ensures i <= n.oldPos + 1
  {
  }

  // ---- one diagonal ----

  lemma KeptOnPath<T>(a: seq<T>, b: seq<T>, path: PathNode, d: int, e: int, n: nat, last: Comp)
    requires OnPath(a, b, path, d, e) && path.oldPos + 1 + n <= |a| && path.oldPos - d + 1 + n <= |b|
    requires var i, j := path.oldPos + 1, path.oldPos - d + 1; a[i..i + n] == b[j..j + n]
    requires last == if n > 0 then Comp(n, Keep, path.last) else path.last
    ensures OnPath(a, b, PathNode(path.oldPos + n, last, true), d, e)
  {
  }

  /** Follow the diagonal over equal tokens. */
  method ExtractCommon<T(==)>(a: seq<T>, b: seq<T>, path: PathNode, diagonal: int, ghost e: int)
    returns (n: PathNode, newPos: int)
    requires OnPath(a, b, path, diagonal, e)
    ensures OnPath(a, b, n, diagonal, e) && newPos == n.oldPos - diagonal && n.oldPos >= path.oldPos
    ensures Stuck(a, b, n, diagonal)
  {
    var oldPos := path.oldPos;
    newPos := oldPos - diagonal;
    var commonCount := 0;
    ghost var i, j := oldPos + 1, newPos + 1;
    while newPos + 1 < |b| && oldPos + 1 < |a| && a[oldPos + 1] == b[newPos + 1]
      invariant 0 <= commonCount && oldPos + 1 == i + commonCount <= |a| && newPos + 1 == j + commonCount <= |b|
      invariant a[i..i + commonCount] == b[j..j + commonCount]
      decreases |a| - oldPos
    {
      assert a[i..i + commonCount + 1] == a[i..i + commonCount] + [a[oldPos + 1]];
      assert b[j..j + commonCount + 1] == b[j..j + commonCount] + [b[newPos + 1]];
      newPos, oldPos, commonCount := newPos + 1, oldPos + 1, commonCount + 1;
    }
    n := path.(oldPos := oldPos);
    if commonCount > 0 {
      n := n.(last := Comp(commonCount, Keep, path.last));
    }
    KeptOnPath(a, b, path, diagonal, e, commonCount, n.last);
  }

  /** One more edit of the given kind; a run of one kind stays one component. */
  function AddToPath(base: PathNode, kind: Kind, oldPosInc: int): PathNode {
    var last := if base.last.Comp? && base.last.kind == kind then Comp(base.last.count + 1, kind, base.last.prev)
                else Comp(1, kind, base.last);
    PathNode(base.oldPos + oldPosInc, last, true)
  }

  lemma AddedOnPath<T>(a: seq<T>, b: seq<T>, base: PathNode, d: int, e: int)
    requires OnPath(a, b, base, d + 1, e) && base.oldPos - d < |b|
    ensures OnPath(a, b, AddToPath(base, Added, 0), d, e + 1)
  {
  }

  lemma RemovedOnPath<T>(a: seq<T>, b: seq<T>, base: PathNode, d: int, e: int)
    requires OnPath(a, b, base, d - 1, e) && base.oldPos + 1 < |a|
    ensures OnPath(a, b, AddToPath(base, Removed, 1), d, e + 1)
  {
  }

  /** The furthest paths on the neighbours, where there are any scripts at all, and neither of them at its edge. */
  ghost predicate Reaching<T>(a: seq<T>, b: seq<T>, rp: PathNode, ap: PathNode, d: int, e: int) {
    && (if rp.present then Furthest(a, b, rp, d - 1, e) && !AtRight(|a|, rp) else d - 1 < -e)
    && (if ap.present then Furthest(a, b, ap, d + 1, e) && !AtBottom(|b|, ap, d + 1) else d + 1 > e)
  }

  /** Every script with one more edit comes from one of the neighbours, and so not further than the new path. */
  lemma NoneFurther<T>(a: seq<T>, b: seq<T>, rp: PathNode, ap: PathNode, n: PathNode, d: int, e: nat)
    requires Reaching(a, b, rp, ap, d, e) && Stuck(a, b, n, d)
    requires (rp.present ==> rp.oldPos + 2 <= n.oldPos + 1) && (ap.present ==> ap.oldPos + 1 <= n.oldPos + 1)
    ensures Furthest(a, b, n, d, e + 1)
  {
    forall c, i, j | Script(a, b, c, i, j) && Edits(c) == e + 1 && i - j == d ensures i <= n.oldPos + 1 {
      var c0, i0, j0 := HasLastEdit(a, b, c, i, j);
      EditsMove(a, b, c0, i0, j0);
      if i0 < |a| && Snake(a, b, i0 + 1, j0, i, j) {
        assert i0 <= rp.oldPos + 1;
        SnakePassed(a, b, n, d, rp.oldPos + 2, i0 + 1, i, j);
      } else {
        assert i0 <= ap.oldPos + 1;
        SnakePassed(a, b, n, d, ap.oldPos + 1, i0, i, j);
      }
    }
  }

  /**
   * The furthest path on diagonal `d` with one more edit, from its neighbours below and above.
   * There is one unless both neighbours are missing or stuck at their edge, and a neighbour at
   * an edge hands the edge on.
   */
  method Extend<T(==)>(a: seq<T>, b: seq<T>, rp: PathNode, ap: PathNode, d: int, ghost e: int)
    returns (ok: bool, n: PathNode, newPos: int)
    requires 0 <= e && (rp.present ==> Open(a, b, rp, d - 1, e)) && (ap.present ==> Open(a, b, ap, d + 1, e))
    ensures ok <==> (rp.present && !AtRight(|a|, rp)) || (ap.present && !AtBottom(|b|, ap, d + 1))
    ensures ok ==> OnPath(a, b, n, d, e + 1) && newPos == n.oldPos - d
    ensures ok && Reaching(a, b, rp, ap, d, e) ==> Furthest(a, b, n, d, e + 1)
    ensures ok && rp.present && AtBottom(|b|, rp, d - 1) ==> AtBottom(|b|, n, d)
    ensures ok && ap.present && AtRight(|a|, ap) ==> AtRight(|a|, n)
  {
    var canAdd := false;
    if ap.present {
      var addPathNewPos := ap.oldPos - d;
      canAdd := 0 <= addPathNewPos < |b|;
    }
    var canRemove := rp.present && rp.oldPos + 1 < |a|;
    if !canAdd && !canRemove {
      return false, rp, 0;
    }
    var basePath;
    if !canRemove || (canAdd && rp.oldPos < ap.oldPos) {
      basePath := AddToPath(ap, Added, 0);
      AddedOnPath(a, b, ap, d, e);
    } else {
      basePath := AddToPath(rp, Removed, 1);
      RemovedOnPath(a, b, rp, d, e);
    }
    n, newPos := ExtractCommon(a, b, basePath, d, e + 1);
    ok := true;
    if Reaching(a, b, rp, ap, d, e) {
      NoneFurther(a, b, rp, ap, n, d, e);
    }
  }

  // ---- the rows of the search ----

  /** What is known of the path on a diagonal after an edit length. */
  type Known = (PathNode, int, int) -> bool

  ghost function OpenPaths<T>(a: seq<T>, b: seq<T>): Known {
    (n: PathNode, d: int, e: int) => Open(a, b, n, d, e)
  }

  ghost predicate InRow(i: int, off: int, lo: int, hi: int, p: int) {
    off + lo <= i <= off + hi && (i - off - p) % 2 == 0
  }

  /** After edit length `p`: every diagonal of the window holds an open path, and nothing is set beyond `p`. */
  ghost predicate Row(ok: Known, best: seq<PathNode>, off: int, lo: int, hi: int, p: int) {
    && -p <= lo <= hi <= p && (lo - p) % 2 == 0 && (hi - p) % 2 == 0 && 0 <= off + lo && off + hi < |best|
    && (forall i {:trigger InRow(i, off, lo, hi, p)} :: InRow(i, off, lo, hi, p) ==> ok(best[i], i - off, p))
    && (forall i :: 0 <= i < |best| && (i < off - p || off + p < i) ==> !best[i].present)
  }

  /**
   * `next` is the lowest diagonal the next row needs: one below the row, or one above its
   * highest path at the bottom edge.  `bound` is the limit the search keeps, which the very
   * first path does not update.  Diagonals below the row are there no more, or lead nowhere: its
   * lowest path has passed all new tokens.
   */
  ghost predicate LowEnd(nb: nat, best: seq<PathNode>, off: int, lo: int, hi: int, p: int, next: int, bound: int)
    requires 0 <= off + lo <= off + hi < |best|
  {
    && (lo == -p || AtBottom(nb, best[off + lo], lo))
    && if next == lo - 1 then
      && lo == -p && bound == -FAR
      && (forall i {:trigger InRow(i, off, lo, hi, p)} :: InRow(i, off, lo, hi, p) ==> !AtBottom(nb, best[i], i - off))
    else
      && InRow(off + next - 1, off, lo, hi, p) && AtBottom(nb, best[off + next - 1], next - 1)
      && (bound == next || (p == 0 && bound == -FAR))
      && (forall i {:trigger InRow(i, off, lo, hi, p)} :: InRow(i, off, lo, hi, p) && i >= off + next ==>
         !AtBottom(nb, best[i], i - off))
  }

  ghost predicate HighEnd(na: nat, best: seq<PathNode>, off: int, lo: int, hi: int, p: int, next: int, bound: int)
    requires 0 <= off + lo <= off + hi < |best|
  {
    && (hi == p || AtRight(na, best[off + hi]))
    && if next == hi + 1 then
      && hi == p && bound == FAR
      && (forall i {:trigger InRow(i, off, lo, hi, p)} :: InRow(i, off, lo, hi, p) ==> !AtRight(na, best[i]))
    else
      && InRow(off + next + 1, off, lo, hi, p) && AtRight(na, best[off + next + 1])
      && (bound == next || (p == 0 && bound == FAR))
      && (forall i {:trigger InRow(i, off, lo, hi, p)} :: InRow(i, off, lo, hi, p) && i <= off + next ==>
         !AtRight(na, best[i]))
  }

  /** A path at the bottom lies on a lower diagonal than one at the right. */
  lemma EdgesApart<T>(a: seq<T>, b: seq<T>, m: PathNode, d: int, n: PathNode, d2: int, p: int)
    requires Open(a, b, m, d, p) && AtBottom(|b|, m, d) && Open(a, b, n, d2, p) && AtRight(|a|, n)
    ensures d < |a| - |b| < d2
  {
  }

  /** An edit length to do: the row before it, the diagonals it needs, and the limits it starts with. */
  datatype Pass = Pass(na: nat, nb: nat, row: seq<PathNode>, off: int, e: int, lo: int, hi: int, mlo: int, mhi: int,
                       min0: int, max0: int) {
    /** The array has room for the edit length, and the fixed starting limits are out of its way. */
    ghost predicate Fits() {
      e <= FAR && 0 <= off - e - 1 && off + e + 1 < |row|
    }

    ghost predicate Rows(ok: Known) {
      && 1 <= e && Row(ok, row, off, lo, hi, e - 1)
      && LowEnd(nb, row, off, lo, hi, e - 1, mlo, min0) && HighEnd(na, row, off, lo, hi, e - 1, mhi, max0)
    }

    ghost predicate Ends(ok: Known) {
      Fits() && Rows(ok)
    }

    /** The diagonals needed are not empty, and they are the ones looked at, but for the first edit. */
    ghost predicate Window()
      requires 0 <= off < |row|
    {
      && lo - 1 <= mlo <= mhi <= hi + 1 && (mlo - e) % 2 == 0 && (mhi - e) % 2 == 0
      && (First() == mlo || (e == 1 && mlo == 1 && First() == -1 && AtBottom(nb, row[off], 0)))
      && (Last() == mhi || (e == 1 && mhi == -1 && Last() == 1 && AtRight(na, row[off])))
    }

    ghost predicate Valid(ok: Known) {
      Ends(ok) && Window()
    }

    function First(): int {
      if -e < min0 then min0 else -e
    }

    function Last(): int {
      if e > max0 then max0 else e
    }
  }

  lemma WindowFrom(ok: Known, w: Pass)
    requires w.Ends(ok) && (w.mlo != w.lo - 1 && w.mhi != w.hi + 1 ==> w.mlo - 1 < w.mhi + 1)
    ensures w.Valid(ok)
  {
    var p := w.e - 1;
    assert InRow(w.off + w.lo, w.off, w.lo, w.hi, p);
    assert InRow(w.off + w.hi, w.off, w.lo, w.hi, p);
  }

  lemma WindowOk<T>(a: seq<T>, b: seq<T>, w: Pass)
    requires w.Ends(OpenPaths(a, b)) && w.na == |a| && w.nb == |b|
    ensures w.Valid(OpenPaths(a, b))
  {
    if w.mlo != w.lo - 1 && w.mhi != w.hi + 1 {
      var i, j := w.off + w.mlo - 1, w.off + w.mhi + 1;
      assert OpenPaths(a, b)(w.row[i], w.mlo - 1, w.e - 1) && OpenPaths(a, b)(w.row[j], w.mhi + 1, w.e - 1);
      EdgesApart(a, b, w.row[i], w.mlo - 1, w.row[j], w.mhi + 1, w.e - 1);
    }
    WindowFrom(OpenPaths(a, b), w);
  }

  /** The neighbours of diagonal `d` in the old row; one of them can be extended exactly on the needed diagonals. */
  lemma Neighbours(ok: Known, w: Pass, d: int)
    requires w.Valid(ok) && w.First() <= d <= w.Last() && (d - w.e) % 2 == 0
    ensures var rp, ap := w.row[w.off + d - 1], w.row[w.off + d + 1];
            && (rp.present ==> ok(rp, d - 1, w.e - 1)) && (ap.present ==> ok(ap, d + 1, w.e - 1))
            && (d - 1 >= w.lo ==> ok(rp, d - 1, w.e - 1)) && (d + 1 <= w.hi ==> ok(ap, d + 1, w.e - 1))
            && (w.mlo <= d <= w.mhi ==>
                 && (d - 1 >= w.lo || d + 1 <= w.hi)
                 && (if d - 1 >= w.lo then !AtRight(w.na, rp) else !rp.present && d - 1 < 1 - w.e)
                 && (if d + 1 <= w.hi then !AtBottom(w.nb, ap, d + 1) else !ap.present && d + 1 > w.e - 1))
            && (!(w.mlo <= d <= w.mhi) ==>
                 (!rp.present || AtRight(w.na, rp)) && (!ap.present || AtBottom(w.nb, ap, d + 1)))
            && (d == w.mlo && w.mlo != w.lo - 1 ==> d - 1 >= w.lo && AtBottom(w.nb, rp, d - 1))
            && (d == w.mhi && w.mhi != w.hi + 1 ==> d + 1 <= w.hi && AtRight(w.na, ap))
  {
    var p := w.e - 1;
    assert InRow(w.off + w.lo, w.off, w.lo, w.hi, p) && InRow(w.off + w.hi, w.off, w.lo, w.hi, p);
    assert d - 1 >= w.lo ==> InRow(w.off + d - 1, w.off, w.lo, w.hi, p);
    assert d + 1 <= w.hi ==> InRow(w.off + d + 1, w.off, w.lo, w.hi, p);
  }

  // ---- one edit length ----

  /** The paths done so far, and the old row above them. */
  ghost predicate Half(ok: Known, w: Pass, best: seq<PathNode>, d: int) {
    && |best| == |w.row| && 0 <= w.off + w.mlo <= w.off + w.mhi < |best|
    && (forall i :: w.off + d - 1 <= i < |best| && 0 <= i && (i - w.off - w.e) % 2 != 0 ==> best[i] == w.row[i])
    && (forall i {:trigger InRow(i, w.off, w.mlo, w.mhi, w.e)} ::
         InRow(i, w.off, w.mlo, w.mhi, w.e) && i < w.off + d ==> ok(best[i], i - w.off, w.e))
    && (forall i :: 0 <= i < |best| && (i < w.off - w.e || w.off + w.e < i) ==> !best[i].present)
  }

  /** As `LowEnd`, for the part of the new row below diagonal `d`. */
  ghost predicate LowSoFar(w: Pass, best: seq<PathNode>, d: int, bound: int)
    requires 0 <= w.off + w.mlo <= w.off + w.mhi < |best|
  {
    && bound <= d && (d > w.mlo != w.lo - 1 ==> AtBottom(w.nb, best[w.off + w.mlo], w.mlo))
    && if bound == w.min0 then
         forall i {:trigger InRow(i, w.off, w.mlo, w.mhi, w.e)} ::
           InRow(i, w.off, w.mlo, w.mhi, w.e) && i < w.off + d ==> !AtBottom(w.nb, best[i], i - w.off)
       else
         && InRow(w.off + bound - 1, w.off, w.mlo, w.mhi, w.e) && bound - 1 < d
            && AtBottom(w.nb, best[w.off + bound - 1], bound - 1)
         && forall i {:trigger InRow(i, w.off, w.mlo, w.mhi, w.e)} ::
              InRow(i, w.off, w.mlo, w.mhi, w.e) && w.off + bound <= i < w.off + d ==>
                !AtBottom(w.nb, best[i], i - w.off)
  }

  ghost predicate HighSoFar(w: Pass, best: seq<PathNode>, d: int, bound: int)
    requires 0 <= w.off + w.mlo <= w.off + w.mhi < |best|
  {
    && (d > w.mhi != w.hi + 1 ==> AtRight(w.na, best[w.off + w.mhi]))
    && if bound == w.max0 then
         forall i {:trigger InRow(i, w.off, w.mlo, w.mhi, w.e)} ::
           InRow(i, w.off, w.mlo, w.mhi, w.e) && i < w.off + d ==> !AtRight(w.na, best[i])
       else
         && InRow(w.off + bound + 1, w.off, w.mlo, w.mhi, w.e) && bound + 1 < d
            && AtRight(w.na, best[w.off + bound + 1])
         && forall i {:trigger InRow(i, w.off, w.mlo, w.mhi, w.e)} ::
              InRow(i, w.off, w.mlo, w.mhi, w.e) && i < w.off + d && i <= w.off + bound ==> !AtRight(w.na, best[i])
  }

  /** All that holds between two diagonals. */
  ghost predicate Mid(ok: Known, w: Pass, best: seq<PathNode>, d: int, minDiag: int, maxDiag: int) {
    Half(ok, w, best, d) && (d - w.e) % 2 == 0 && LowSoFar(w, best, d, minDiag) && HighSoFar(w, best, d, maxDiag)
  }

  lemma MidStart(ok: Known, w: Pass)
    requires w.Valid(ok)
    ensures Mid(ok, w, w.row, w.First(), w.min0, w.max0)
  {
    assert w.First() <= w.mlo;
  }

  /** What handling diagonal `d` did to the array. */
  ghost predicate Stepped(ok: Known, w: Pass, best: seq<PathNode>, best2: seq<PathNode>, d: int) {
    && 1 <= w.off + d && w.off + d + 1 < |best| && |best2| == |best|
    && (forall i :: 0 <= i < |best| && i != w.off + d && i != w.off + d - 1 ==> best2[i] == best[i])
    && !best2[w.off + d - 1].present
    && (w.mlo <= d <= w.mhi ==> ok(best2[w.off + d], d, w.e))
    && (d == w.mlo && w.mlo != w.lo - 1 ==> AtBottom(w.nb, best2[w.off + d], d))
    && (d == w.mhi && w.mhi != w.hi + 1 ==> AtRight(w.na, best2[w.off + d]))
  }

  ghost predicate LimitsMoved(w: Pass, n: PathNode, d: int, min1: int, max1: int, min2: int, max2: int) {
    && min2 == (if w.mlo <= d <= w.mhi && AtBottom(w.nb, n, d) && d + 1 > min1 then d + 1 else min1)
    && max2 == (if w.mlo <= d <= w.mhi && AtRight(w.na, n) && d - 1 < max1 then d - 1 else max1)
  }

  lemma HalfStep(ok: Known, w: Pass, best: seq<PathNode>, best2: seq<PathNode>, d: int)
    requires Half(ok, w, best, d) && Stepped(ok, w, best, best2, d) && (d - w.e) % 2 == 0 && -w.e <= d <= w.e
    ensures Half(ok, w, best2, d + 2)
  {
  }

  lemma LowStep(ok: Known, w: Pass, best: seq<PathNode>, best2: seq<PathNode>, d: int, min1: int, min2: int)
    requires 0 <= w.off + w.mlo <= w.off + w.mhi < |best| && Stepped(ok, w, best, best2, d)
    requires (d - w.e) % 2 == 0 && (w.mlo - w.e) % 2 == 0 && w.min0 <= d && LowSoFar(w, best, d, min1)
    requires min2 == if w.mlo <= d <= w.mhi && AtBottom(w.nb, best2[w.off + d], d) then d + 1 else min1
    ensures LowSoFar(w, best2, d + 2, min2)
  {
  }

  lemma HighStep(ok: Known, w: Pass, best: seq<PathNode>, best2: seq<PathNode>, d: int, max1: int, max2: int)
    requires 0 <= w.off + w.mlo <= w.off + w.mhi < |best| && Stepped(ok, w, best, best2, d)
    requires (d - w.e) % 2 == 0 && (w.mhi - w.e) % 2 == 0 && d <= w.max0 && HighSoFar(w, best, d, max1)
    requires max2 == if w.mlo <= d <= w.mhi && AtRight(w.na, best2[w.off + d]) && d - 1 < max1 then d - 1 else max1
    ensures HighSoFar(w, best2, d + 2, max2)
  {
  }

  lemma MidStep(ok: Known, w: Pass, best: seq<PathNode>, best2: seq<PathNode>, d: int, min1: int, max1: int, min2: int,
                max2: int)
    requires w.Valid(ok) && Mid(ok, w, best, d, min1, max1) && w.First() <= d <= w.Last()
    requires Stepped(ok, w, best, best2, d) && LimitsMoved(w, best2[w.off + d], d, min1, max1, min2, max2)
    ensures Mid(ok, w, best2, d + 2, min2, max2)
  {
    HalfStep(ok, w, best, best2, d);
    LowStep(ok, w, best, best2, d, min1, min2);
    HighStep(ok, w, best, best2, d, max1, max2);
  }

  lemma LowDone(w: Pass, best: seq<PathNode>, d: int, minDiag: int) returns (next: int)
    requires 0 <= w.off + w.lo <= w.off + w.hi < |w.row|
             && LowEnd(w.nb, w.row, w.off, w.lo, w.hi, w.e - 1, w.mlo, w.min0)
    requires 1 <= w.e <= FAR && w.lo - 1 <= w.mlo && (w.mlo - w.e) % 2 == 0 && -w.e < w.lo && w.mhi < d
    requires 0 <= w.off + w.mlo <= w.off + w.mhi < |best| && LowSoFar(w, best, d, minDiag)
    ensures LowEnd(w.nb, best, w.off, w.mlo, w.mhi, w.e, next, minDiag)
  {
    assert InRow(w.off + w.mlo, w.off, w.mlo, w.mhi, w.e);
    next := if minDiag == w.min0 then w.mlo - 1 else minDiag;
  }

  lemma HighDone(w: Pass, best: seq<PathNode>, d: int, maxDiag: int) returns (next: int)
    requires 0 <= w.off + w.lo <= w.off + w.hi < |w.row|
             && HighEnd(w.na, w.row, w.off, w.lo, w.hi, w.e - 1, w.mhi, w.max0)
    requires 1 <= w.e <= FAR && w.mhi <= w.hi + 1 && (w.mhi - w.e) % 2 == 0 && w.hi < w.e && w.mhi < d
    requires 0 <= w.off + w.mlo <= w.off + w.mhi < |best| && HighSoFar(w, best, d, maxDiag)
    ensures HighEnd(w.na, best, w.off, w.mlo, w.mhi, w.e, next, maxDiag)
  {
    assert InRow(w.off + w.mhi, w.off, w.mlo, w.mhi, w.e);
    next := if maxDiag == w.max0 then w.mhi + 1 else maxDiag;
  }

  lemma RowDone(ok: Known, w: Pass, best: seq<PathNode>, d: int)
    requires Half(ok, w, best, d) && w.mhi < d && -w.e <= w.mlo && w.mhi <= w.e
    requires (w.mlo - w.e) % 2 == 0 && (w.mhi - w.e) % 2 == 0
    ensures Row(ok, best, w.off, w.mlo, w.mhi, w.e)
  {
  }

  lemma MidDone(ok: Known, w: Pass, best: seq<PathNode>, d: int, minDiag: int, maxDiag: int)
    returns (nlo: int, nhi: int)
    requires w.Valid(ok) && Mid(ok, w, best, d, minDiag, maxDiag) && d > w.Last()
    ensures Row(ok, best, w.off, w.mlo, w.mhi, w.e)
    ensures LowEnd(w.nb, best, w.off, w.mlo, w.mhi, w.e, nlo, minDiag)
            && HighEnd(w.na, best, w.off, w.mlo, w.mhi, w.e, nhi, maxDiag)
  {
    RowDone(ok, w, best, d);
    nlo := LowDone(w, best, d, minDiag);
    nhi := HighDone(w, best, d, maxDiag);
  }

  /** The neighbours of the next diagonal are still those of the old row. */
  lemma MidReads(ok: Known, w: Pass, best: seq<PathNode>, d: int, minDiag: int, maxDiag: int)
    requires w.Valid(ok) && Mid(ok, w, best, d, minDiag, maxDiag) && w.First() <= d <= w.Last()
    ensures 1 <= w.off + d && w.off + d + 1 < |best|
    ensures best[w.off + d - 1] == w.row[w.off + d - 1] && best[w.off + d + 1] == w.row[w.off + d + 1]
  {
    HalfReads(ok, w, best, d);
  }

  lemma HalfReads(ok: Known, w: Pass, best: seq<PathNode>, d: int)
    requires Half(ok, w, best, d) && (d - w.e) % 2 == 0 && 1 <= w.off + d && w.off + d + 1 < |best|
    ensures best[w.off + d - 1] == w.row[w.off + d - 1] && best[w.off + d + 1] == w.row[w.off + d + 1]
  {
  }

  /** What one diagonal did to the array and to the limits when the script is not complete yet. */
  ghost predicate DiagonalDone<T>(a: seq<T>, b: seq<T>, best: seq<PathNode>, best2: seq<PathNode>, at: int, d: int,
                                  e: int, go: bool, min1: int, max1: int, min2: int, max2: int)
    requires 1 <= at && at + 1 < |best| == |best2|
  {
    && (forall i :: 0 <= i < |best| && i != at && i != at - 1 ==> best2[i] == best[i])
    && !best2[at - 1].present
    && (go ==> Open(a, b, best2[at], d, e))
    && (go && best[at - 1].present && AtBottom(|b|, best[at - 1], d - 1) ==> AtBottom(|b|, best2[at], d))
    && (go && best[at + 1].present && AtRight(|a|, best[at + 1]) ==> AtRight(|a|, best2[at]))
    && min2 == (if go && AtBottom(|b|, best2[at], d) && d + 1 > min1 then d + 1 else min1)
    && max2 == (if go && AtRight(|a|, best2[at]) && d - 1 < max1 then d - 1 else max1)
  }

  /** The same, as one fact to hand on. */
  ghost function Handled<T>(a: seq<T>, b: seq<T>, e: int, go: bool):
    (seq<PathNode>, seq<PathNode>, int, int, int, int, int, int) -> bool
  {
    (best: seq<PathNode>, best2: seq<PathNode>, at: int, d: int, min1: int, max1: int, min2: int, max2: int) =>
      1 <= at && at + 1 < |best| == |best2| && DiagonalDone(a, b, best, best2, at, d, e, go, min1, max1, min2, max2)
  }

  /** One diagonal of one edit length; `go` says whether a neighbour can be extended onto it. */
  method StepDiagonal<T(==)>(a: seq<T>, b: seq<T>, best: array<PathNode>, off: int, d: int, min1: int, max1: int,
                             ghost e: int, ghost go: bool)
    returns (found: bool, script: Comp, minDiag: int, maxDiag: int)
    requires 1 <= off + d && off + d + 1 < best.Length
    requires Prepared(a, b, e - 1)(best[off + d - 1], best[off + d + 1], d, go)
    modifies best
    ensures found ==> Whole(a, b, script, e)
    ensures !found ==> Handled(a, b, e, go)(old(best[..]), best[..], off + d, d, min1, max1, minDiag, maxDiag)
  {
    found, script, minDiag, maxDiag := false, Start, min1, max1;
    var rp, ap := best[off + d - 1], best[off + d + 1];
    if rp.present {
      best[off + d - 1] := rp.(present := false);
    }
    var ok, n, newPos := Extend(a, b, rp, ap, d, e - 1);
    if !ok {
      best[off + d] := best[off + d].(present := false);
      return;
    }
    if n.oldPos + 1 >= |a| && newPos + 1 >= |b| {
      return true, n.last, minDiag, maxDiag;
    }
    best[off + d] := n;
    if n.oldPos + 1 >= |a| && d - 1 < maxDiag {
      maxDiag := d - 1;
    }
    if newPos + 1 >= |b| && d + 1 > minDiag {
      minDiag := d + 1;
    }
  }

  /** A pass and a state between its diagonals, as one fact to hand on. */
  ghost function Between<T>(a: seq<T>, b: seq<T>, w: Pass): (seq<PathNode>, int, int, int) -> bool {
    (best: seq<PathNode>, d: int, minDiag: int, maxDiag: int) =>
      w.Valid(OpenPaths(a, b)) && w.na == |a| && w.nb == |b| && Mid(OpenPaths(a, b), w, best, d, minDiag, maxDiag)
  }

  /** What `StepDiagonal` needs to know of the two neighbours. */
  ghost predicate Ready<T>(a: seq<T>, b: seq<T>, rp: PathNode, ap: PathNode, d: int, e: int, go: bool) {
    && (rp.present ==> Open(a, b, rp, d - 1, e)) && (ap.present ==> Open(a, b, ap, d + 1, e))
    && go == ((rp.present && !AtRight(|a|, rp)) || (ap.present && !AtBottom(|b|, ap, d + 1)))
    && 0 <= e && (go ==> Reaching(a, b, rp, ap, d, e))
  }

  ghost function Prepared<T>(a: seq<T>, b: seq<T>, e: int): (PathNode, PathNode, int, bool) -> bool {
    (rp: PathNode, ap: PathNode, d: int, go: bool) => Ready(a, b, rp, ap, d, e, go)
  }

  /** The neighbours of a diagonal in the old row. */
  lemma RowReady<T>(a: seq<T>, b: seq<T>, w: Pass, d: int)
    requires w.Valid(OpenPaths(a, b)) && w.na == |a| && w.nb == |b| && w.First() <= d <= w.Last() && (d - w.e) % 2 == 0
    ensures 1 <= w.off + d && w.off + d + 1 < |w.row|
    ensures Ready(a, b, w.row[w.off + d - 1], w.row[w.off + d + 1], d, w.e - 1, w.mlo <= d <= w.mhi)
  {
    Neighbours(OpenPaths(a, b), w, d);
  }

  /** The neighbours of a diagonal in the middle of a pass are ready. */
  lemma ReadyAt<T>(a: seq<T>, b: seq<T>, w: Pass, best: seq<PathNode>, d: int, minDiag: int, maxDiag: int)
    requires Between(a, b, w)(best, d, minDiag, maxDiag) && w.First() <= d <= w.Last()
    ensures 1 <= w.off + d && w.off + d + 1 < |best|
    ensures Prepared(a, b, w.e - 1)(best[w.off + d - 1], best[w.off + d + 1], d, w.mlo <= d <= w.mhi)
  {
    MidReads(OpenPaths(a, b), w, best, d, minDiag, maxDiag);
    RowReady(a, b, w, d);
  }

  /** The neighbours of a diagonal hand on the edges they have reached. */
  lemma EdgesAt<T>(a: seq<T>, b: seq<T>, w: Pass, best: seq<PathNode>, d: int, minDiag: int, maxDiag: int)
    requires Between(a, b, w)(best, d, minDiag, maxDiag) && w.First() <= d <= w.Last()
    ensures 1 <= w.off + d && w.off + d + 1 < |best| && w.na == |a| && w.nb == |b| && w.mlo <= w.mhi
    ensures d == w.mlo && w.mlo != w.lo - 1 ==>
              best[w.off + d - 1].present && AtBottom(w.nb, best[w.off + d - 1], d - 1)
    ensures d == w.mhi && w.mhi != w.hi + 1 ==> best[w.off + d + 1].present && AtRight(w.na, best[w.off + d + 1])
  {
    MidReads(OpenPaths(a, b), w, best, d, minDiag, maxDiag);
    Neighbours(OpenPaths(a, b), w, d);
  }

  lemma DoneIsStepped<T>(a: seq<T>, b: seq<T>, w: Pass, best: seq<PathNode>, best2: seq<PathNode>, d: int, min1: int,
                         max1: int, min2: int, max2: int)
    requires 1 <= w.off + d && w.off + d + 1 < |best| == |best2| && w.na == |a| && w.nb == |b| && w.mlo <= w.mhi
    requires DiagonalDone(a, b, best, best2, w.off + d, d, w.e, w.mlo <= d <= w.mhi, min1, max1, min2, max2)
    requires d == w.mlo && w.mlo != w.lo - 1 ==>
               best[w.off + d - 1].present && AtBottom(w.nb, best[w.off + d - 1], d - 1)
    requires d == w.mhi && w.mhi != w.hi + 1 ==> best[w.off + d + 1].present && AtRight(w.na, best[w.off + d + 1])
    ensures Stepped(OpenPaths(a, b), w, best, best2, d)
    ensures LimitsMoved(w, best2[w.off + d], d, min1, max1, min2, max2)
  {
  }

  /** A pass and its state before a diagonal give the pass and its state before the next. */
  lemma StepOn<T>(a: seq<T>, b: seq<T>, w: Pass, best: seq<PathNode>, best2: seq<PathNode>, d: int, min1: int,
                  max1: int, min2: int, max2: int)
    requires Between(a, b, w)(best, d, min1, max1) && w.First() <= d <= w.Last()
    requires Handled(a, b, w.e, w.mlo <= d <= w.mhi)(best, best2, w.off + d, d, min1, max1, min2, max2)
    ensures Between(a, b, w)(best2, d + 2, min2, max2)
  {
    EdgesAt(a, b, w, best, d, min1, max1);
    DoneIsStepped(a, b, w, best, best2, d, min1, max1, min2, max2);
    MidStep(OpenPaths(a, b), w, best, best2, d, min1, max1, min2, max2);
  }

  /** The body of the loop over diagonals. */
  method VisitDiagonal<T(==)>(a: seq<T>, b: seq<T>, best: array<PathNode>, off: int, d: int, min1: int, max1: int,
                              ghost w: Pass)
    returns (found: bool, script: Comp, minDiag: int, maxDiag: int)
    requires Between(a, b, w)(best[..], d, min1, max1) && w.off == off && w.First() <= d <= w.Last()
    modifies best
    ensures found ==> Whole(a, b, script, w.e)
    ensures !found ==> Between(a, b, w)(best[..], d + 2, minDiag, maxDiag)
  {
    ghost var best0 := best[..];
    ReadyAt(a, b, w, best0, d, min1, max1);
    found, script, minDiag, maxDiag := StepDiagonal(a, b, best, off, d, min1, max1, w.e, w.mlo <= d <= w.mhi);
    if !found {
      StepOn(a, b, w, best0, best[..], d, min1, max1, minDiag, maxDiag);
    }
  }

  /** A row and its ends, as one fact to hand on. */
  ghost function Complete<T>(a: seq<T>, b: seq<T>): Pass -> bool {
    (w: Pass) => w.na == |a| && w.nb == |b| && w.Rows(OpenPaths(a, b))
  }

  lemma PassStart<T>(a: seq<T>, b: seq<T>, w: Pass)
    requires Complete(a, b)(w) && w.Fits()
    ensures Between(a, b, w)(w.row, w.First(), w.min0, w.max0)
  {
    WindowOk(a, b, w);
    MidStart(OpenPaths(a, b), w);
  }

  /** The new row is complete, and its ends are where the limits say. */
  lemma PassEnd<T>(a: seq<T>, b: seq<T>, w: Pass, best: seq<PathNode>, d: int, minDiag: int, maxDiag: int)
    returns (w2: Pass)
    requires Between(a, b, w)(best, d, minDiag, maxDiag) && d > w.Last()
    ensures Complete(a, b)(w2)
    ensures w2.row == best && w2.off == w.off && w2.e == w.e + 1 && w2.min0 == minDiag && w2.max0 == maxDiag
  {
    var nlo, nhi := MidDone(OpenPaths(a, b), w, best, d, minDiag, maxDiag);
    w2 := Pass(|a|, |b|, best, w.off, w.e + 1, w.mlo, w.mhi, nlo, nhi, minDiag, maxDiag);
    assert w.e >= 1;
    IsComplete(a, b, w2);
  }

  lemma IsComplete<T>(a: seq<T>, b: seq<T>, w: Pass)
    requires w.na == |a| && w.nb == |b| && 1 <= w.e && Row(OpenPaths(a, b), w.row, w.off, w.lo, w.hi, w.e - 1)
    requires LowEnd(w.nb, w.row, w.off, w.lo, w.hi, w.e - 1, w.mlo, w.min0)
    requires HighEnd(w.na, w.row, w.off, w.lo, w.hi, w.e - 1, w.mhi, w.max0)
    ensures Complete(a, b)(w)
  {
  }

  /** The loop over the diagonals of one edit length. */
  method Diagonals<T(==)>(a: seq<T>, b: seq<T>, best: array<PathNode>, off: int, dlo: int, dhi: int, min0: int,
                          max0: int, ghost w: Pass)
    returns (found: bool, script: Comp, minDiag: int, maxDiag: int, ghost d: int)
    requires Between(a, b, w)(best[..], dlo, min0, max0) && w.off == off && dlo == w.First() && dhi == w.Last()
    modifies best
    ensures found ==> Whole(a, b, script, w.e)
    ensures !found ==> d > dhi && Between(a, b, w)(best[..], d, minDiag, maxDiag)
  {
    minDiag, maxDiag, script, found := min0, max0, Start, false;
    var diagonal := dlo;
    d := dlo;
    while diagonal <= dhi
      invariant d == diagonal >= dlo && !found && Between(a, b, w)(best[..], diagonal, minDiag, maxDiag)
    {
      found, script, minDiag, maxDiag := VisitDiagonal(a, b, best, off, diagonal, minDiag, maxDiag, w);
      if found {
        return;
      }
      diagonal, d := diagonal + 2, d + 2;
    }
  }

  /**
   * One edit length: extend every needed diagonal by one edit.  Either a path ends at the end of
   * both texts, or the new row is complete.
   */
  method NextRow<T(==)>(a: seq<T>, b: seq<T>, best: array<PathNode>, off: int, e: int, minDiag0: int, maxDiag0: int,
                        ghost w: Pass)
    returns (found: bool, script: Comp, minDiag: int, maxDiag: int, ghost w2: Pass)
    requires Complete(a, b)(w) && w.Fits()
    requires w.row == best[..] && w.off == off && w.e == e && w.min0 == minDiag0 && w.max0 == maxDiag0
    modifies best
    ensures found ==> Whole(a, b, script, e)
    ensures !found ==> Complete(a, b)(w2) && w2.row == best[..] && w2.off == off && w2.e == e + 1
    ensures !found ==> w2.min0 == minDiag && w2.max0 == maxDiag
  {
    var dlo, dhi := if -e < minDiag0 then minDiag0 else -e, if e > maxDiag0 then maxDiag0 else e;
    PassStart(a, b, w);
    ghost var d;
    found, script, minDiag, maxDiag, d := Diagonals(a, b, best, off, dlo, dhi, minDiag0, maxDiag0, w);
    if found {
      w2 := w;
    } else {
      w2 := PassEnd(a, b, w, best[..], d, minDiag, maxDiag);
    }
  }

  // ---- the search ----

  /** Every edit and every kept token moves a path on, so open paths are short. */
  lemma RowIsShort<T>(a: seq<T>, b: seq<T>, w: Pass)
    requires Complete(a, b)(w)
    ensures w.e <= |a| + |b|
  {
    assert InRow(w.off + w.lo, w.off, w.lo, w.hi, w.e - 1);
    var n := w.row[w.off + w.lo];
    assert OpenPaths(a, b)(n, w.lo, w.e - 1);
    EditsMove(a, b, n.last, n.oldPos + 1, n.oldPos - w.lo + 1);
  }

  /** Nothing is lost below the row: its lowest path lies below the diagonal of the end. */
  lemma LowestBelow<T>(a: seq<T>, b: seq<T>, w: Pass)
    requires Complete(a, b)(w)
    ensures w.lo == 1 - w.e || w.lo < |a| - |b|
  {
    assert InRow(w.off + w.lo, w.off, w.lo, w.hi, w.e - 1);
    assert OpenPaths(a, b)(w.row[w.off + w.lo], w.lo, w.e - 1);
  }

  lemma HighestAbove<T>(a: seq<T>, b: seq<T>, w: Pass)
    requires Complete(a, b)(w)
    ensures w.hi == w.e - 1 || |a| - |b| < w.hi
  {
    assert InRow(w.off + w.hi, w.off, w.lo, w.hi, w.e - 1);
    assert OpenPaths(a, b)(w.row[w.off + w.hi], w.hi, w.e - 1);
  }

  /** No script for the whole texts has as many edits as the row: it would be on one of its diagonals. */
  lemma NotInRow<T>(a: seq<T>, b: seq<T>, w: Pass, c: Comp)
    requires Complete(a, b)(w) && Script(a, b, c, |a|, |b|)
    ensures Edits(c) != w.e - 1
  {
    var d := |a| - |b|;
    EditsMove(a, b, c, |a|, |b|);
    LowestBelow(a, b, w);
    HighestAbove(a, b, w);
    if InRow(w.off + d, w.off, w.lo, w.hi, w.e - 1) {
      assert OpenPaths(a, b)(w.row[w.off + d], d, w.e - 1);
    }
  }

  /** A complete row after `e - 1` edits shows that one more is needed. */
  lemma OneMore<T>(a: seq<T>, b: seq<T>, w: Pass, e: nat)
    requires Complete(a, b)(w) && w.e == e + 1 && NoneBelow(a, b, e)
    ensures NoneBelow(a, b, e + 1)
  {
    forall c | Script(a, b, c, |a|, |b|) ensures e + 1 <= Edits(c) {
      NotInRow(a, b, w, c);
    }
  }

  lemma SeedFurthest<T>(a: seq<T>, b: seq<T>, n: PathNode)
    requires OnPath(a, b, n, 0, 0) && Stuck(a, b, n, 0)
    ensures Furthest(a, b, n, 0, 0)
  {
    forall c, i, j | Script(a, b, c, i, j) && Edits(c) == 0 && i - j == 0 ensures i <= n.oldPos + 1 {
      NoEdits(a, b, c, i, j);
      SnakePassed(a, b, n, 0, 0, 0, i, j);
    }
  }

  /** The first path alone is a complete row. */
  lemma SeedRow<T>(a: seq<T>, b: seq<T>, best: seq<PathNode>, off: int) returns (w: Pass)
    requires 0 <= off < |best| && OnPath(a, b, best[off], 0, 0) && Stuck(a, b, best[off], 0)
    requires !(AtRight(|a|, best[off]) && AtBottom(|b|, best[off], 0))
    requires forall i :: 0 <= i < |best| && i != off ==> !best[i].present
    ensures Complete(a, b)(w) && w.row == best && w.off == off && w.e == 1 && w.min0 == -FAR && w.max0 == FAR
  {
    var mlo, mhi := if AtBottom(|b|, best[off], 0) then 1 else -1, if AtRight(|a|, best[off]) then -1 else 1;
    w := Pass(|a|, |b|, best, off, 1, 0, 0, mlo, mhi, -FAR, FAR);
    SeedFurthest(a, b, best[off]);
    assert OpenPaths(a, b)(best[off], 0, 0);
  }

  /**
   * The search always finds a script: the limits never close on it, because a path at the bottom
   * edge always lies on a lower diagonal than one at the right edge, and every row is complete.
   * As the rows hold the furthest paths, no script has fewer edits than the one found.
   */
  method FindScript<T(==)>(a: seq<T>, b: seq<T>) returns (found: bool, script: Comp)
    requires |a| + |b| <= FAR
    ensures found && Least(a, b, script) && Solid(script)
  {
    var maxEditLength := |a| + |b|;
    var off := maxEditLength + 1;
    var best := new PathNode[2 * maxEditLength + 3](_ => PathNode(0, Start, false));
    var seed, newPos := ExtractCommon(a, b, PathNode(-1, Start, true), 0, 0);
    best[off] := seed;
    if seed.oldPos + 1 >= |a| && newPos + 1 >= |b| {
      return true, seed.last;
    }
    var minDiag, maxDiag, e := -FAR, FAR, 1;
    found, script := false, Start;
    ghost var w := SeedRow(a, b, best[..], off);
    RowIsShort(a, b, w);
    assert NoneBelow(a, b, 0);
    OneMore(a, b, w, 0);
    while !found && e <= maxEditLength
      invariant 1 <= e && (!found ==> e <= maxEditLength)
      invariant found ==> Least(a, b, script) && Solid(script)
      invariant !found ==>
                  && Complete(a, b)(w)
                  && NoneBelow(a, b, e)
                  && w.row == best[..]
                  && w.off == off
                  && w.e == e
                  && w.min0 == minDiag
                  && w.max0 == maxDiag
      decreases maxEditLength + 1 - e
    {
      found, script, minDiag, maxDiag, w := NextRow(a, b, best, off, e, minDiag, maxDiag, w);
      if !found {
        RowIsShort(a, b, w);
        OneMore(a, b, w, e);
      }
      e := e + 1;
    }
  }
}
