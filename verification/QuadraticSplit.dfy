// Splitting an overfull R-tree node: two seeds far apart, every other child to the group whose box
// grows least.
module QuadraticSplit {
  import opened SpatialModel

  /** The places with group `g`. */
  ghost function Places(grp: seq<nat>, g: nat): (r: seq<nat>)
    ensures |r| <= |grp| && forall k :: 0 <= k < |r| ==> r[k] < |grp| && grp[r[k]] == g
  {
    if grp == [] then []
    else
      var n := |grp| - 1;
      Places(grp[..n], g) + (if grp[n] == g then [n] else [])
  }

  /** What a list holds at the given places. */
  ghost function Pick<T>(xs: seq<T>, at: seq<nat>): (r: seq<T>)
    requires forall k :: 0 <= k < |at| ==> at[k] < |xs|
    ensures |r| == |at| && forall k :: 0 <= k < |r| ==> r[k] == xs[at[k]]
  {
    seq(|at|, k requires 0 <= k < |at| => xs[at[k]])
  }

  ghost predicate TwoGroups(grp: seq<nat>) {
    forall i :: 0 <= i < |grp| ==> grp[i] == 1 || grp[i] == 2
  }

  lemma {:induction false} GroupSizes(grp: seq<nat>)
    requires TwoGroups(grp)
    ensures |Places(grp, 1)| + |Places(grp, 2)| == |grp|
  {
    if grp != [] {
      GroupSizes(grp[..|grp| - 1]);
    }
  }

  lemma {:induction false} PlaceOf(grp: seq<nat>, i: nat)
    requires i < |grp|
    ensures i in Places(grp, grp[i])
  {
    if i < |grp| - 1 {
      PlaceOf(grp[..|grp| - 1], i);
    }
  }

  /** Both groups together are the whole list. */
  lemma {:induction false} PickAll<T>(xs: seq<T>, grp: seq<nat>)
    requires TwoGroups(grp) && |xs| == |grp|
    ensures multiset(Pick(xs, Places(grp, 1))) + multiset(Pick(xs, Places(grp, 2))) == multiset(xs)
  {
    if xs != [] {
      var n := |xs| - 1;
      PickAll(xs[..n], grp[..n]);
      PickCount(xs, grp, 1);
      PickCount(xs, grp, 2);
      LastCounted(xs);
      assert grp[n] == 1 || grp[n] == 2;
    }
  }

  lemma PickInit<T>(xs: seq<T>, grp: seq<nat>, g: nat)
    requires |xs| == |grp| > 0
    ensures var n := |xs| - 1;
            Pick(xs, Places(grp, g)) == Pick(xs[..n], Places(grp[..n], g)) + (if grp[n] == g then [xs[n]] else [])
  {
  }

  lemma LastCounted<T>(xs: seq<T>)
    requires xs != []
    ensures multiset(xs) == multiset(xs[..|xs| - 1]) + multiset{xs[|xs| - 1]}
  {
    assert xs == xs[..|xs| - 1] + [xs[|xs| - 1]];
  }

  lemma PickCount<T>(xs: seq<T>, grp: seq<nat>, g: nat)
    requires |xs| == |grp| > 0
    ensures var n := |xs| - 1;
            multiset(Pick(xs, Places(grp, g))) == multiset(Pick(xs[..n], Places(grp[..n], g)))
                + (if grp[n] == g then multiset{xs[n]} else multiset{})
  {
    PickInit(xs, grp, g);
  }

  lemma PickPtsInit(kids: seq<Spatial>, grp: seq<nat>, g: nat)
    requires |kids| == |grp| > 0
    ensures var n := |kids| - 1;
            PtsAll(Pick(kids, Places(grp, g))) == PtsAll(Pick(kids[..n], Places(grp[..n], g)))
                + (if grp[n] == g then Pts(kids[n]) else multiset{})
  {
    var n := |kids| - 1;
    var p := Pick(kids[..n], Places(grp[..n], g));
    PickInit(kids, grp, g);
    if grp[n] == g {
      PtsSnoc(p, kids[n]);
    } else {
      assert p + [] == p;
    }
  }

  lemma {:induction false} PickPts(kids: seq<Spatial>, grp: seq<nat>)
    requires TwoGroups(grp) && |kids| == |grp|
    ensures PtsAll(Pick(kids, Places(grp, 1))) + PtsAll(Pick(kids, Places(grp, 2))) == PtsAll(kids)
  {
    if kids != [] {
      var n := |kids| - 1;
      PickPts(kids[..n], grp[..n]);
      PickPtsInit(kids, grp, 1);
      PickPtsInit(kids, grp, 2);
    }
  }

  lemma {:induction false} PickNodes(kids: seq<Spatial>, grp: seq<nat>)
    requires TwoGroups(grp) && |kids| == |grp|
    ensures NodesAll(Pick(kids, Places(grp, 1))) + NodesAll(Pick(kids, Places(grp, 2))) == NodesAll(kids)
  {
    if kids != [] {
      var n := |kids| - 1;
      PickNodes(kids[..n], grp[..n]);
      PickNodesInit(kids, grp, 1);
      PickNodesInit(kids, grp, 2);
    }
  }

  lemma PickNodesInit(kids: seq<Spatial>, grp: seq<nat>, g: nat)
    requires |kids| == |grp| > 0
    ensures var n := |kids| - 1;
            NodesAll(Pick(kids, Places(grp, g)))
                == NodesAll(Pick(kids[..n], Places(grp[..n], g))) + (if grp[n] == g then Nodes(kids[n]) else 0)
  {
    var n := |kids| - 1;
    var p := Pick(kids[..n], Places(grp[..n], g));
    PickInit(kids, grp, g);
    if grp[n] == g {
      NodesSnoc(p, kids[n]);
    } else {
      assert p + [] == p;
    }
  }

  // ---- the algorithm ----

  /** All boxes are the same. */
  ghost predicate AllSame(cb: seq<Box>) {
    cb != [] && cb[0].valid && forall i :: 0 <= i < |cb| ==> cb[i] == cb[0]
  }

  /** The pair whose union has the largest area; the first two boxes if all are the same. */
  method PickSeeds(cb: seq<Box>) returns (s1: nat, s2: nat)
    requires |cb| >= 2
    ensures s1 < s2 < |cb|
    ensures forall i, j :: 0 <= i < j < |cb| ==> Area(Union(cb[i], cb[j])) <= Area(Union(cb[s1], cb[s2]))
    ensures AllSame(cb) ==> s1 == 0 && s2 == 1
  {
    s1, s2 := 0, 1;
    var maxDist := Area(Union(cb[0], cb[1]));
    for i := 0 to |cb|
      invariant s1 < s2 < |cb| && maxDist == Area(Union(cb[s1], cb[s2]))
      invariant forall k, j :: 0 <= k < i && k < j < |cb| ==> Area(Union(cb[k], cb[j])) <= maxDist
      invariant AllSame(cb) ==> s1 == 0 && s2 == 1
    {
      for j := i + 1 to |cb|
        invariant s1 < s2 < |cb| && maxDist == Area(Union(cb[s1], cb[s2]))
        invariant forall k, l :: 0 <= k < i && k < l < |cb| ==> Area(Union(cb[k], cb[l])) <= maxDist
        invariant forall l :: i < l < j ==> Area(Union(cb[i], cb[l])) <= maxDist
        invariant AllSame(cb) ==> s1 == 0 && s2 == 1
      {
        var d := Area(Union(cb[i], cb[j]));
        if d > maxDist {
          maxDist, s1, s2 := d, i, j;
        }
      }
    }
  }

  /** The group boxes contain every valid box of their group, and are invalid only over invalid ones. */
  ghost predicate Grouped(cb: seq<Box>, grp: seq<nat>, gb1: Box, gb2: Box) {
    && |grp| == |cb|
    && (forall i :: 0 <= i < |cb| && grp[i] == 1 && cb[i].valid ==> Within(cb[i], gb1))
    && (forall i :: 0 <= i < |cb| && grp[i] == 2 && cb[i].valid ==> Within(cb[i], gb2))
  }

  lemma UnionWithin(a: Box, b: Box)
    ensures (a.valid ==> Within(a, Union(a, b))) && (b.valid ==> Within(b, Union(a, b)))
    ensures forall x: Box :: Within(x, a) ==> Within(x, Union(a, b))
  {
  }

  lemma UnionSame(b: Box)
    requires b.valid
    ensures Union(b, b) == b && Enlargement(b, b) == 0.0
  {
  }

  /** Three equal boxes: the first and the last against the middle one. */
  ghost predicate SameSplit(cb: seq<Box>, grp: seq<nat>, gb1: Box, gb2: Box) {
    |cb| == 3 && AllSame(cb) ==> grp == [1, 2, 1] && gb1 == cb[0] && gb2 == cb[0]
  }

  method Partition(cb: seq<Box>) returns (grp: seq<nat>, gb1: Box, gb2: Box)
    requires |cb| >= 2
    ensures |grp| == |cb| && TwoGroups(grp) && Grouped(cb, grp, gb1, gb2)
    ensures (exists i :: 0 <= i < |cb| && grp[i] == 1) && (exists i :: 0 <= i < |cb| && grp[i] == 2)
    ensures SameSplit(cb, grp, gb1, gb2)
  {
    if AllSame(cb) {
      UnionSame(cb[0]);
    }
    var s1, s2 := PickSeeds(cb);
    grp := seq(|cb|, _ => 0);
    grp := grp[s1 := 1][s2 := 2];
    gb1, gb2 := cb[s1], cb[s2];
    var c1, c2 := 1, 1;
    for i := 0 to |cb|
      invariant |grp| == |cb| && grp[s1] == 1 && grp[s2] == 2
      invariant forall k :: 0 <= k < |cb| ==> grp[k] <= 2 && (k < i ==> grp[k] != 0)
      invariant Grouped(cb, grp, gb1, gb2)
      invariant |cb| == 3 && AllSame(cb) ==> s1 == 0 && s2 == 1 && gb1 == cb[0] && gb2 == cb[0]
      invariant |cb| == 3 && AllSame(cb) && i <= 2 ==> grp == [1, 2, 0] && c1 == c2 == 1
      invariant |cb| == 3 && AllSame(cb) && i == 3 ==> grp == [1, 2, 1]
    {
      if grp[i] != 0 {
        continue;
      }
      var enl1 := if gb1.valid then Enlargement(gb1, cb[i]) else 0.0;
      var enl2 := if gb2.valid then Enlargement(gb2, cb[i]) else 0.0;
      var to1 := if enl1 < enl2 then true else if enl2 < enl1 then false else c1 <= c2;
      if to1 {
        UnionWithin(gb1, cb[i]);
        grp, gb1, c1 := grp[i := 1], Union(gb1, cb[i]), c1 + 1;
      } else {
        UnionWithin(gb2, cb[i]);
        grp, gb2, c2 := grp[i := 2], Union(gb2, cb[i]), c2 + 1;
      }
    }
  }

  /** The items of one group, in order. */
  method Gather<T>(xs: seq<T>, grp: seq<nat>, g: nat) returns (r: seq<T>)
    requires |xs| == |grp|
    ensures r == Pick(xs, Places(grp, g))
  {
    r := [];
    for i := 0 to |xs|
      invariant r == Pick(xs[..i], Places(grp[..i], g))
    {
      PickInit(xs[..i + 1], grp[..i + 1], g);
      assert xs[..i + 1][..i] == xs[..i] && grp[..i + 1][..i] == grp[..i];
      if grp[i] == g {
        r := r + [xs[i]];
      }
    }
    assert xs[..|xs|] == xs && grp[..|xs|] == grp;
  }

  /** Neither group takes everything. */
  lemma GroupBounds(grp: seq<nat>)
    requires TwoGroups(grp) && (exists i :: 0 <= i < |grp| && grp[i] == 1)
             && (exists i :: 0 <= i < |grp| && grp[i] == 2)
    ensures 1 <= |Places(grp, 1)| < |grp| && 1 <= |Places(grp, 2)| < |grp|
  {
    var i :| 0 <= i < |grp| && grp[i] == 1;
    var j :| 0 <= j < |grp| && grp[j] == 2;
    PlaceOf(grp, i);
    PlaceOf(grp, j);
    GroupSizes(grp);
  }
}
