// Ordered iteration over the keys of a tree: a cursor over a set of keys yields them ascending, and
// there is only one such list.
module OrderedKeys {
  import opened RecordFile
  import opened Keys

  /** Strictly ascending in byte order. */
  ghost predicate InOrder(ks: seq<Bytes>) {
    forall i, j :: 0 <= i < j < |ks| ==> BytesRank(ks[i]) < BytesRank(ks[j])
  }

  /** The elements of a set, in order. */
  ghost predicate Lists(ks: seq<Bytes>, all: set<Bytes>) {
    InOrder(ks) && forall k :: k in ks <==> k in all
  }

  lemma RankSame(a: Bytes, b: Bytes)
    ensures BytesRank(a) == BytesRank(b) <==> a == b
    ensures CompareBytes(a, b) < 0 <==> BytesRank(a) < BytesRank(b)
    ensures CompareBytes(a, b) <= 0 <==> BytesRank(a) <= BytesRank(b)
  {
    CompareBytesIsRankOrder(a, b);
  }

  /** Put a new element where it belongs. */
  method InsertKey(ks: seq<Bytes>, k: Bytes) returns (r: seq<Bytes>)
    requires InOrder(ks) && k !in ks
    ensures InOrder(r) && forall x :: x in r <==> x in ks || x == k
  {
    var i := 0;
    while i < |ks| && CompareBytes(ks[i], k) < 0
      invariant i <= |ks| && forall j :: 0 <= j < i ==> BytesRank(ks[j]) < BytesRank(k)
    {
      RankSame(ks[i], k);
      i := i + 1;
    }
    if i < |ks| {
      RankSame(ks[i], k);
    }
    r := ks[..i] + [k] + ks[i..];
    assert forall x :: x in ks <==> x in ks[..i] || x in ks[i..] by {
      assert ks == ks[..i] + ks[i..];
    }
  }

  /** A cursor over some keys of a tree. */
  method Stream(all: set<Bytes>) returns (ks: seq<Bytes>)
    ensures Lists(ks, all)
  {
    ks := [];
    var rest := all;
    while rest != {}
      invariant rest <= all && InOrder(ks) && forall k :: k in ks <==> k in all - rest
      decreases |rest|
    {
      var k :| k in rest;
      ks := InsertKey(ks, k);
      rest := rest - {k};
    }
  }

  /** There is only one way to list a set in order. */
  lemma {:induction false} ListsUnique(a: seq<Bytes>, b: seq<Bytes>)
    requires InOrder(a) && InOrder(b) && forall k :: k in a <==> k in b
    ensures a == b
    decreases |a|
  {
    if a == [] {
      EmptyMembers(b);
    } else {
      assert a[0] in b;
      var x, y := a[|a| - 1], b[|b| - 1];
      assert x in b && y in a;
      LastIsGreatest(a, y);
      LastIsGreatest(b, x);
      RankSame(x, y);
      InitMembers(a);
      InitMembers(b);
      var a1, b1 := a[..|a| - 1], b[..|b| - 1];
      assert x == y;
      forall k ensures k in a1 <==> k in b1 {
        assert k in a <==> k in b;
      }
      ListsUnique(a1, b1);
      assert a == a[..|a| - 1] + [x] && b == b[..|b| - 1] + [y];
    }
  }

  lemma EmptyMembers(b: seq<Bytes>)
    requires forall k :: k !in b
    ensures b == []
  {
    if b != [] {
      HasMember(b);
    }
  }

  lemma HasMember(b: seq<Bytes>)
    requires b != []
    ensures exists k :: k in b
  {
    assert b[0] in b;
  }

  lemma LastIsGreatest(a: seq<Bytes>, k: Bytes)
    requires InOrder(a) && k in a
    ensures BytesRank(k) <= BytesRank(a[|a| - 1])
  {
    var i :| 0 <= i < |a| && a[i] == k;
  }

  lemma InitMembers(a: seq<Bytes>)
    requires InOrder(a) && a != []
    ensures forall k :: k in a[..|a| - 1] <==> k in a && k != a[|a| - 1]
  {
    var n := |a| - 1;
    assert a == a[..n] + [a[n]];
    forall k | k in a[..n] ensures k != a[n] {
      var i :| 0 <= i < n && a[..n][i] == k;
      assert a[i] == k;
    }
  }
}
