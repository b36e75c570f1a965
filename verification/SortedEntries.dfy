// The abstract value of an index: its entries as one strictly ascending sequence, with the finite
// map that sequence stands for.  A key is its rank in the key order (module Keys), a real number.
module SortedEntries {

  datatype Entry<V> = Entry(key: real, val: V)

  ghost predicate Ascending<V>(es: seq<Entry<V>>) {
    forall i, j :: 0 <= i < j < |es| ==> es[i].key < es[j].key
  }

  ghost predicate AllBelow<V>(es: seq<Entry<V>>, k: real) {
    forall i :: 0 <= i < |es| ==> es[i].key < k
  }

  ghost predicate AllAbove<V>(es: seq<Entry<V>>, k: real) {
    forall i :: 0 <= i < |es| ==> k < es[i].key
  }

  ghost predicate AllFrom<V>(es: seq<Entry<V>>, k: real) {
    forall i :: 0 <= i < |es| ==> k <= es[i].key
  }

  ghost predicate HasKey<V>(es: seq<Entry<V>>, k: real) {
    exists i :: 0 <= i < |es| && es[i].key == k
  }

  /** The entries after key `k` is bound to `v`: replaced in place, or inserted in order. */
  ghost function Put<V>(es: seq<Entry<V>>, k: real, v: V): seq<Entry<V>> {
    if es == [] || k < es[0].key then [Entry(k, v)] + es
    else if k == es[0].key then [Entry(k, v)] + es[1..]
    else [es[0]] + Put(es[1..], k, v)
  }

  /** The entries after key `k` is removed; unchanged when it is absent. */
  ghost function Del<V>(es: seq<Entry<V>>, k: real): seq<Entry<V>> {
    if es == [] then []
    else if k == es[0].key then es[1..]
    else [es[0]] + Del(es[1..], k)
  }

  /** The finite map a list of entries stands for; on a repeated key the first entry wins. */
  ghost function MapOf<V>(es: seq<Entry<V>>): map<real, V> {
    if es == [] then map[] else MapOf(es[1..])[es[0].key := es[0].val]
  }

  // ---- Put and Del act on the middle part that spans the key ----

  lemma {:induction false} PutSkips<V>(a: seq<Entry<V>>, b: seq<Entry<V>>, k: real, v: V)
    requires AllBelow(a, k)
    ensures Put(a + b, k, v) == a + Put(b, k, v)
  {
    if a == [] {
      assert a + b == b;
    } else {
      assert (a + b)[1..] == a[1..] + b;
      PutSkips(a[1..], b, k, v);
    }
  }

  lemma {:induction false} PutStops<V>(b: seq<Entry<V>>, c: seq<Entry<V>>, k: real, v: V)
    requires AllAbove(c, k)
    ensures Put(b + c, k, v) == Put(b, k, v) + c
  {
    if b == [] {
      assert b + c == c;
    } else {
      assert (b + c)[1..] == b[1..] + c;
      PutStops(b[1..], c, k, v);
    }
  }

  lemma PutMiddle<V>(a: seq<Entry<V>>, b: seq<Entry<V>>, c: seq<Entry<V>>, k: real, v: V)
    requires AllBelow(a, k) && AllAbove(c, k)
    ensures Put(a + b + c, k, v) == a + Put(b, k, v) + c
  {
    assert a + b + c == a + (b + c);
    PutSkips(a, b + c, k, v);
    PutStops(b, c, k, v);
  }

  lemma {:induction false} DelAbsent<V>(es: seq<Entry<V>>, k: real)
    requires !HasKey(es, k)
    ensures Del(es, k) == es
  {
    if es != [] {
      assert forall i :: 0 <= i < |es| - 1 ==> es[1..][i] == es[i + 1];
      DelAbsent(es[1..], k);
    }
  }

  lemma {:induction false} DelSkips<V>(a: seq<Entry<V>>, b: seq<Entry<V>>, k: real)
    requires AllBelow(a, k)
    ensures Del(a + b, k) == a + Del(b, k)
  {
    if a == [] {
      assert a + b == b;
    } else {
      assert (a + b)[1..] == a[1..] + b;
      DelSkips(a[1..], b, k);
    }
  }

  lemma {:induction false} DelStops<V>(b: seq<Entry<V>>, c: seq<Entry<V>>, k: real)
    requires AllAbove(c, k)
    ensures Del(b + c, k) == Del(b, k) + c
  {
    if b == [] {
      assert b + c == c;
      DelAbsent(c, k);
    } else {
      assert (b + c)[1..] == b[1..] + c;
      DelStops(b[1..], c, k);
    }
  }

  lemma DelMiddle<V>(a: seq<Entry<V>>, b: seq<Entry<V>>, c: seq<Entry<V>>, k: real)
    requires AllBelow(a, k) && AllAbove(c, k)
    ensures Del(a + b + c, k) == a + Del(b, k) + c
  {
    assert a + b + c == a + (b + c);
    DelSkips(a, b + c, k);
    DelStops(b, c, k);
  }

  lemma MiddleHasKey<V>(a: seq<Entry<V>>, b: seq<Entry<V>>, c: seq<Entry<V>>, k: real)
    requires AllBelow(a, k) && AllAbove(c, k)
    ensures HasKey(a + b + c, k) <==> HasKey(b, k)
  {
    if HasKey(b, k) {
      var i :| 0 <= i < |b| && b[i].key == k;
      assert (a + b + c)[|a| + i].key == k;
    }
    if HasKey(a + b + c, k) {
      var i :| 0 <= i < |a + b + c| && (a + b + c)[i].key == k;
      assert |a| <= i < |a| + |b|;
      assert b[i - |a|].key == k;
    }
  }

  // ---- at the position a binary search finds ----

  lemma SplitAt<T>(s: seq<T>, i: nat, x: T)
    requires i < |s|
    ensures s == s[..i] + s[i..] && s[i..][0] == s[i] && s[i..][1..] == s[i + 1..]
    ensures s[i := x] == s[..i] + ([x] + s[i + 1..])
  {
  }

  lemma PutAt<V>(es: seq<Entry<V>>, i: nat, k: real, v: V)
    requires i <= |es| && AllBelow(es[..i], k) && AllFrom(es[i..], k) && Ascending(es)
    ensures i < |es| && es[i].key == k ==> Put(es, k, v) == es[i := Entry(k, v)] && HasKey(es, k)
    ensures !(i < |es| && es[i].key == k) ==> Put(es, k, v) == es[..i] + [Entry(k, v)] + es[i..] && !HasKey(es, k)
  {
    PutSkips(es[..i], es[i..], k, v);
    if i < |es| {
      SplitAt(es, i, Entry(k, v));
    } else {
      assert es == es[..i] + es[i..];
    }
    if !(i < |es| && es[i].key == k) {
      KeyMissing(es, i, k);
    }
  }

  lemma KeyMissing<V>(es: seq<Entry<V>>, i: nat, k: real)
    requires i <= |es| && AllBelow(es[..i], k) && Ascending(es) && (i < |es| ==> k < es[i].key)
    ensures !HasKey(es, k)
  {
    assert forall j :: 0 <= j < i ==> es[j] == es[..i][j];
  }

  lemma DelAt<V>(es: seq<Entry<V>>, i: nat, k: real)
    requires i < |es| && es[i].key == k && Ascending(es)
    ensures Del(es, k) == es[..i] + es[i + 1..]
  {
    assert es == es[..i] + es[i..];
    DelSkips(es[..i], es[i..], k);
    assert es[i..][1..] == es[i + 1..];
  }

  // ---- what the list operations mean for the map ----

  lemma HasKeyStep<V>(es: seq<Entry<V>>, k: real)
    requires es != []
    ensures HasKey(es, k) <==> es[0].key == k || HasKey(es[1..], k)
  {
    if HasKey(es, k) && es[0].key != k {
      var i :| 0 <= i < |es| && es[i].key == k;
      assert es[1..][i - 1].key == k;
    }
    if HasKey(es[1..], k) {
      var i :| 0 <= i < |es[1..]| && es[1..][i].key == k;
      assert es[i + 1].key == k;
    }
  }

  lemma {:induction false} MapOfKeys<V>(es: seq<Entry<V>>)
    ensures forall k :: k in MapOf(es) <==> HasKey(es, k)
  {
    if es != [] {
      MapOfKeys(es[1..]);
      forall k ensures k in MapOf(es) <==> HasKey(es, k) {
        HasKeyStep(es, k);
      }
    }
  }

  lemma AscendingCons<V>(e: Entry<V>, es: seq<Entry<V>>)
    requires Ascending(es) && AllAbove(es, e.key)
    ensures Ascending([e] + es)
  {
  }

  /** `Put` keeps the list ascending and adds no key but `k`. */
  lemma {:induction false} PutAscending<V>(es: seq<Entry<V>>, k: real, v: V)
    requires Ascending(es)
    ensures Ascending(Put(es, k, v))
    ensures forall lo :: AllAbove(es, lo) && lo < k ==> AllAbove(Put(es, k, v), lo)
    ensures |Put(es, k, v)| == |es| + (if HasKey(es, k) then 0 else 1)
  {
    if es != [] && es[0].key < k {
      PutAscending(es[1..], k, v);
      assert AllAbove(es[1..], es[0].key);
      AscendingCons(es[0], Put(es[1..], k, v));
      HasKeyStep(es, k);
      forall lo | AllAbove(es, lo) && lo < k ensures AllAbove(Put(es, k, v), lo) {
        assert AllAbove(es[1..], lo);
      }
    } else if es != [] {
      HasKeyStep(es, k);
    }
  }

  lemma {:induction false} PutKeys<V>(es: seq<Entry<V>>, k: real, v: V)
    ensures forall i :: 0 <= i < |Put(es, k, v)| ==> Put(es, k, v)[i].key == k || HasKey(es, Put(es, k, v)[i].key)
  {
    var p := Put(es, k, v);
    forall i | 0 <= i < |p| ensures p[i].key == k || HasKey(es, p[i].key) {
      if es == [] {
      } else if k < es[0].key {
        assert i > 0 ==> p[i] == es[i - 1];
      } else if k == es[0].key {
        assert i > 0 ==> p[i] == es[i];
      } else {
        PutKeys(es[1..], k, v);
        HasKeyStep(es, p[i].key);
        assert i > 0 ==> p[i] == Put(es[1..], k, v)[i - 1];
      }
    }
  }

  /** `Put` is the map update at exactly `k`. */
  lemma {:induction false} MapOfPut<V>(es: seq<Entry<V>>, k: real, v: V)
    requires Ascending(es)
    ensures MapOf(Put(es, k, v)) == MapOf(es)[k := v]
  {
    var p := Put(es, k, v);
    if es == [] || k < es[0].key {
      assert p[1..] == es;
    } else if k == es[0].key {
      assert p[1..] == es[1..];
    } else {
      MapOfPut(es[1..], k, v);
      assert p[1..] == Put(es[1..], k, v);
    }
  }

  /** `Del` keeps the list ascending and adds no key. */
  lemma {:induction false} DelAscending<V>(es: seq<Entry<V>>, k: real)
    requires Ascending(es)
    ensures Ascending(Del(es, k))
    ensures forall lo :: AllAbove(es, lo) ==> AllAbove(Del(es, k), lo)
    ensures |Del(es, k)| == |es| - (if HasKey(es, k) then 1 else 0)
  {
    if es != [] && es[0].key != k {
      DelAscending(es[1..], k);
      assert AllAbove(es[1..], es[0].key);
      AscendingCons(es[0], Del(es[1..], k));
      HasKeyStep(es, k);
      forall lo | AllAbove(es, lo) ensures AllAbove(Del(es, k), lo) {
        assert AllAbove(es[1..], lo);
      }
    }
  }

  lemma {:induction false} DelKeys<V>(es: seq<Entry<V>>, k: real)
    ensures forall i :: 0 <= i < |Del(es, k)| ==> HasKey(es, Del(es, k)[i].key)
  {
    var p := Del(es, k);
    forall i | 0 <= i < |p| ensures HasKey(es, p[i].key) {
      if k == es[0].key {
        assert p[i] == es[i + 1];
      } else {
        DelKeys(es[1..], k);
        HasKeyStep(es, p[i].key);
        assert i > 0 ==> p[i] == Del(es[1..], k)[i - 1];
      }
    }
  }

  /** `Del` removes exactly `k` from the map. */
  lemma {:induction false} MapOfDel<V>(es: seq<Entry<V>>, k: real)
    requires Ascending(es)
    ensures MapOf(Del(es, k)) == MapOf(es) - {k}
  {
    if es != [] {
      MapOfKeys(es[1..]);
      if es[0].key == k {
        assert forall i :: 0 <= i < |es[1..]| ==> es[1..][i] == es[i + 1];
        assert !HasKey(es[1..], k);
      } else {
        MapOfDel(es[1..], k);
        assert Del(es, k)[1..] == Del(es[1..], k);
      }
    }
  }

  /** The size of the map is the number of entries. */
  lemma {:induction false} MapOfSize<V>(es: seq<Entry<V>>)
    requires Ascending(es)
    ensures |MapOf(es)| == |es|
  {
    if es != [] {
      MapOfSize(es[1..]);
      MapOfKeys(es[1..]);
      assert forall i :: 0 <= i < |es[1..]| ==> es[1..][i] == es[i + 1];
      assert es[0].key !in MapOf(es[1..]);
    }
  }
}
