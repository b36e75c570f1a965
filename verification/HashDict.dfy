// The insertion-ordered dictionary of the text index: entries in first-seen order with a
// linear-probing hash table over them.
module HashDict {
  import opened RecordFile

  datatype Entry = Entry(key: Bytes, val: nat)

  type Dict = seq<Entry>

  // ---- a dictionary as a value ----

  ghost predicate Distinct(d: Dict) {
    forall i, j :: 0 <= i < j < |d| ==> d[i].key != d[j].key
  }

  predicate Has(d: Dict, k: Bytes) {
    exists i :: 0 <= i < |d| && d[i].key == k
  }

  function IndexOf(d: Dict, k: Bytes): (i: nat)
    requires Has(d, k)
    ensures i < |d| && d[i].key == k
  {
    if d[0].key == k then 0 else 1 + IndexOf(d[1..], k)
  }

  function Value(d: Dict, k: Bytes): nat
    requires Has(d, k)
  {
    d[IndexOf(d, k)].val
  }

  /** Replace the value where the key stands, or append it. */
  function SetEntry(d: Dict, k: Bytes, v: nat): Dict {
    if Has(d, k) then d[IndexOf(d, k) := Entry(k, v)] else d + [Entry(k, v)]
  }

  function RemoveEntry(d: Dict, k: Bytes): Dict {
    if Has(d, k) then d[..IndexOf(d, k)] + d[IndexOf(d, k) + 1..] else d
  }

  /** A later dictionary read over an earlier one. */
  function SetAll(d: Dict, e: Dict): Dict {
    if e == [] then d else SetEntry(SetAll(d, e[..|e| - 1]), e[|e| - 1].key, e[|e| - 1].val)
  }

  ghost function AsMap(d: Dict): map<Bytes, nat>
    requires Distinct(d)
  {
    map i | 0 <= i < |d| :: d[i].key := d[i].val
  }

  lemma MapOf(d: Dict, k: Bytes)
    requires Distinct(d)
    ensures k in AsMap(d) <==> Has(d, k)
    ensures Has(d, k) ==> AsMap(d)[k] == Value(d, k)
  {
    if Has(d, k) {
      assert k == d[IndexOf(d, k)].key;
    }
  }

  /** A map with an entry's value at each entry's key, and no other keys, is the dictionary's. */
  ghost predicate Holds(d: Dict, m: map<Bytes, nat>) {
    && (forall i :: 0 <= i < |d| ==> d[i].key in m && m[d[i].key] == d[i].val)
    && forall x :: x in m ==> Has(d, x)
  }

  lemma HoldsIsMap(d: Dict, m: map<Bytes, nat>)
    requires Distinct(d)
    ensures Holds(d, m) <==> AsMap(d) == m
  {
    if Holds(d, m) {
      forall x ensures x in m <==> x in AsMap(d) {
        if x in m {
          assert Has(d, x);
        }
      }
    }
    forall x | x in AsMap(d) ensures Has(d, x) {
    }
  }

  /** Setting an entry updates the map at its key. */
  lemma SetIsUpdate(d: Dict, k: Bytes, v: nat)
    requires Distinct(d)
    ensures Distinct(SetEntry(d, k, v)) && AsMap(SetEntry(d, k, v)) == AsMap(d)[k := v]
  {
    HoldsIsMap(d, AsMap(d));
    if Has(d, k) {
      SetInPlace(d, AsMap(d), k, v);
    } else {
      SetBehind(d, AsMap(d), k, v);
    }
    HoldsIsMap(SetEntry(d, k, v), AsMap(d)[k := v]);
  }

  lemma SetInPlace(d: Dict, m: map<Bytes, nat>, k: Bytes, v: nat)
    requires Distinct(d) && Holds(d, m) && Has(d, k)
    ensures Distinct(SetEntry(d, k, v)) && Holds(SetEntry(d, k, v), m[k := v])
  {
    var i, r := IndexOf(d, k), SetEntry(d, k, v);
    assert forall j :: 0 <= j < |d| ==> r[j].key == d[j].key;
    forall x | x in m[k := v] ensures Has(r, x) {
      if x == k {
        assert r[i].key == x;
      } else {
        var j :| 0 <= j < |d| && d[j].key == x;
        assert r[j].key == x;
      }
    }
  }

  lemma SetBehind(d: Dict, m: map<Bytes, nat>, k: Bytes, v: nat)
    requires Distinct(d) && Holds(d, m) && !Has(d, k)
    ensures Distinct(d + [Entry(k, v)]) && Holds(d + [Entry(k, v)], m[k := v])
  {
    var r := d + [Entry(k, v)];
    assert r[|d|].key == k;
    forall x | x in m ensures Has(r, x) {
      var j :| 0 <= j < |d| && d[j].key == x;
      assert r[j].key == x;
    }
  }

  /** Removing an entry takes exactly its key out of the map. */
  lemma RemoveIsMinus(d: Dict, k: Bytes)
    requires Distinct(d)
    ensures Distinct(RemoveEntry(d, k)) && AsMap(RemoveEntry(d, k)) == AsMap(d) - {k}
    ensures |RemoveEntry(d, k)| == if Has(d, k) then |d| - 1 else |d|
  {
    HoldsIsMap(d, AsMap(d));
    if Has(d, k) {
      TakeOut(d, AsMap(d), k);
    }
    HoldsIsMap(RemoveEntry(d, k), AsMap(d) - {k});
  }

  lemma TakeOut(d: Dict, m: map<Bytes, nat>, k: Bytes)
    requires Distinct(d) && Holds(d, m) && Has(d, k)
    ensures Distinct(RemoveEntry(d, k)) && Holds(RemoveEntry(d, k), m - {k})
  {
    TakeOutAt(d, m, IndexOf(d, k));
  }

  lemma TakeOutAt(d: Dict, m: map<Bytes, nat>, i: nat)
    requires Distinct(d) && Holds(d, m) && i < |d|
    ensures Distinct(d[..i] + d[i + 1..]) && Holds(d[..i] + d[i + 1..], m - {d[i].key})
  {
    var r, k := d[..i] + d[i + 1..], d[i].key;
    forall j | 0 <= j < |r| ensures r[j].key in m - {k} && (m - {k})[r[j].key] == r[j].val {
      Moved(d, i, j);
    }
    forall a, b | 0 <= a < b < |r| ensures r[a].key != r[b].key {
      Moved(d, i, a);
      Moved(d, i, b);
    }
    forall x | x in m - {k} ensures Has(r, x) {
      var j :| 0 <= j < |d| && d[j].key == x;
      Stays(d, i, j);
    }
  }

  lemma Moved(d: Dict, i: nat, j: nat)
    requires i < |d| && j < |d| - 1
    ensures Behind(i, j) != i && (d[..i] + d[i + 1..])[j] == d[Behind(i, j)]
  {
  }

  /** Where the entry at `j` stood before entry `i` was taken out. */
  function Behind(i: nat, j: nat): nat {
    if j < i then j else j + 1
  }

  lemma Stays(d: Dict, i: nat, j: nat)
    requires i < |d| && j < |d| && i != j
    ensures Has(d[..i] + d[i + 1..], d[j].key)
  {
    var r := d[..i] + d[i + 1..];
    assert r[if j < i then j else j - 1] == d[j];
  }

  /** Reading one dictionary over another lays its map over the other's. */
  lemma {:induction false} SetAllIsOverride(d: Dict, e: Dict)
    requires Distinct(d) && Distinct(e)
    ensures Distinct(SetAll(d, e)) && AsMap(SetAll(d, e)) == AsMap(d) + AsMap(e)
  {
    if e == [] {
      assert AsMap(e) == map[];
    } else {
      var n := |e| - 1;
      SetAllIsOverride(d, e[..n]);
      SetIsUpdate(SetAll(d, e[..n]), e[n].key, e[n].val);
      AppendIsUpdate(e);
      OverrideUpdate(AsMap(d), AsMap(e[..n]), e[n].key, e[n].val);
    }
  }

  lemma OverrideUpdate(a: map<Bytes, nat>, b: map<Bytes, nat>, k: Bytes, v: nat)
    ensures (a + b)[k := v] == a + b[k := v]
  {
  }

  lemma AppendIsUpdate(e: Dict)
    requires Distinct(e) && e != []
    ensures AsMap(e) == AsMap(e[..|e| - 1])[e[|e| - 1].key := e[|e| - 1].val]
  {
    var n := |e| - 1;
    assert e == e[..n] + [Entry(e[n].key, e[n].val)];
    HoldsIsMap(e[..n], AsMap(e[..n]));
    SetBehind(e[..n], AsMap(e[..n]), e[n].key, e[n].val);
    HoldsIsMap(e, AsMap(e[..n])[e[n].key := e[n].val]);
  }

  // ---- the hash table ----

  /** The slot probed after `t` steps from `h`. */
  function Probe(h: nat, t: nat, cap: nat): (p: nat)
    requires h < cap && t < cap
    ensures p < cap
  {
    if h + t < cap then h + t else h + t - cap
  }

  /** Entry `i` is found after `t` steps from `h`, over slots in use. */
  ghost predicate HeldAt(slots: seq<nat>, h: nat, t: nat, i: nat) {
    && h < |slots| && t < |slots| && slots[Probe(h, t, |slots|)] == i + 1
    && forall u :: 0 <= u < t ==> slots[Probe(h, u, |slots|)] != 0
  }

  ghost predicate Reachable(slots: seq<nat>, h: nat, i: nat) {
    exists t :: HeldAt(slots, h, t, i)
  }

  function Home(hash: Bytes -> nat, k: Bytes, cap: nat): (h: nat)
    requires cap > 0
    ensures h < cap
  {
    hash(k) % cap
  }

  /** The slots index the first `n` entries: each can be probed to, and no slot is shared or stale. */
  ghost predicate Indexes(slots: seq<nat>, d: Dict, n: nat, hash: Bytes -> nat) {
    && n <= |d| && n < |slots|
    && (forall p :: 0 <= p < |slots| ==> slots[p] <= n)
    && (forall p, q :: 0 <= p < q < |slots| && slots[p] != 0 ==> slots[p] != slots[q])
    && (forall i :: 0 <= i < n ==> Reachable(slots, Home(hash, d[i].key, |slots|), i))
  }

  ghost function UpTo(n: nat): (s: set<nat>)
    ensures |s| == n && forall x :: x in s <==> 1 <= x <= n
  {
    if n == 0 then {} else UpTo(n - 1) + {n}
  }

  lemma {:induction false} DistinctCount(s: seq<nat>)
    requires forall p, q :: 0 <= p < q < |s| ==> s[p] != s[q]
    ensures |set p | 0 <= p < |s| :: s[p]| == |s|
  {
    var all := set p | 0 <= p < |s| :: s[p];
    if s != [] {
      var n := |s| - 1;
      var init := set p | 0 <= p < n :: s[..n][p];
      DistinctCount(s[..n]);
      assert all == init + {s[n]} by {
        forall x | x in all ensures x in init + {s[n]} {
          var p :| 0 <= p < |s| && s[p] == x;
          assert p < n ==> s[..n][p] == x;
        }
        forall x | x in init ensures x in all {
          var p :| 0 <= p < n && s[..n][p] == x;
          assert s[p] == x;
        }
      }
    }
  }

  /** Slots all in use and not shared are no more than the entries. */
  lemma AllUsed(slots: seq<nat>, n: nat)
    requires forall p :: 0 <= p < |slots| ==> 0 < slots[p] <= n
    requires forall p, q :: 0 <= p < q < |slots| ==> slots[p] != slots[q]
    ensures |slots| <= n
  {
    DistinctCount(slots);
    var all := set p | 0 <= p < |slots| :: slots[p];
    assert all <= UpTo(n);
    SubsetSize(all, UpTo(n));
  }

  /** Fewer entries than slots: some slot is free. */
  lemma SomeFree(slots: seq<nat>, n: nat)
    requires n < |slots| && forall p :: 0 <= p < |slots| ==> slots[p] <= n
    requires forall p, q :: 0 <= p < q < |slots| && slots[p] != 0 ==> slots[p] != slots[q]
    ensures exists p :: 0 <= p < |slots| && slots[p] == 0
  {
    if forall p :: 0 <= p < |slots| ==> slots[p] != 0 {
      AllUsed(slots, n);
    }
  }

  lemma {:induction false} SubsetSize(a: set<nat>, b: set<nat>)
    requires a <= b
    ensures |a| <= |b|
  {
    if a != {} {
      var x :| x in a;
      SubsetSize(a - {x}, b - {x});
    }
  }

  /** A free slot lies at some number of steps from anywhere. */
  lemma ReachFree(slots: seq<nat>, h: nat) returns (t: nat)
    requires h < |slots| && exists p :: 0 <= p < |slots| && slots[p] == 0
    ensures t < |slots| && slots[Probe(h, t, |slots|)] == 0
  {
    var p :| 0 <= p < |slots| && slots[p] == 0;
    t := if p >= h then p - h else p + |slots| - h;
  }

  /** Meeting a free slot first, a probe for a key shows that it is in no entry. */
  lemma ProbeMisses(slots: seq<nat>, d: Dict, n: nat, hash: Bytes -> nat, k: Bytes, t: nat)
    requires Indexes(slots, d, n, hash) && t < |slots|
    requires var h := Home(hash, k, |slots|);
             && slots[Probe(h, t, |slots|)] == 0
             && forall u :: 0 <= u < t ==>
                  slots[Probe(h, u, |slots|)] != 0 && d[slots[Probe(h, u, |slots|)] - 1].key != k
    ensures forall i :: 0 <= i < n ==> d[i].key != k
  {
    forall i | 0 <= i < n ensures d[i].key != k {
      var g := Home(hash, d[i].key, |slots|);
      assert Reachable(slots, g, i);
      var s :| HeldAt(slots, g, s, i);
      if g == Home(hash, k, |slots|) {
        HeldBefore(slots, g, s, t, i);
      }
    }
  }

  lemma HeldBefore(slots: seq<nat>, h: nat, s: nat, t: nat, i: nat)
    requires HeldAt(slots, h, s, i) && t < |slots| && slots[Probe(h, t, |slots|)] == 0
    ensures s < t
  {
  }

  /** Filling the first free slot on an entry's way indexes it beside the others. */
  lemma FillSlot(slots: seq<nat>, d: Dict, n: nat, hash: Bytes -> nat, t: nat)
    requires Indexes(slots, d, n, hash) && n < |d| && n + 1 < |slots| && t < |slots|
    requires var h := Home(hash, d[n].key, |slots|);
             && slots[Probe(h, t, |slots|)] == 0 && forall u :: 0 <= u < t ==> slots[Probe(h, u, |slots|)] != 0
    ensures Indexes(slots[Probe(Home(hash, d[n].key, |slots|), t, |slots|) := n + 1], d, n + 1, hash)
  {
    var h := Home(hash, d[n].key, |slots|);
    var p := Probe(h, t, |slots|);
    var after := slots[p := n + 1];
    forall i | 0 <= i < n + 1 ensures Reachable(after, Home(hash, d[i].key, |after|), i) {
      var g := Home(hash, d[i].key, |slots|);
      if i == n {
        assert HeldAt(after, h, t, n);
      } else {
        assert Reachable(slots, g, i);
        var s :| HeldAt(slots, g, s, i);
        assert HeldAt(after, g, s, i);
      }
    }
  }

  /** Entries behind the indexed ones, and values, do not matter to the index. */
  lemma SameKeys(slots: seq<nat>, d: Dict, e: Dict, n: nat, hash: Bytes -> nat)
    requires Indexes(slots, d, n, hash) && n <= |e| && forall i :: 0 <= i < n ==> d[i].key == e[i].key
    ensures Indexes(slots, e, n, hash)
  {
    forall i | 0 <= i < n ensures Reachable(slots, Home(hash, e[i].key, |slots|), i) {
      assert d[i].key == e[i].key;
    }
  }

  class Table {
    const hash: Bytes -> nat
    var entries: Dict
    var slots: array<nat>

    ghost predicate Valid()
      reads this, slots
    {
      && Distinct(entries) && slots.Length >= 2 * |entries|
      && (slots.Length > 0 ==> Indexes(slots[..], entries, |entries|, hash))
    }

    constructor (hash: Bytes -> nat)
      ensures Valid() && entries == [] && this.hash == hash && fresh(slots)
    {
      this.hash, entries, slots := hash, [], new nat[0];
    }

    /** The entry of a key, or -1. */
    method Find(k: Bytes) returns (r: int)
      requires Valid()
      ensures r == if Has(entries, k) then IndexOf(entries, k) else -1
    {
      if slots.Length == 0 {
        return -1;
      }
      var cap := slots.Length;
      var h := Home(hash, k, cap);
      var s := h;
      ghost var t := 0;
      SomeFree(slots[..], |entries|);
      ghost var free := ReachFree(slots[..], h);
      while slots[s] != 0
        invariant t <= free && s == Probe(h, t, cap)
        invariant forall u :: 0 <= u < t ==>
                  slots[Probe(h, u, cap)] != 0 && entries[slots[Probe(h, u, cap)] - 1].key != k
        decreases free - t
      {
        var i := slots[s] - 1;
        if entries[i].key == k {
          KeyAt(entries, k, i);
          return i;
        }
        s := if s + 1 == cap then 0 else s + 1;
        t := t + 1;
      }
      ProbeMisses(slots[..], entries, |entries|, hash, k, t);
      r := -1;
    }

    method SlotInsert(n: nat)
      requires n < |entries| && n + 1 < slots.Length && Indexes(slots[..], entries, n, hash)
      modifies slots
      ensures Indexes(slots[..], entries, n + 1, hash)
    {
      var cap := slots.Length;
      var h := Home(hash, entries[n].key, cap);
      var s := h;
      ghost var t := 0;
      SomeFree(slots[..], n);
      ghost var free := ReachFree(slots[..], h);
      while slots[s] != 0
        invariant t <= free && s == Probe(h, t, cap)
        invariant forall u :: 0 <= u < t ==> slots[Probe(h, u, cap)] != 0
        decreases free - t
      {
        s := if s + 1 == cap then 0 else s + 1;
        t := t + 1;
      }
      FillSlot(slots[..], entries, n, hash, t);
      ghost var before: seq<nat>, mark: nat := slots[..], n + 1;
      slots[s] := n + 1;
      assert slots[..] == before[s := mark];
    }

    /** Rebuild the hash table from the entries. */
    method Reindex()
      requires Distinct(entries)
      modifies this`slots, slots
      ensures entries == old(entries) && slots.Length >= 2 * (|entries| + 1) && Valid()
      ensures slots == old(slots) || fresh(slots)
    {
      if slots.Length < 2 * (|entries| + 1) {
        var nc := if slots.Length > 0 then slots.Length else 16;
        while nc < 2 * (|entries| + 1)
          invariant nc > 0
        {
          nc := nc * 2;
        }
        slots := new nat[nc];
      }
      var table := slots;
      for p := 0 to table.Length
        invariant slots == table && forall q :: 0 <= q < p ==> table[q] == 0
      {
        table[p] := 0;
      }
      for i := 0 to |entries|
        invariant slots == table && entries == old(entries) && Indexes(table[..], entries, i, hash)
      {
        SlotInsert(i);
      }
    }

    /** Room for one more entry. */
    method Reserve()
      requires Valid()
      modifies this`slots, slots
      ensures Valid() && entries == old(entries) && slots.Length >= 2 * (|entries| + 1)
      ensures slots == old(slots) || fresh(slots)
    {
      if slots.Length < 2 * (|entries| + 1) {
        Reindex();
      }
    }

    method Set(k: Bytes, v: nat)
      requires Valid()
      modifies this`entries, this`slots, slots
      ensures Valid() && entries == SetEntry(old(entries), k, v)
      ensures slots == old(slots) || fresh(slots)
    {
      SetIsUpdate(entries, k, v);
      var i := Find(k);
      ghost var was := entries;
      if i >= 0 {
        entries := entries[i := Entry(k, v)];
        if slots.Length > 0 {
          SameKeys(slots[..], was, entries, |entries|, hash);
        }
        return;
      }
      Reserve();
      entries := entries + [Entry(k, v)];
      SameKeys(slots[..], was, entries, |was|, hash);
      SlotInsert(|entries| - 1);
    }

    /** Count one more occurrence of a key. */
    method Increment(k: Bytes)
      requires Valid()
      modifies this`entries, this`slots, slots
      ensures Valid()
      ensures entries == SetEntry(old(entries), k, if Has(old(entries), k) then Value(old(entries), k) + 1 else 1)
      ensures slots == old(slots) || fresh(slots)
    {
      var i := Find(k);
      if i >= 0 {
        SetIsUpdate(entries, k, entries[i].val + 1);
        ghost var was := entries;
        entries := entries[i := Entry(k, entries[i].val + 1)];
        if slots.Length > 0 {
          SameKeys(slots[..], was, entries, |entries|, hash);
        }
      } else {
        Set(k, 1);
      }
    }

    /** Take a key out; the entries behind it move up. */
    method Remove(k: Bytes)
      requires Valid()
      modifies this`entries, this`slots, slots
      ensures Valid() && entries == RemoveEntry(old(entries), k)
      ensures slots == old(slots) || fresh(slots)
    {
      RemoveIsMinus(entries, k);
      var i := Find(k);
      if i < 0 {
        return;
      }
      entries := entries[..i] + entries[i + 1..];
      Reindex();
    }
  }

  lemma {:induction false} KeyAt(d: Dict, k: Bytes, i: nat)
    requires Distinct(d) && i < |d| && d[i].key == k
    ensures Has(d, k) && IndexOf(d, k) == i
  {
  }
}
