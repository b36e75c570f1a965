// The document layer: a primary tree of documents with equality indexes beside it, the writes that
// keep them in step, and the planner that answers an equality filter from an index.  A tree is the
// ordered map that the B+ tree modules prove it to be.
module DocIndex {
  import opened RecordFile
  import opened Keys
  import opened KeyEncoding
  import opened OrderedKeys

  type Doc = map<Bytes, Field>

  datatype IndexSpec = IndexSpec(fields: seq<Bytes>, unique: bool, sparse: bool)

  datatype Outcome = Done | Duplicate | DuplicateKey | BadState

  // ---- keys of a document ----

  predicate DocOk(d: Doc) {
    forall f :: f in d ==> InRange(d[f])
  }

  predicate HasAll(ix: IndexSpec, d: Doc) {
    forall i :: 0 <= i < |ix.fields| ==> ix.fields[i] in d
  }

  /** Whether the document should have an entry; without a partial filter. */
  predicate Applies(ix: IndexSpec, d: Doc) {
    ix.sparse ==> HasAll(ix, d)
  }

  function ValuesOf(ix: IndexSpec, d: Doc): (vs: seq<Field>)
    requires HasAll(ix, d)
    ensures |vs| == |ix.fields| && forall i :: 0 <= i < |vs| ==> vs[i] == d[ix.fields[i]]
  {
    seq(|ix.fields|, i requires 0 <= i < |ix.fields| => d[ix.fields[i]])
  }

  predicate Keyed(ix: IndexSpec, d: Doc) {
    HasAll(ix, d) && AllEncodable(ValuesOf(ix, d))
  }

  function PrefixFor(ix: IndexSpec, d: Doc): Bytes
    requires Keyed(ix, d)
  {
    EncodeAll(ValuesOf(ix, d))
  }

  function KeyFor(ix: IndexSpec, d: Doc, id: Bytes): Bytes
    requires Keyed(ix, d)
  {
    CompositeKey(ValuesOf(ix, d), id)
  }

  lemma {:induction false} EncodeSnoc(vs: seq<Field>, v: Field)
    requires AllEncodable(vs) && InRange(v) && Encodable(v)
    ensures AllEncodable(vs + [v]) && EncodeAll(vs + [v]) == EncodeAll(vs) + Encode(v)
  {
    if vs == [] {
      assert [] + [v] == [v] && [v][1..] == [];
      assert Encode(v) + [] == Encode(v) && [] + Encode(v) == Encode(v);
    } else {
      assert (vs + [v])[1..] == vs[1..] + [v];
      EncodeSnoc(vs[1..], v);
      assert Encode(vs[0]) + (EncodeAll(vs[1..]) + Encode(v)) == Encode(vs[0]) + EncodeAll(vs[1..]) + Encode(v);
    }
  }

  /** The first `i` values of the document's key are `vs`. */
  ghost predicate Gathered(ix: IndexSpec, d: Doc, i: nat, vs: seq<Field>, out: Bytes) {
    && i <= |ix.fields| && |vs| == i && (forall k :: 0 <= k < i ==> ix.fields[k] in d && vs[k] == d[ix.fields[k]])
    && AllEncodable(vs) && out == EncodeAll(vs)
  }

  lemma GatherOne(ix: IndexSpec, d: Doc, i: nat, vs: seq<Field>, out: Bytes)
    requires Gathered(ix, d, i, vs, out) && i < |ix.fields| && ix.fields[i] in d
    requires InRange(d[ix.fields[i]]) && Encodable(d[ix.fields[i]])
    ensures Gathered(ix, d, i + 1, vs + [d[ix.fields[i]]], out + Encode(d[ix.fields[i]]))
  {
    EncodeSnoc(vs, d[ix.fields[i]]);
  }

  lemma GatheredAll(ix: IndexSpec, d: Doc, vs: seq<Field>, out: Bytes)
    requires Gathered(ix, d, |ix.fields|, vs, out)
    ensures Keyed(ix, d) && out == PrefixFor(ix, d)
  {
    assert vs == ValuesOf(ix, d);
  }

  /** The value part of a document's key in an index; a missing or unencodable field is an error. */
  method BuildPrefix(ix: IndexSpec, d: Doc) returns (e: Status, out: Bytes)
    requires DocOk(d)
    ensures e == if Keyed(ix, d) then Ok else State
    ensures e == Ok ==> out == PrefixFor(ix, d)
  {
    out := [];
    ghost var vs: seq<Field> := [];
    for i := 0 to |ix.fields|
      invariant Gathered(ix, d, i, vs, out)
    {
      var f := ix.fields[i];
      if f !in d {
        return State, out;
      }
      var was := out;
      e, out := PutValue(was, d[f]);
      if e != Ok {
        NotKeyed(ix, d, i);
        return State, out;
      }
      GatherOne(ix, d, i, vs, was);
      vs := vs + [d[f]];
    }
    e := Ok;
    GatheredAll(ix, d, vs, out);
  }

  lemma NotKeyed(ix: IndexSpec, d: Doc, i: nat)
    requires i < |ix.fields| && ix.fields[i] in d && !Encodable(d[ix.fields[i]])
    ensures !Keyed(ix, d)
  {
    if HasAll(ix, d) {
      assert !Encodable(ValuesOf(ix, d)[i]);
    }
  }

  method BuildKey(ix: IndexSpec, d: Doc, id: Bytes) returns (e: Status, out: Bytes)
    requires DocOk(d) && |id| == 12
    ensures e == if Keyed(ix, d) then Ok else State
    ensures e == Ok ==> out == KeyFor(ix, d, id)
  {
    e, out := BuildPrefix(ix, d);
    if e == Ok {
      out := PutId(out, id);
    }
  }

  // ---- what an index must hold ----

  type Tree = map<Bytes, Bytes>

  ghost predicate EntryFor(ix: IndexSpec, tree: Tree, d: Doc, id: Bytes) {
    Applies(ix, d) ==> Keyed(ix, d) && KeyFor(ix, d, id) in tree && tree[KeyFor(ix, d, id)] == id
  }

  ghost predicate EntryMeant(ix: IndexSpec, docs: map<Bytes, Doc>, k: Bytes, id: Bytes) {
    id in docs && Applies(ix, docs[id]) && Keyed(ix, docs[id]) && k == KeyFor(ix, docs[id], id)
  }

  /** Two documents with the same value part in an index. */
  ghost predicate Clash(ix: IndexSpec, d: Doc, e: Doc) {
    Applies(ix, d) && Applies(ix, e) && Keyed(ix, d) && Keyed(ix, e) && PrefixFor(ix, d) == PrefixFor(ix, e)
  }

  ghost predicate DocsOk(docs: map<Bytes, Doc>) {
    forall id :: id in docs ==> |id| == 12 && DocOk(docs[id])
  }

  /** Exactly one entry per document the index applies to, and in a unique index no two with one value part. */
  ghost predicate Agrees(ix: IndexSpec, tree: Tree, docs: map<Bytes, Doc>) {
    && (forall id :: id in docs ==> EntryFor(ix, tree, docs[id], id))
    && (forall k :: k in tree ==> EntryMeant(ix, docs, k, tree[k]))
    && (ix.unique ==> forall i, j :: i in docs && j in docs && Clash(ix, docs[i], docs[j]) ==> i == j)
  }

  /** The ids an index holds: those of all documents, or in a sparse index of those that have its fields; each once. */
  lemma IdsHeld(ix: IndexSpec, tree: Tree, docs: map<Bytes, Doc>)
    requires Agrees(ix, tree, docs)
    ensures tree.Values == set id | id in docs && (ix.sparse ==> HasAll(ix, docs[id]))
    ensures forall j, k :: j in tree && k in tree && tree[j] == tree[k] ==> j == k
  {
    forall k | k in tree ensures EntryMeant(ix, docs, k, tree[k]) {
    }
    forall id | id in docs && (ix.sparse ==> HasAll(ix, docs[id])) ensures id in tree.Values {
      assert EntryFor(ix, tree, docs[id], id);
    }
  }

  /** Composite keys tell documents apart. */
  lemma KeysDiffer(ix: IndexSpec, d: Doc, i: Bytes, e: Doc, j: Bytes)
    requires Keyed(ix, d) && Keyed(ix, e) && |i| == |j| == 12 && KeyFor(ix, d, i) == KeyFor(ix, e, j)
    ensures i == j && PrefixFor(ix, d) == PrefixFor(ix, e)
  {
    CompositeOrder(ValuesOf(ix, d), ValuesOf(ix, e), i, j);
    TupleOrder(ValuesOf(ix, d), ValuesOf(ix, e), [], []);
  }

  lemma AgreesAdd(ix: IndexSpec, tree: Tree, docs: map<Bytes, Doc>, id: Bytes, d: Doc)
    requires Agrees(ix, tree, docs) && DocsOk(docs) && id !in docs && |id| == 12 && DocOk(d)
    requires Applies(ix, d) && Keyed(ix, d)
    requires ix.unique ==> forall j :: j in docs ==> !Clash(ix, d, docs[j])
    ensures Agrees(ix, tree[KeyFor(ix, d, id) := id], docs[id := d])
  {
    var key := KeyFor(ix, d, id);
    var tree2, docs2 := tree[key := id], docs[id := d];
    forall j | j in docs2 ensures EntryFor(ix, tree2, docs2[j], j) {
      if j != id {
        assert EntryFor(ix, tree, docs[j], j);
        if Applies(ix, docs[j]) && KeyFor(ix, docs[j], j) == key {
          KeysDiffer(ix, docs[j], j, d, id);
        }
      }
    }
    forall k | k in tree2 ensures EntryMeant(ix, docs2, k, tree2[k]) {
      if k != key {
        assert EntryMeant(ix, docs, k, tree[k]);
      }
    }
    if ix.unique {
      forall i, j | i in docs2 && j in docs2 && Clash(ix, docs2[i], docs2[j]) ensures i == j {
        if i != id && j != id {
          assert Clash(ix, docs[i], docs[j]);
        }
        ClashBack(ix, docs2[i], docs2[j]);
      }
    }
  }

  lemma ClashBack(ix: IndexSpec, d: Doc, e: Doc)
    requires Clash(ix, d, e)
    ensures Clash(ix, e, d)
  {
  }

  lemma AgreesSkip(ix: IndexSpec, tree: Tree, docs: map<Bytes, Doc>, id: Bytes, d: Doc)
    requires Agrees(ix, tree, docs) && id !in docs && !Applies(ix, d)
    ensures Agrees(ix, tree, docs[id := d])
  {
    var docs2 := docs[id := d];
    forall j | j in docs2 ensures EntryFor(ix, tree, docs2[j], j) {
      assert j != id ==> EntryFor(ix, tree, docs[j], j);
    }
    forall k | k in tree ensures EntryMeant(ix, docs2, k, tree[k]) {
      assert EntryMeant(ix, docs, k, tree[k]);
    }
    if ix.unique {
      forall i, j | i in docs2 && j in docs2 && Clash(ix, docs2[i], docs2[j]) ensures i == j {
        assert i != id && j != id;
        assert Clash(ix, docs[i], docs[j]);
      }
    }
  }

  lemma AgreesRemove(ix: IndexSpec, tree: Tree, docs: map<Bytes, Doc>, id: Bytes)
    requires Agrees(ix, tree, docs) && DocsOk(docs) && id in docs
    ensures Applies(ix, docs[id]) ==> Keyed(ix, docs[id])
    ensures Agrees(ix, if Applies(ix, docs[id]) then tree - {KeyFor(ix, docs[id], id)} else tree, docs - {id})
  {
    assert EntryFor(ix, tree, docs[id], id);
    var tree2 := if Applies(ix, docs[id]) then tree - {KeyFor(ix, docs[id], id)} else tree;
    var docs2 := docs - {id};
    forall j | j in docs2 ensures EntryFor(ix, tree2, docs2[j], j) {
      OtherEntry(ix, tree, docs, id, j);
    }
    forall k | k in tree2 ensures EntryMeant(ix, docs2, k, tree2[k]) {
      assert EntryMeant(ix, docs, k, tree[k]);
    }
    if ix.unique {
      FewerClash(ix, docs, id);
    }
  }

  lemma FewerClash(ix: IndexSpec, docs: map<Bytes, Doc>, id: Bytes)
    requires forall i, j :: i in docs && j in docs && Clash(ix, docs[i], docs[j]) ==> i == j
    ensures var rest := docs - {id}; forall i, j :: i in rest && j in rest && Clash(ix, rest[i], rest[j]) ==> i == j
  {
  }

  /** Another document's entry is another entry. */
  lemma OtherEntry(ix: IndexSpec, tree: Tree, docs: map<Bytes, Doc>, id: Bytes, j: Bytes)
    requires Agrees(ix, tree, docs) && DocsOk(docs) && id in docs && j in docs && j != id
    ensures EntryFor(ix, tree, docs[j], j)
    ensures Applies(ix, docs[id]) ==> Keyed(ix, docs[id]) && EntryFor(ix, tree - {KeyFor(ix, docs[id], id)}, docs[j], j)
  {
    assert EntryFor(ix, tree, docs[j], j) && EntryFor(ix, tree, docs[id], id);
    if Applies(ix, docs[id]) && Applies(ix, docs[j]) && KeyFor(ix, docs[j], j) == KeyFor(ix, docs[id], id) {
      KeysDiffer(ix, docs[j], j, docs[id], id);
    }
  }

  // ---- looking values up ----

  /** The keys of a tree from a value prefix to the prefix closed by 0xff. */
  ghost predicate InPrefix(prefix: Bytes, k: Bytes) {
    CompareBytes(prefix, k) <= 0 && CompareBytes(k, prefix + [UPPER]) <= 0
  }

  /** In an index that agrees, the range of a prefix holds exactly the documents with that value part. */
  lemma RangeHolds(ix: IndexSpec, tree: Tree, docs: map<Bytes, Doc>, vs: seq<Field>, k: Bytes)
    requires Agrees(ix, tree, docs) && AllEncodable(vs) && |vs| == |ix.fields| && k in tree
    ensures tree[k] in docs && Keyed(ix, docs[tree[k]])
    ensures InPrefix(EncodeAll(vs), k) <==> PrefixFor(ix, docs[tree[k]]) == EncodeAll(vs)
  {
    assert EntryMeant(ix, docs, k, tree[k]);
    PrefixRange(vs, ValuesOf(ix, docs[tree[k]]), tree[k]);
  }

  method KeysInRange(tree: Tree, prefix: Bytes) returns (keys: seq<Bytes>)
    ensures Lists(keys, set k | k in tree && InPrefix(prefix, k))
  {
    var range := set k | k in tree && CompareBytes(prefix, k) <= 0 && CompareBytes(k, prefix + [UPPER]) <= 0;
    assert range == set k | k in tree && InPrefix(prefix, k);
    keys := Stream(range);
  }

  /** Whether some document already has the values of `d` in a unique index. */
  method CheckUniqueOne(ix: IndexSpec, tree: Tree, d: Doc, ghost docs: map<Bytes, Doc>)
    returns (e: Status, conflict: bool)
    requires Agrees(ix, tree, docs) && DocOk(d) && Applies(ix, d)
    ensures e == if Keyed(ix, d) then Ok else State
    ensures e == Ok ==> (conflict <==> exists j :: j in docs && Clash(ix, d, docs[j]))
  {
    conflict := false;
    var prefix;
    e, prefix := BuildPrefix(ix, d);
    if e != Ok {
      return;
    }
    var hits := KeysInRange(tree, prefix);
    HitsAreClashes(ix, tree, docs, d, hits);
    conflict := hits != [];
  }

  /** The range of a document's value part is empty exactly if it clashes with no document. */
  lemma HitsAreClashes(ix: IndexSpec, tree: Tree, docs: map<Bytes, Doc>, d: Doc, hits: seq<Bytes>)
    requires Agrees(ix, tree, docs) && Applies(ix, d) && Keyed(ix, d)
    requires Lists(hits, set k | k in tree && InPrefix(PrefixFor(ix, d), k))
    ensures hits != [] <==> exists j :: j in docs && Clash(ix, d, docs[j])
  {
    if hits != [] {
      var k := hits[0];
      assert k in hits;
      RangeHolds(ix, tree, docs, ValuesOf(ix, d), k);
      assert EntryMeant(ix, docs, k, tree[k]);
      assert Clash(ix, d, docs[tree[k]]);
    }
    if j :| j in docs && Clash(ix, d, docs[j]) {
      assert EntryFor(ix, tree, docs[j], j);
      RangeHolds(ix, tree, docs, ValuesOf(ix, d), KeyFor(ix, docs[j], j));
      assert KeyFor(ix, docs[j], j) in hits;
    }
  }

  // ---- filters ----

  /** Fields compared for equality, whether there are operators at the top level, and everything else. */
  datatype Filter = Filter(eqs: map<Bytes, Field>, operators: bool, rest: Doc -> bool)

  /** How a query compares what a document has under a name, if anything, with a filter's value. */
  type Same = (Option<Field>, Field) -> bool

  /** Only equal encodable values are the same, and a missing field is the same as none of them. */
  ghost predicate SameIsEqual(same: Same) {
    && (forall v, w :: InRange(v) && InRange(w) && Encodable(v) && Encodable(w) && same(Some(v), w) ==>
       CompareFields(v, w) == 0)
    && (forall w :: InRange(w) && Encodable(w) ==> !same(None, w))
  }

  function FieldOf(d: Doc, n: Bytes): Option<Field> {
    if n in d then Some(d[n]) else None
  }

  predicate Matches(f: Filter, same: Same, d: Doc) {
    (forall n :: n in f.eqs ==> same(FieldOf(d, n), f.eqs[n])) && f.rest(d)
  }

  predicate FilterOk(f: Filter) {
    forall n :: n in f.eqs ==> InRange(f.eqs[n])
  }

  /** The filter pins every field of the index to a value. */
  predicate Pinned(ix: IndexSpec, f: Filter) {
    forall i :: 0 <= i < |ix.fields| ==> ix.fields[i] in f.eqs
  }

  ghost predicate FirstPinned(specs: seq<IndexSpec>, f: Filter, i: nat) {
    i < |specs| && Pinned(specs[i], f) && forall k :: 0 <= k < i ==> !Pinned(specs[k], f)
  }

  function PinnedValues(ix: IndexSpec, f: Filter): (vs: seq<Field>)
    requires Pinned(ix, f)
    ensures |vs| == |ix.fields| && forall i :: 0 <= i < |vs| ==> vs[i] == f.eqs[ix.fields[i]]
  {
    seq(|ix.fields|, i requires 0 <= i < |ix.fields| => f.eqs[ix.fields[i]])
  }

  ghost predicate EncodedTo(vs: seq<Field>, i: nat, out: Bytes) {
    i <= |vs| && AllEncodable(vs[..i]) && out == EncodeAll(vs[..i])
  }

  lemma EncodedNext(vs: seq<Field>, i: nat, out: Bytes)
    requires EncodedTo(vs, i, out) && i < |vs| && InRange(vs[i]) && Encodable(vs[i])
    ensures EncodedTo(vs, i + 1, out + Encode(vs[i]))
  {
    EncodeSnoc(vs[..i], vs[i]);
    assert vs[..i + 1] == vs[..i] + [vs[i]];
  }

  lemma EncodedAll(vs: seq<Field>, out: Bytes)
    requires EncodedTo(vs, |vs|, out)
    ensures AllEncodable(vs) && out == EncodeAll(vs)
  {
    assert vs[..|vs|] == vs;
  }

  lemma NotAllEncodable(vs: seq<Field>, i: nat)
    requires i < |vs| && !Encodable(vs[i])
    ensures !AllEncodable(vs)
  {
  }

  method EncodeValues(vs: seq<Field>) returns (e: Status, out: Bytes)
    requires forall k :: 0 <= k < |vs| ==> InRange(vs[k])
    ensures e == if AllEncodable(vs) then Ok else State
    ensures e == Ok ==> out == EncodeAll(vs)
  {
    out := [];
    for i := 0 to |vs|
      invariant EncodedTo(vs, i, out)
    {
      var was := out;
      e, out := PutValue(was, vs[i]);
      if e != Ok {
        NotAllEncodable(vs, i);
        return State, out;
      }
      EncodedNext(vs, i, was);
    }
    e := Ok;
    EncodedAll(vs, out);
  }

  /** Exactly the documents of an index with these values, by ascending id. */
  ghost predicate Candidates(ix: IndexSpec, docs: map<Bytes, Doc>, vs: seq<Field>, ids: seq<Bytes>)
    requires AllEncodable(vs)
  {
    && InOrder(ids)
    && forall id :: id in ids <==>
         id in docs && Applies(ix, docs[id]) && Keyed(ix, docs[id]) && PrefixFor(ix, docs[id]) == EncodeAll(vs)
  }

  /** Keys with one value part are ordered by id. */
  lemma OrderById(ix: IndexSpec, d: Doc, i: Bytes, e: Doc, j: Bytes)
    requires Keyed(ix, d) && Keyed(ix, e) && |i| == |j| == 12 && PrefixFor(ix, d) == PrefixFor(ix, e)
    requires BytesRank(KeyFor(ix, d, i)) < BytesRank(KeyFor(ix, e, j))
    ensures BytesRank(i) < BytesRank(j)
  {
    var vs, ws := ValuesOf(ix, d), ValuesOf(ix, e);
    TupleOrder(vs, ws, [], []);
    assert EncodeAll(vs) + [] == EncodeAll(vs) && EncodeAll(ws) + [] == EncodeAll(ws);
    CompareSelf(EncodeAll(vs));
    CompositeOrder(vs, ws, i, j);
    RankSame(KeyFor(ix, d, i), KeyFor(ix, e, j));
    RankSame(i, j);
  }

  ghost predicate IdsUpTo(tree: Tree, keys: seq<Bytes>, n: nat, ids: seq<Bytes>) {
    |ids| == n <= |keys| && forall m :: 0 <= m < n ==> keys[m] in tree && ids[m] == tree[keys[m]]
  }

  lemma IdsNext(tree: Tree, keys: seq<Bytes>, n: nat, ids: seq<Bytes>)
    requires IdsUpTo(tree, keys, n, ids) && n < |keys| && keys[n] in tree
    ensures IdsUpTo(tree, keys, n + 1, ids + [tree[keys[n]]])
  {
  }

  ghost predicate IdsOf(tree: Tree, keys: seq<Bytes>, ids: seq<Bytes>) {
    IdsUpTo(tree, keys, |keys|, ids)
  }

  lemma KeyNamesDocument(ix: IndexSpec, tree: Tree, docs: map<Bytes, Doc>, k: Bytes)
    requires Agrees(ix, tree, docs) && k in tree
    ensures tree[k] in docs
  {
    assert EntryMeant(ix, docs, k, tree[k]);
  }

  /** Streaming the range of a prefix yields the candidates, by ascending id. */
  lemma RangeIsCandidates(ix: IndexSpec, tree: Tree, docs: map<Bytes, Doc>, vs: seq<Field>, keys: seq<Bytes>,
                          ids: seq<Bytes>)
    requires Agrees(ix, tree, docs) && DocsOk(docs) && AllEncodable(vs) && |vs| == |ix.fields|
    requires Lists(keys, set k | k in tree && InPrefix(EncodeAll(vs), k))
    requires IdsOf(tree, keys, ids)
    ensures Candidates(ix, docs, vs, ids)
  {
    forall m | 0 <= m < |keys|
      ensures EntryMeant(ix, docs, keys[m], ids[m]) && PrefixFor(ix, docs[ids[m]]) == EncodeAll(vs)
    {
      assert keys[m] in keys;
      RangeHolds(ix, tree, docs, vs, keys[m]);
    }
    forall m, n | 0 <= m < n < |ids| ensures BytesRank(ids[m]) < BytesRank(ids[n]) {
      OrderById(ix, docs[ids[m]], ids[m], docs[ids[n]], ids[n]);
    }
    forall id | id in docs && Applies(ix, docs[id]) && Keyed(ix, docs[id]) && PrefixFor(ix, docs[id]) == EncodeAll(vs)
      ensures id in ids {
      var k := KeyFor(ix, docs[id], id);
      assert EntryFor(ix, tree, docs[id], id);
      RangeHolds(ix, tree, docs, vs, k);
      assert k in keys;
      var m :| 0 <= m < |keys| && keys[m] == k;
      assert ids[m] == id;
    }
  }

  /** Equal fields have equal encodings. */
  lemma {:induction false} EqualEncodings(vs: seq<Field>, ws: seq<Field>)
    requires AllEncodable(vs) && AllEncodable(ws) && |vs| == |ws|
             && forall i :: 0 <= i < |vs| ==> CompareFields(vs[i], ws[i]) == 0
    ensures EncodeAll(vs) == EncodeAll(ws)
  {
    if vs != [] {
      CompareOne(vs[0], ws[0], [], []);
      EqualEncodings(vs[1..], ws[1..]);
    }
  }

  /** Every document that matches a filter is among the candidates of an index the filter pins. */
  lemma MatchIsCandidate(ix: IndexSpec, tree: Tree, docs: map<Bytes, Doc>, f: Filter, same: Same, ids: seq<Bytes>,
                         id: Bytes)
    requires Agrees(ix, tree, docs) && DocsOk(docs) && SameIsEqual(same) && FilterOk(f)
    requires Pinned(ix, f) && AllEncodable(PinnedValues(ix, f)) && Candidates(ix, docs, PinnedValues(ix, f), ids)
    requires id in docs && Matches(f, same, docs[id])
    ensures id in ids
  {
    var d, vs := docs[id], PinnedValues(ix, f);
    assert EntryFor(ix, tree, d, id);
    assert HasAll(ix, d) by {
      forall i | 0 <= i < |ix.fields| ensures ix.fields[i] in d {
        assert ix.fields[i] in f.eqs && same(FieldOf(d, ix.fields[i]), f.eqs[ix.fields[i]]);
        assert Encodable(vs[i]);
      }
    }
    var ws := ValuesOf(ix, d);
    forall i | 0 <= i < |ws| ensures CompareFields(ws[i], vs[i]) == 0 {
      assert ix.fields[i] in f.eqs && same(FieldOf(d, ix.fields[i]), f.eqs[ix.fields[i]]);
    }
    EqualEncodings(ws, vs);
  }

  // ---- writes ----

  ghost predicate AgreesAll(specs: seq<IndexSpec>, trees: seq<Tree>, docs: map<Bytes, Doc>) {
    |trees| == |specs| && forall i :: 0 <= i < |specs| ==> Agrees(specs[i], trees[i], docs)
  }

  /** No unique index has another document with the values of `d`, and it can be keyed there. */
  ghost predicate Admits(ix: IndexSpec, docs: map<Bytes, Doc>, d: Doc) {
    ix.unique && Applies(ix, d) ==> Keyed(ix, d) && forall j :: j in docs ==> !Clash(ix, d, docs[j])
  }

  /** What an index demands of a document beside the others. */
  ghost predicate Accepts(ix: IndexSpec, docs: map<Bytes, Doc>, d: Doc) {
    Applies(ix, d) ==> Keyed(ix, d) && (ix.unique ==> forall j :: j in docs ==> !Clash(ix, d, docs[j]))
  }

  /**
   * The same in terms of the document's fields: a sparse index takes any document that lacks one;
   * every other index needs all of them, each encodable, and a unique one values no other document has.
   */
  ghost predicate TakesIn(ix: IndexSpec, docs: map<Bytes, Doc>, d: Doc) {
    || (ix.sparse && !HasAll(ix, d))
    || (Keyed(ix, d)
        && (ix.unique ==> forall j :: j in docs && Keyed(ix, docs[j]) ==> PrefixFor(ix, docs[j]) != PrefixFor(ix, d)))
  }

  lemma AcceptsIsTakesIn(ix: IndexSpec, docs: map<Bytes, Doc>, d: Doc)
    ensures Accepts(ix, docs, d) <==> TakesIn(ix, docs, d)
    ensures Admits(ix, docs, d) <==> (ix.unique ==> TakesIn(ix, docs, d))
  {
    if Keyed(ix, d) {
      forall j | j in docs ensures Clash(ix, d, docs[j]) <==>
                                   Keyed(ix, docs[j]) && PrefixFor(ix, docs[j]) == PrefixFor(ix, d) {
      }
    }
  }

  lemma AcceptsAllIsTakesIn(specs: seq<IndexSpec>, docs: map<Bytes, Doc>, d: Doc)
    ensures AcceptsAll(specs, docs, d) <==> forall i :: 0 <= i < |specs| ==> TakesIn(specs[i], docs, d)
  {
    forall i | 0 <= i < |specs| ensures Accepts(specs[i], docs, d) <==> TakesIn(specs[i], docs, d) {
      AcceptsIsTakesIn(specs[i], docs, d);
    }
  }

  /** What adding a document does to an index: one entry under its key; none in a sparse index it lacks a field of. */
  ghost predicate Entered(ix: IndexSpec, was: Tree, now: Tree, d: Doc, id: Bytes) {
    if ix.sparse && !HasAll(ix, d) then now == was else Keyed(ix, d) && now == was[KeyFor(ix, d, id) := id]
  }

  ghost predicate EnteredAll(specs: seq<IndexSpec>, was: seq<Tree>, now: seq<Tree>, d: Doc, id: Bytes) {
    |was| == |now| == |specs| && forall i :: 0 <= i < |specs| ==> Entered(specs[i], was[i], now[i], d, id)
  }

  /**
   * A write that fails after its old entries were removed leaves the document without them: the
   * index then agrees with the documents only if it never applied to this one.
   */
  lemma FailedRewrite(ix: IndexSpec, tree: Tree, docs: map<Bytes, Doc>, id: Bytes)
    requires Agrees(ix, tree, docs - {id}) && DocsOk(docs) && id in docs
    ensures Agrees(ix, tree, docs) <==> !Applies(ix, docs[id])
  {
    if Applies(ix, docs[id]) {
      NoEntry(ix, tree, docs - {id}, id, docs[id]);
    } else {
      AgreesSkip(ix, tree, docs - {id}, id, docs[id]);
      assert (docs - {id})[id := docs[id]] == docs;
    }
  }

  lemma NoEntry(ix: IndexSpec, tree: Tree, docs: map<Bytes, Doc>, id: Bytes, d: Doc)
    requires Agrees(ix, tree, docs) && id !in docs && Applies(ix, d)
    ensures !EntryFor(ix, tree, d, id)
  {
    if Keyed(ix, d) && KeyFor(ix, d, id) in tree {
      assert EntryMeant(ix, docs, KeyFor(ix, d, id), tree[KeyFor(ix, d, id)]);
    }
  }

  /** Some index must hold the document and cannot. */
  ghost predicate Unkeyed(specs: seq<IndexSpec>, d: Doc) {
    exists i :: 0 <= i < |specs| && Applies(specs[i], d) && !Keyed(specs[i], d)
  }

  /** Some unique index has another document with its values. */
  ghost predicate Taken(specs: seq<IndexSpec>, docs: map<Bytes, Doc>, d: Doc) {
    exists i, j :: 0 <= i < |specs| && specs[i].unique && j in docs && Clash(specs[i], d, docs[j])
  }

  /** What an error says of the write. */
  ghost predicate Blames(o: Outcome, specs: seq<IndexSpec>, docs: map<Bytes, Doc>, d: Doc) {
    (o == DuplicateKey ==> Taken(specs, docs, d)) && (o == BadState ==> Unkeyed(specs, d))
  }

  /** Index `i` is the first to refuse `d`. */
  ghost predicate FirstRefusal(specs: seq<IndexSpec>, docs: map<Bytes, Doc>, d: Doc, i: nat) {
    i < |specs| && !Accepts(specs[i], docs, d) && forall k :: 0 <= k < i ==> Accepts(specs[k], docs, d)
  }

  /** Indexes before `i` know the document beside those of `base`; from there on they do not. */
  ghost predicate IndexedUpTo(specs: seq<IndexSpec>, trees: seq<Tree>, base: map<Bytes, Doc>, id: Bytes, d: Doc,
                              i: nat) {
    && |trees| == |specs|
    && (forall k :: 0 <= k < |specs| && k < i ==> Agrees(specs[k], trees[k], base[id := d]))
    && (forall k :: 0 <= k < |specs| && i <= k ==> Agrees(specs[k], trees[k], base))
  }

  /** What a write leaves that fails after the document was stored. */
  ghost predicate HalfIndexed(specs: seq<IndexSpec>, trees: seq<Tree>, base: map<Bytes, Doc>, id: Bytes, d: Doc) {
    exists i: nat :: FirstRefusal(specs, base, d, i) && IndexedUpTo(specs, trees, base, id, d, i)
  }

  /** The index that refused the document has no entry for it. */
  lemma HalfIndexedBreaks(specs: seq<IndexSpec>, trees: seq<Tree>, base: map<Bytes, Doc>, id: Bytes, d: Doc)
    requires HalfIndexed(specs, trees, base, id, d) && id !in base
    ensures !AgreesAll(specs, trees, base[id := d])
  {
    var i: nat :| FirstRefusal(specs, base, d, i) && IndexedUpTo(specs, trees, base, id, d, i);
    NoEntry(specs[i], trees[i], base, id, d);
    assert base[id := d][id] == d;
  }

  predicate AppliesNowhere(specs: seq<IndexSpec>, d: Doc) {
    forall i :: 0 <= i < |specs| ==> !Applies(specs[i], d)
  }

  /** With the entries of `id` gone, all indexes agree exactly if none applied to its document. */
  lemma RemovedBreaks(specs: seq<IndexSpec>, trees: seq<Tree>, docs: map<Bytes, Doc>, id: Bytes)
    requires AgreesAll(specs, trees, docs - {id}) && DocsOk(docs) && id in docs
    ensures AgreesAll(specs, trees, docs) <==> AppliesNowhere(specs, docs[id])
  {
    forall i | 0 <= i < |specs| ensures Agrees(specs[i], trees[i], docs) <==> !Applies(specs[i], docs[id]) {
      FailedRewrite(specs[i], trees[i], docs, id);
    }
  }

  /** When the indexes agree after a rewrite. */
  lemma RewriteLeaves(specs: seq<IndexSpec>, trees: seq<Tree>, docs: map<Bytes, Doc>, id: Bytes, d: Doc,
                      after: map<Bytes, Doc>, done: bool)
    requires DocsOk(docs) && id in docs && DocOk(d)
    requires done <==> AcceptsAll(specs, docs - {id}, d)
    requires done ==> AgreesAll(specs, trees, (docs - {id})[id := d])
    requires !AdmitsAll(specs, docs - {id}, d) ==> after == docs && AgreesAll(specs, trees, docs - {id})
    requires AdmitsAll(specs, docs - {id}, d) ==> after == docs[id := d]
    requires AdmitsAll(specs, docs - {id}, d) && !done ==> HalfIndexed(specs, trees, docs - {id}, id, d)
    ensures DocsOk(after) && (done ==> after == docs[id := d])
    ensures AgreesAll(specs, trees, after) <==>
            done || (!AdmitsAll(specs, docs - {id}, d) && AppliesNowhere(specs, docs[id]))
  {
    PutBack(docs, id, d);
    AcceptedIsAdmitted(specs, docs - {id}, d);
    if !AdmitsAll(specs, docs - {id}, d) {
      RemovedBreaks(specs, trees, docs, id);
    } else if !done {
      HalfIndexedBreaks(specs, trees, docs - {id}, id, d);
    }
  }

  ghost predicate AdmitsAll(specs: seq<IndexSpec>, docs: map<Bytes, Doc>, d: Doc) {
    forall i :: 0 <= i < |specs| ==> Admits(specs[i], docs, d)
  }

  ghost predicate AcceptsAll(specs: seq<IndexSpec>, docs: map<Bytes, Doc>, d: Doc) {
    forall i :: 0 <= i < |specs| ==> Accepts(specs[i], docs, d)
  }

  lemma AcceptedIsAdmitted(specs: seq<IndexSpec>, docs: map<Bytes, Doc>, d: Doc)
    ensures AcceptsAll(specs, docs, d) ==> AdmitsAll(specs, docs, d)
  {
    forall i | 0 <= i < |specs| ensures Accepts(specs[i], docs, d) ==> Admits(specs[i], docs, d) {
    }
  }

  lemma PutBack(docs: map<Bytes, Doc>, id: Bytes, d: Doc)
    ensures (docs - {id})[id := d] == docs[id := d]
  {
  }

  class Collection {
    const specs: seq<IndexSpec>
    var docs: map<Bytes, Doc>
    var trees: seq<Tree>

    ghost predicate Valid()
      reads this
    {
      DocsOk(docs) && AgreesAll(specs, trees, docs)
    }

    constructor (specs: seq<IndexSpec>)
      ensures Valid() && this.specs == specs && docs == map[]
    {
      this.specs, docs, trees := specs, map[], seq(|specs|, _ => map[]);
    }

    /** An index that is not sparse holds the ids of exactly the documents. */
    lemma IdsOfAll(i: nat)
      requires Valid() && i < |specs| && !specs[i].sparse
      ensures trees[i].Values == docs.Keys
    {
      IdsHeld(specs[i], trees[i], docs);
    }

    method CheckUnique(d: Doc, ghost base: map<Bytes, Doc>) returns (o: Outcome)
      requires AgreesAll(specs, trees, base) && DocOk(d)
      ensures o == Done <==> AdmitsAll(specs, base, d)
      ensures o in {Done, DuplicateKey, BadState} && Blames(o, specs, base, d)
    {
      for i := 0 to |specs|
        invariant forall k :: 0 <= k < i ==> Admits(specs[k], base, d)
      {
        if !specs[i].unique || !Applies(specs[i], d) {
          continue;
        }
        var e, conflict := CheckUniqueOne(specs[i], trees[i], d, base);
        if e != Ok {
          return BadState;
        }
        if conflict {
          return DuplicateKey;
        }
      }
      o := Done;
    }

    method AddToOneIndex(i: nat, d: Doc, id: Bytes, ghost base: map<Bytes, Doc>) returns (o: Outcome)
      requires i < |specs| == |trees| && Agrees(specs[i], trees[i], base) && DocsOk(base)
      requires id !in base && |id| == 12 && DocOk(d)
      modifies this`trees
      ensures |trees| == |specs| && forall k :: 0 <= k < |specs| && k != i ==> trees[k] == old(trees[k])
      ensures o == Done <==> Accepts(specs[i], base, d)
      ensures o == Done ==> Agrees(specs[i], trees[i], base[id := d])
      ensures o == Done ==> Entered(specs[i], old(trees[i]), trees[i], d, id)
      ensures o != Done ==> trees == old(trees)
      ensures o in {Done, DuplicateKey, BadState} && Blames(o, specs, base, d)
    {
      var ix := specs[i];
      if !Applies(ix, d) {
        AgreesSkip(ix, trees[i], base, id, d);
        return Done;
      }
      if ix.unique {
        var e, conflict := CheckUniqueOne(ix, trees[i], d, base);
        if e != Ok {
          return BadState;
        }
        if conflict {
          return DuplicateKey;
        }
      }
      var e, key := BuildKey(ix, d, id);
      if e != Ok {
        return BadState;
      }
      AgreesAdd(ix, trees[i], base, id, d);
      trees := trees[i := trees[i][key := id]];
      o := Done;
    }

    method AddToIndexes(d: Doc, id: Bytes, ghost base: map<Bytes, Doc>) returns (o: Outcome)
      requires AgreesAll(specs, trees, base) && DocsOk(base) && id !in base && |id| == 12 && DocOk(d)
      modifies this`trees
      ensures o == Done <==> AcceptsAll(specs, base, d)
      ensures o == Done ==> AgreesAll(specs, trees, base[id := d]) && EnteredAll(specs, old(trees), trees, d, id)
      ensures o != Done ==> HalfIndexed(specs, trees, base, id, d)
      ensures o in {Done, DuplicateKey, BadState} && Blames(o, specs, base, d)
    {
      for i := 0 to |specs|
        invariant forall k :: 0 <= k < i ==> Accepts(specs[k], base, d)
        invariant IndexedUpTo(specs, trees, base, id, d, i)
        invariant forall k :: 0 <= k < i ==> Entered(specs[k], old(trees[k]), trees[k], d, id)
        invariant forall k :: i <= k < |specs| ==> trees[k] == old(trees[k])
      {
        o := AddToOneIndex(i, d, id, base);
        if o != Done {
          assert FirstRefusal(specs, base, d, i);
          return;
        }
      }
      o := Done;
    }

    method RemoveFromIndexes(d: Doc, id: Bytes)
      requires Valid() && id in docs && docs[id] == d
      modifies this`trees
      ensures AgreesAll(specs, trees, docs - {id})
    {
      for i := 0 to |specs|
        invariant |trees| == |specs|
        invariant forall k :: 0 <= k < i ==> Agrees(specs[k], trees[k], docs - {id})
        invariant forall k :: i <= k < |specs| ==> Agrees(specs[k], trees[k], docs)
      {
        RemoveFromOneIndex(i, d, id);
      }
    }

    method RemoveFromOneIndex(i: nat, d: Doc, id: Bytes)
      requires DocsOk(docs) && i < |specs| == |trees| && Agrees(specs[i], trees[i], docs) && id in docs && docs[id] == d
      modifies this`trees
      ensures |trees| == |specs| && forall k :: 0 <= k < |specs| && k != i ==> trees[k] == old(trees[k])
      ensures Agrees(specs[i], trees[i], docs - {id})
    {
      AgreesRemove(specs[i], trees[i], docs, id);
      if Applies(specs[i], d) {
        var e, key := BuildKey(specs[i], d, id);
        trees := trees[i := trees[i] - {key}];
      }
    }

    /** Check a document against the indexes, store it, and add its entries; `base` is every other document. */
    method CheckAndStore(id: Bytes, d: Doc, ghost base: map<Bytes, Doc>) returns (o: Outcome)
      requires AgreesAll(specs, trees, base) && DocsOk(base) && id !in base && |id| == 12 && DocOk(d)
      modifies this
      ensures o == Done <==> AcceptsAll(specs, base, d)
      ensures o == Done ==> AgreesAll(specs, trees, base[id := d]) && EnteredAll(specs, old(trees), trees, d, id)
      ensures o in {Done, DuplicateKey, BadState} && Blames(o, specs, base, d)
      ensures !AdmitsAll(specs, base, d) ==> docs == old(docs) && trees == old(trees)
      ensures AdmitsAll(specs, base, d) ==> docs == old(docs)[id := d]
      ensures AdmitsAll(specs, base, d) && o != Done ==> HalfIndexed(specs, trees, base, id, d)
    {
      AcceptedIsAdmitted(specs, base, d);
      o := CheckUnique(d, base);
      if o == Done {
        docs := docs[id := d];
        o := AddToIndexes(d, id, base);
      }
    }

    /**
     * Insert a document under a new id.  Unless it fails after the document was stored - which takes
     * an index without the unique mark that the document cannot be keyed in - the indexes keep agreeing.
     * It succeeds exactly if every index takes the document in, and then each has one entry more, but
     * for the sparse ones that the document lacks a field of.
     */
    method InsertOne(id: Bytes, d: Doc) returns (o: Outcome)
      requires Valid() && |id| == 12 && DocOk(d)
      modifies this
      ensures o == Done <==> id !in old(docs) && AcceptsAll(specs, old(docs), d)
      ensures o == Done <==> id !in old(docs) && forall i :: 0 <= i < |specs| ==> TakesIn(specs[i], old(docs), d)
      ensures o == Done ==> docs == old(docs)[id := d] && EnteredAll(specs, old(trees), trees, d, id)
      ensures (o == Duplicate <==> id in old(docs)) && Blames(o, specs, old(docs), d)
      ensures id in old(docs) || !AdmitsAll(specs, old(docs), d) ==> docs == old(docs) && trees == old(trees)
      ensures id !in old(docs) && AdmitsAll(specs, old(docs), d) && o != Done ==>
        docs == old(docs)[id := d] && HalfIndexed(specs, trees, old(docs), id, d)
      ensures Valid() <==> o == Done || id in old(docs) || !AdmitsAll(specs, old(docs), d)
    {
      if id in docs {
        return Duplicate;
      }
      ghost var base := docs;
      AcceptsAllIsTakesIn(specs, base, d);
      o := CheckAndStore(id, d, base);
      if o != Done && AdmitsAll(specs, base, d) {
        HalfIndexedBreaks(specs, trees, base, id, d);
      }
    }

    /**
     * Replace or update the document found under `id`.  The old entries go first and do not come
     * back on failure: the indexes agree afterwards exactly if the write succeeded, or was refused
     * before the store and no index applied to the old document.
     */
    method RewriteOne(id: Bytes, d: Doc) returns (o: Outcome)
      requires Valid() && id in docs && DocOk(d)
      modifies this
      ensures o == Done <==> AcceptsAll(specs, old(docs) - {id}, d)
      ensures o in {Done, DuplicateKey, BadState} && Blames(o, specs, old(docs) - {id}, d)
      ensures o == Done ==> docs == old(docs)[id := d]
      ensures !AdmitsAll(specs, old(docs) - {id}, d) ==> docs == old(docs) && AgreesAll(specs, trees, docs - {id})
      ensures AdmitsAll(specs, old(docs) - {id}, d) && o != Done ==>
        docs == old(docs)[id := d] && HalfIndexed(specs, trees, old(docs) - {id}, id, d)
      ensures Valid() <==> o == Done || (!AdmitsAll(specs, old(docs) - {id}, d) && AppliesNowhere(specs, old(docs)[id]))
    {
      RemoveFromIndexes(docs[id], id);
      ghost var base := docs - {id};
      o := CheckAndStore(id, d, base);
      RewriteLeaves(specs, trees, old(docs), id, d, docs, o == Done);
    }

    /** Delete the document found under `id`. */
    method DeleteOne(id: Bytes)
      requires Valid() && id in docs
      modifies this
      ensures Valid() && docs == old(docs) - {id}
    {
      RemoveFromIndexes(docs[id], id);
      docs := docs - {id};
    }

    // ---- queries ----

    /** The first index whose every field the filter pins to a value; none when the filter has operators at its top. */
    method Plan(f: Filter) returns (r: Option<nat>)
      ensures r.Some? ==> !f.operators && FirstPinned(specs, f, r.value)
      ensures r.None? ==> f.operators || forall i :: 0 <= i < |specs| ==> !Pinned(specs[i], f)
    {
      if f.operators {
        return None;
      }
      for i := 0 to |specs|
        invariant forall k :: 0 <= k < i ==> !Pinned(specs[k], f)
      {
        if Pinned(specs[i], f) {
          return Some(i);
        }
      }
      r := None;
    }

    /** The ids of the documents with these values in index `i`, in key order. */
    method FindByIndex(i: nat, vs: seq<Field>) returns (e: Status, ids: seq<Bytes>)
      requires Valid() && i < |specs| && |vs| == |specs[i].fields| && forall k :: 0 <= k < |vs| ==> InRange(vs[k])
      ensures e == if AllEncodable(vs) then Ok else State
      ensures e == Ok ==> Candidates(specs[i], docs, vs, ids)
    {
      ids := [];
      var prefix;
      e, prefix := EncodeValues(vs);
      if e != Ok {
        return;
      }
      ghost var keys;
      keys, ids := RangeIds(i, prefix);
      RangeIsCandidates(specs[i], trees[i], docs, vs, keys, ids);
    }

    /** The ids that the keys in the range of a prefix hold, each naming a document. */
    method RangeIds(i: nat, prefix: Bytes) returns (ghost keys: seq<Bytes>, ids: seq<Bytes>)
      requires Valid() && i < |specs|
      ensures Lists(keys, set k | k in trees[i] && InPrefix(prefix, k))
      ensures IdsOf(trees[i], keys, ids)
    {
      var found := KeysInRange(trees[i], prefix);
      keys := found;
      assert forall k :: k in found ==> k in trees[i];
      ids := IdsNamed(i, found);
    }

    method IdsNamed(i: nat, keys: seq<Bytes>) returns (ids: seq<Bytes>)
      requires Valid() && i < |specs| && forall k :: k in keys ==> k in trees[i]
      ensures IdsOf(trees[i], keys, ids)
    {
      ids := [];
      for n := 0 to |keys|
        invariant IdsUpTo(trees[i], keys, n, ids)
      {
        KeyNamesDocument(specs[i], trees[i], docs, keys[n]);
        if trees[i][keys[n]] in docs {
          IdsNext(trees[i], keys, n, ids);
          ids := ids + [trees[i][keys[n]]];
        }
      }
    }

    /**
     * Every document that matches, by ascending id - by the same list whether an index or the
     * whole collection is read.  The only failure is a pinned value that cannot be encoded.
     */
    method GatherMatches(f: Filter, same: Same) returns (e: Status, ids: seq<Bytes>)
      requires Valid() && SameIsEqual(same) && FilterOk(f)
      ensures e == Ok ==> Lists(ids, set id | id in docs && Matches(f, same, docs[id]))
      ensures e == Ok ==> forall id :: id in ids <==>
                && id in docs && f.rest(docs[id])
                && forall n :: n in f.eqs ==> same(if n in docs[id] then Some(docs[id][n]) else None, f.eqs[n])
      ensures e != Ok <==> !f.operators && exists i: nat ::
                FirstPinned(specs, f, i) && !AllEncodable(PinnedValues(specs[i], f))
    {
      var from;
      e, from := Source(f, same);
      ids := [];
      if e == Ok {
        ids := FilterIds(from, f, same);
      }
    }

    /** The documents to look at: those the planned index gives, or all of them. */
    method Source(f: Filter, same: Same) returns (e: Status, from: seq<Bytes>)
      requires Valid() && SameIsEqual(same) && FilterOk(f)
      ensures e == Ok ==> InOrder(from) && forall id :: id in from ==> id in docs
      ensures e == Ok ==> forall id :: id in docs && Matches(f, same, docs[id]) ==> id in from
      ensures e != Ok <==> !f.operators && exists i: nat ::
                FirstPinned(specs, f, i) && !AllEncodable(PinnedValues(specs[i], f))
    {
      var p := Plan(f);
      if p.None? {
        from := Stream(docs.Keys);
        return Ok, from;
      }
      e, from := FindByIndex(p.value, PinnedValues(specs[p.value], f));
      if e == Ok {
        forall id | id in docs && Matches(f, same, docs[id]) ensures id in from {
          MatchIsCandidate(specs[p.value], trees[p.value], docs, f, same, from, id);
        }
      }
    }

    /** The candidates that match, in the same order. */
    method FilterIds(from: seq<Bytes>, f: Filter, same: Same) returns (ids: seq<Bytes>)
      requires InOrder(from) && forall k :: k in from ==> k in docs
      ensures InOrder(ids) && forall k :: k in ids <==> k in from && Matches(f, same, docs[k])
    {
      ids := [];
      for n := 0 to |from|
        invariant InOrder(ids) && forall k :: k in ids <==> k in from[..n] && Matches(f, same, docs[k])
        invariant ids != [] ==> n > 0 && BytesRank(ids[|ids| - 1]) <= BytesRank(from[n - 1])
      {
        assert from[..n + 1] == from[..n] + [from[n]];
        if Matches(f, same, docs[from[n]]) {
          ids := ids + [from[n]];
        }
      }
      assert from[..|from|] == from;
    }
  }

  // ---- a write that breaks the agreement ----

  const FIELD: Bytes := [97]
  const ONE: Doc := map[FIELD := StringField([49])]
  const TWO: Doc := map[FIELD := StringField([50])]
  const BY_FIELD := IndexSpec([FIELD], true, false)

  lemma OneAndTwo()
    ensures DocOk(ONE) && DocOk(TWO) && Applies(BY_FIELD, ONE) && Applies(BY_FIELD, TWO)
    ensures Keyed(BY_FIELD, ONE) && Keyed(BY_FIELD, TWO)
    ensures Clash(BY_FIELD, ONE, ONE) && !Clash(BY_FIELD, TWO, ONE)
  {
    var vs, ws := ValuesOf(BY_FIELD, ONE), ValuesOf(BY_FIELD, TWO);
    assert vs == [StringField([49])] && ws == [StringField([50])];
    assert EncodeAll(vs) == Encode(vs[0]) + EncodeAll(vs[1..]) && EncodeAll(ws) == Encode(ws[0]) + EncodeAll(ws[1..]);
    assert EncodeAll(vs)[1] == 49 && EncodeAll(ws)[1] == 50;
  }

  /** The state after the clash, from what a rewrite promises. */
  lemma ClashLeaves(specs: seq<IndexSpec>, docs: map<Bytes, Doc>, i: Bytes, j: Bytes)
    requires specs == [BY_FIELD] && docs == map[i := ONE, j := TWO] && i != j
    ensures docs - {j} == map[i := ONE] && docs[j] == TWO
    ensures !AdmitsAll(specs, docs - {j}, ONE) && !Unkeyed(specs, ONE) && !AppliesNowhere(specs, TWO)
  {
    OneAndTwo();
    var base := docs - {j};
    assert base == map[i := ONE] && specs[0] == BY_FIELD;
    assert i in base && Clash(specs[0], ONE, base[i]);
    assert !Admits(specs[0], base, ONE) && Applies(specs[0], TWO);
  }

  /** In a collection of two documents with one unique index, the second is replaced by one with the first's value. */
  method ClashingRewrite(c: Collection, i: Bytes, j: Bytes) returns (o: Outcome)
    requires c.Valid() && c.specs == [BY_FIELD] && c.docs == map[i := ONE, j := TWO] && i != j
    modifies c
    ensures o == DuplicateKey && c.docs == old(c.docs) && !c.Valid()
    ensures AgreesAll(c.specs, c.trees, map[i := ONE]) && !AgreesAll(c.specs, c.trees, c.docs)
  {
    ClashLeaves(c.specs, c.docs, i, j);
    OneAndTwo();
    AcceptedIsAdmitted(c.specs, c.docs - {j}, ONE);
    o := c.RewriteOne(j, ONE);
  }

  /** Such a collection is reached by two inserts. */
  method TwoInserts(i: Bytes, j: Bytes) returns (c: Collection)
    requires |i| == |j| == 12 && i != j
    ensures fresh(c) && c.Valid() && c.specs == [BY_FIELD] && c.docs == map[i := ONE, j := TWO]
  {
    OneAndTwo();
    c := new Collection([BY_FIELD]);
    var o := c.InsertOne(i, ONE);
    assert c.docs == map[i := ONE];
    o := c.InsertOne(j, TWO);
  }
}
