// Postings of the inverted index: per term a header and a chain of blocks, read as one map from
// document to frequency; and what keeps them the transpose of the documents' own term maps.
module Postings {
  import opened RecordFile
  import opened HashDict
  import opened TermKeys

  const BLOCK_DOCS: nat := 16
  const MAX_BLOCKS: nat := 0x100_0000

  /** A value of the index tree: a header's block count, a block, or the corpus length. */
  datatype Val = Count(n: nat) | Posts(d: Dict) | Sum(s: nat)

  type Index = map<IKey, Val>

  // ---- a chain of blocks ----

  ghost predicate BlockOk(d: Dict) {
    Distinct(d) && |d| <= BLOCK_DOCS
  }

  ghost predicate BlocksOk(bs: seq<Dict>) {
    forall i :: 0 <= i < |bs| ==> BlockOk(bs[i])
  }

  /** The blocks merged: an entry in a later block replaces an earlier one. */
  ghost function Merged(bs: seq<Dict>): map<Bytes, nat>
    requires BlocksOk(bs)
  {
    if bs == [] then map[] else Merged(bs[..|bs| - 1]) + AsMap(bs[|bs| - 1])
  }

  lemma MergedSnoc(bs: seq<Dict>, d: Dict)
    requires BlocksOk(bs) && BlockOk(d)
    ensures BlocksOk(bs + [d]) && Merged(bs + [d]) == Merged(bs) + AsMap(d)
  {
    assert (bs + [d])[..|bs|] == bs;
  }

  lemma UpdateOver(a: map<Bytes, nat>, b: map<Bytes, nat>, k: Bytes, v: nat)
    ensures a + b[k := v] == (a + b)[k := v]
  {
  }

  /** Writing a document into the last block changes the merged postings at the document only. */
  lemma SetInLast(bs: seq<Dict>, doc: Bytes, tf: nat)
    requires BlocksOk(bs) && bs != [] && (Has(bs[|bs| - 1], doc) || |bs[|bs| - 1]| < BLOCK_DOCS)
    ensures var r := bs[..|bs| - 1] + [SetEntry(bs[|bs| - 1], doc, tf)];
            BlocksOk(r) && Merged(r) == Merged(bs)[doc := tf]
  {
    var d, init := bs[|bs| - 1], bs[..|bs| - 1];
    assert BlockOk(d);
    SetIsUpdate(d, doc, tf);
    MergedSnoc(init, SetEntry(d, doc, tf));
    UpdateOver(Merged(init), AsMap(d), doc, tf);
  }

  /** So does starting another block with it. */
  lemma StartBlock(bs: seq<Dict>, doc: Bytes, tf: nat)
    requires BlocksOk(bs)
    ensures BlocksOk(bs + [[Entry(doc, tf)]]) && Merged(bs + [[Entry(doc, tf)]]) == Merged(bs)[doc := tf]
  {
    var d: Dict := [Entry(doc, tf)];
    assert [] + d == d;
    SetBehind([], map[], doc, tf);
    HoldsIsMap(d, map[][doc := tf]);
    MergedSnoc(bs, d);
    UpdateOver(Merged(bs), map[], doc, tf);
    assert Merged(bs) + map[] == Merged(bs);
  }

  function WithoutDoc(bs: seq<Dict>, doc: Bytes): (r: seq<Dict>)
    ensures |r| == |bs| && forall i :: 0 <= i < |bs| ==> r[i] == RemoveEntry(bs[i], doc)
  {
    seq(|bs|, i requires 0 <= i < |bs| => RemoveEntry(bs[i], doc))
  }

  lemma MinusOver(a: map<Bytes, nat>, b: map<Bytes, nat>, k: Bytes)
    ensures (a - {k}) + (b - {k}) == (a + b) - {k}
  {
  }

  /** Taking a document out of every block takes it out of the merged postings. */
  lemma {:induction false} MergedWithout(bs: seq<Dict>, doc: Bytes)
    requires BlocksOk(bs)
    ensures BlocksOk(WithoutDoc(bs, doc)) && Merged(WithoutDoc(bs, doc)) == Merged(bs) - {doc}
  {
    if bs != [] {
      var d, init := bs[|bs| - 1], bs[..|bs| - 1];
      assert BlockOk(d);
      MergedWithout(init, doc);
      RemoveIsMinus(d, doc);
      MergedSnoc(WithoutDoc(init, doc), RemoveEntry(d, doc));
      assert WithoutDoc(bs, doc) == WithoutDoc(init, doc) + [RemoveEntry(d, doc)];
      MinusOver(Merged(init), AsMap(d), doc);
    }
  }

  function Entries(bs: seq<Dict>): nat {
    if bs == [] then 0 else Entries(bs[..|bs| - 1]) + |bs[|bs| - 1]|
  }

  /** No entry is left exactly if the merged postings are empty. */
  lemma {:induction false} NoEntries(bs: seq<Dict>)
    requires BlocksOk(bs)
    ensures Entries(bs) == 0 <==> Merged(bs) == map[]
  {
    if bs != [] {
      var d, init := bs[|bs| - 1], bs[..|bs| - 1];
      assert BlockOk(d);
      NoEntries(init);
      EmptyDict(d);
      EmptyOver(Merged(init), AsMap(d));
    }
  }

  lemma EmptyDict(d: Dict)
    requires Distinct(d)
    ensures AsMap(d) == map[] <==> d == []
  {
    if d != [] {
      assert d[0].key in AsMap(d);
    }
  }

  lemma EmptyOver(a: map<Bytes, nat>, b: map<Bytes, nat>)
    ensures a + b == map[] <==> a == map[] && b == map[]
  {
    if a + b == map[] {
      forall k ensures k !in a && k !in b {
        assert k !in a + b;
      }
    }
  }

  /** Read one after the other into one dictionary, the blocks give the merged postings. */
  function ReadAll(bs: seq<Dict>): Dict {
    if bs == [] then [] else SetAll(ReadAll(bs[..|bs| - 1]), bs[|bs| - 1])
  }

  lemma {:induction false} ReadAllIsMerged(bs: seq<Dict>)
    requires BlocksOk(bs)
    ensures Distinct(ReadAll(bs)) && AsMap(ReadAll(bs)) == Merged(bs)
  {
    if bs == [] {
      EmptyDict([]);
    } else {
      assert BlockOk(bs[|bs| - 1]);
      ReadAllIsMerged(bs[..|bs| - 1]);
      SetAllIsOverride(ReadAll(bs[..|bs| - 1]), bs[|bs| - 1]);
    }
  }

  // ---- chains in the index tree ----

  function Blocks(index: Index, t: Bytes): nat {
    if Head(t) in index && index[Head(t)].Count? then index[Head(t)].n else 0
  }

  function BlockAt(index: Index, t: Bytes, i: nat): Dict {
    if Block(t, i) in index && index[Block(t, i)].Posts? then index[Block(t, i)].d else []
  }

  function ChainOf(index: Index, t: Bytes): (bs: seq<Dict>)
    ensures |bs| == Blocks(index, t) && forall i :: 0 <= i < |bs| ==> bs[i] == BlockAt(index, t, i)
  {
    seq(Blocks(index, t), i requires 0 <= i < Blocks(index, t) => BlockAt(index, t, i))
  }

  ghost predicate Stored(index: Index, t: Bytes, i: nat, n: nat) {
    (Block(t, i) in index <==> i < n) && (i < n ==> index[Block(t, i)].Posts?)
  }

  /** A header with exactly its blocks, or no key of the term at all. */
  ghost predicate ChainOk(index: Index, t: Bytes) {
    && (Head(t) in index ==> index[Head(t)].Count? && 1 <= index[Head(t)].n <= MAX_BLOCKS + 1)
    && (forall i: nat :: Stored(index, t, i, Blocks(index, t))) && BlocksOk(ChainOf(index, t))
  }

  /** The postings of a term. */
  ghost function PostingsOf(index: Index, t: Bytes): map<Bytes, nat> {
    if BlocksOk(ChainOf(index, t)) then Merged(ChainOf(index, t)) else map[]
  }

  /** The header and the blocks of a term are these. */
  ghost predicate ChainIs(index: Index, t: Bytes, bs: seq<Dict>) {
    && (if bs == [] then Head(t) !in index else Head(t) in index && index[Head(t)] == Count(|bs|))
    && forall i: nat :: Stored(index, t, i, |bs|) && (i < |bs| ==> index[Block(t, i)].d == bs[i])
  }

  lemma ChainIsChain(index: Index, t: Bytes, bs: seq<Dict>)
    requires ChainIs(index, t, bs) && BlocksOk(bs) && |bs| <= MAX_BLOCKS + 1
    ensures ChainOk(index, t) && ChainOf(index, t) == bs && PostingsOf(index, t) == Merged(bs)
  {
    forall i: nat ensures Stored(index, t, i, Blocks(index, t)) {
      assert Stored(index, t, i, |bs|);
    }
    forall i | 0 <= i < |bs| ensures BlockAt(index, t, i) == bs[i] {
      assert Stored(index, t, i, |bs|);
    }
    assert ChainOf(index, t) == bs;
  }

  lemma ChainIsOwn(index: Index, t: Bytes)
    requires ChainOk(index, t)
    ensures ChainIs(index, t, ChainOf(index, t))
  {
    forall i: nat ensures Stored(index, t, i, Blocks(index, t))
        && (i < Blocks(index, t) ==> index[Block(t, i)].d == ChainOf(index, t)[i]) {
      assert Stored(index, t, i, Blocks(index, t));
    }
  }

  /** The tree after writing one block. */
  lemma WriteLast(index: Index, t: Bytes, bs: seq<Dict>, d: Dict)
    requires ChainIs(index, t, bs) && bs != []
    ensures ChainIs(index[Block(t, |bs| - 1) := Posts(d)], t, bs[..|bs| - 1] + [d])
  {
    var after, r := index[Block(t, |bs| - 1) := Posts(d)], bs[..|bs| - 1] + [d];
    forall i: nat ensures Stored(after, t, i, |r|) && (i < |r| ==> after[Block(t, i)].d == r[i]) {
      assert Stored(index, t, i, |bs|);
    }
  }

  lemma WriteNext(index: Index, t: Bytes, bs: seq<Dict>, d: Dict)
    requires ChainIs(index, t, bs)
    ensures ChainIs(index[Block(t, |bs|) := Posts(d)][Head(t) := Count(|bs| + 1)], t, bs + [d])
  {
    var after, r := index[Block(t, |bs|) := Posts(d)][Head(t) := Count(|bs| + 1)], bs + [d];
    forall i: nat ensures Stored(after, t, i, |r|) && (i < |r| ==> after[Block(t, i)].d == r[i]) {
      assert Stored(index, t, i, |bs|);
    }
  }

  // ---- other terms ----

  /** Two index trees with the same keys and values for a term. */
  ghost predicate SameTerm(a: Index, b: Index, t: Bytes) {
    && (Head(t) in a <==> Head(t) in b) && (Head(t) in a ==> a[Head(t)] == b[Head(t)])
    && forall i: nat :: SameBlock(a, b, t, i)
  }

  ghost predicate SameBlock(a: Index, b: Index, t: Bytes, i: nat) {
    (Block(t, i) in a <==> Block(t, i) in b) && (Block(t, i) in a ==> a[Block(t, i)] == b[Block(t, i)])
  }

  lemma SameTermSame(a: Index, b: Index, t: Bytes)
    requires SameTerm(a, b, t)
    ensures ChainOf(a, t) == ChainOf(b, t) && PostingsOf(a, t) == PostingsOf(b, t)
    ensures ChainOk(a, t) ==> ChainOk(b, t)
  {
    forall i: nat | i < Blocks(a, t) ensures BlockAt(a, t, i) == BlockAt(b, t, i) {
      assert SameBlock(a, b, t, i);
    }
    assert ChainOf(a, t) == ChainOf(b, t);
    if ChainOk(a, t) {
      forall i: nat ensures Stored(b, t, i, Blocks(b, t)) {
        assert SameBlock(a, b, t, i) && Stored(a, t, i, Blocks(a, t));
      }
    }
  }

  /** Changes to the keys of one term leave the others alone. */
  ghost predicate OnlyTerm(a: Index, b: Index, t: Bytes) {
    forall k: IKey :: SameUnless(a, b, t, k)
  }

  ghost predicate SameUnless(a: Index, b: Index, t: Bytes, k: IKey) {
    k.Stats? || k.term != t ==> (k in a <==> k in b) && (k in a ==> a[k] == b[k])
  }

  lemma OtherTerm(a: Index, b: Index, t: Bytes, u: Bytes)
    requires OnlyTerm(a, b, t) && u != t
    ensures SameTerm(a, b, u)
  {
    forall i: nat ensures SameBlock(a, b, u, i) {
      assert SameUnless(a, b, t, Block(u, i));
    }
    assert SameUnless(a, b, t, Head(u));
  }

  // ---- the index beside the documents ----

  /** What the postings of a term must be: the documents that have it, with its frequency there. */
  ghost function Column(docs: map<Bytes, Dict>, t: Bytes): map<Bytes, nat> {
    map doc | doc in docs && Has(docs[doc], t) :: Value(docs[doc], t)
  }

  ghost predicate TermIn(index: Index, t: Bytes) {
    ChainOk(index, t) && (Head(t) in index ==> TermOk(t) && PostingsOf(index, t) != map[])
  }

  /** Keys well formed, chains whole, and no chain without postings. */
  ghost predicate IndexOk(index: Index) {
    (forall t :: TermIn(index, t)) && (Stats in index ==> index[Stats].Sum?)
  }

  ghost predicate Transposed(index: Index, docs: map<Bytes, Dict>) {
    forall t :: PostingsOf(index, t) == Column(docs, t)
  }

  ghost predicate TermsOk(d: Dict) {
    Distinct(d) && forall i :: 0 <= i < |d| ==> TermOk(d[i].key)
  }

  ghost predicate DocsOk(docs: map<Bytes, Dict>) {
    forall doc :: doc in docs ==> TermsOk(docs[doc])
  }

  ghost predicate SameChain(a: Index, b: Index, t: Bytes) {
    PostingsOf(a, t) == PostingsOf(b, t) && Blocks(a, t) == Blocks(b, t)
  }

  ghost predicate OthersSame(a: Index, b: Index, t: Bytes) {
    forall u :: u != t ==> SameChain(a, b, u)
  }

  /** An operation on one term's chain keeps the index whole. */
  lemma OneTerm(a: Index, b: Index, t: Bytes)
    requires IndexOk(a) && OnlyTerm(a, b, t) && TermIn(b, t)
    ensures IndexOk(b) && OthersSame(a, b, t)
  {
    forall u ensures TermIn(b, u) && (u != t ==> SameChain(a, b, u)) {
      if u != t {
        assert TermIn(a, u);
        OtherTerm(a, b, t, u);
        SameTermSame(a, b, u);
      }
    }
    assert SameUnless(a, b, t, Stats);
  }

  /** Terms in use are those with a header. */
  lemma TermsInUse(index: Index, docs: map<Bytes, Dict>, t: Bytes)
    requires IndexOk(index) && Transposed(index, docs)
    ensures Head(t) in index <==> exists doc :: doc in docs && Has(docs[doc], t)
  {
    assert TermIn(index, t) && PostingsOf(index, t) == Column(docs, t);
    if Head(t) in index {
      NonEmpty(Column(docs, t));
    } else {
      assert PostingsOf(index, t) == map[];
      forall doc | doc in docs ensures !Has(docs[doc], t) {
        assert doc !in Column(docs, t);
      }
    }
  }

  lemma NonEmpty(m: map<Bytes, nat>)
    requires m != map[]
    ensures exists k :: k in m
  {
    EmptyOrNot(m.Keys);
  }

  lemma EmptyOrNot(s: set<Bytes>)
    ensures s == {} || exists k :: k in s
  {
  }

  // ---- lengths ----

  function DictSum(d: Dict): nat {
    if d == [] then 0 else DictSum(d[..|d| - 1]) + d[|d| - 1].val
  }

  ghost function Total(m: map<Bytes, nat>): nat
    decreases |m|
  {
    if m == map[] then 0
    else
      NonEmpty(m);
      var k :| k in m;
      m[k] + Total(m - {k})
  }

  lemma {:induction false} TotalMinus(m: map<Bytes, nat>, k: Bytes)
    requires k in m
    ensures Total(m) == m[k] + Total(m - {k})
    decreases |m|
  {
    var j :| j in m && Total(m) == m[j] + Total(m - {j});
    if j != k {
      TotalMinus(m - {j}, k);
      TotalMinus(m - {k}, j);
      assert m - {j} - {k} == m - {k} - {j};
    }
  }

  lemma TotalUpdate(m: map<Bytes, nat>, k: Bytes, v: nat)
    ensures Total(m[k := v]) == Total(m - {k}) + v
    ensures Total(m) == Total(m - {k}) + if k in m then m[k] else 0
  {
    TotalMinus(m[k := v], k);
    assert m[k := v] - {k} == m - {k};
    if k in m {
      TotalMinus(m, k);
    } else {
      assert m - {k} == m;
    }
  }
}
