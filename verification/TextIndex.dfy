// The inverted index: adding, replacing and removing documents, and the query for documents that
// hold every term.  A text is given as its term counts; the trees are ordered maps.
module TextIndex {
  import opened RecordFile
  import opened Keys
  import opened OrderedKeys
  import opened HashDict
  import opened TermKeys
  import opened Postings

  ghost predicate LengthsOk(docs: map<Bytes, Dict>, lengths: map<Bytes, nat>) {
    docs.Keys == lengths.Keys && forall doc :: doc in docs ==> lengths[doc] == DictSum(docs[doc])
  }

  /** The stored corpus length; a fresh index has none. */
  ghost predicate CorpusOk(index: Index, lengths: map<Bytes, nat>) {
    if Stats in index then index[Stats] == Sum(Total(lengths)) else lengths == map[]
  }

  // ---- scanning a chain ----

  lemma KeysOk(index: Index, k: IKey)
    requires IndexOk(index) && k in index
    ensures KeyOk(k)
  {
    if !k.Stats? {
      assert TermIn(index, k.term);
      if k.Block? {
        assert Stored(index, k.term, k.i, Blocks(index, k.term));
        assert Pow16(8) == 16 * (16 * (16 * (16 * (16 * (16 * (16 * (16 * Pow16(0))))))));
      }
    }
  }

  function ChainKeys(t: Bytes, n: nat): (ks: seq<IKey>)
    ensures |ks| == n + 1 && ks[0] == Head(t) && forall i :: 1 <= i <= n ==> ks[i] == Block(t, i - 1)
  {
    [Head(t)] + seq(n, i requires 0 <= i < n => Block(t, i))
  }

  ghost predicate AllOk(ks: seq<IKey>) {
    forall i :: 0 <= i < |ks| ==> KeyOk(ks[i])
  }

  ghost function BytesOf(ks: seq<IKey>): (bs: seq<Bytes>)
    requires AllOk(ks)
    ensures |bs| == |ks| && forall i :: 0 <= i < |ks| ==> bs[i] == KeyBytes(ks[i])
  {
    seq(|ks|, i requires 0 <= i < |ks| => KeyBytes(ks[i]))
  }

  /** The bytes of a chain's keys ascend from the header through the blocks. */
  lemma ChainAscends(t: Bytes, n: nat)
    requires TermOk(t) && AllOk(ChainKeys(t, n))
    ensures InOrder(BytesOf(ChainKeys(t, n)))
  {
    var ks := ChainKeys(t, n);
    forall i, j | 0 <= i < j < |ks| ensures BytesRank(KeyBytes(ks[i])) < BytesRank(KeyBytes(ks[j])) {
      assert KeyOk(ks[i]) && KeyOk(ks[j]);
      ChainOrder(t, ks[i], ks[j]);
      RankSame(KeyBytes(ks[i]), KeyBytes(ks[j]));
    }
  }

  /** Whether a key of the tree lies between a term's header and its upper bound. */
  ghost predicate Ranged(index: Index, t: Bytes, k: IKey) {
    k in index && KeyOk(k) && InTermRange(t, k)
  }

  lemma ChainInTree(index: Index, t: Bytes, i: nat)
    requires IndexOk(index) && i <= Blocks(index, t) && Blocks(index, t) > 0
    ensures ChainKeys(t, Blocks(index, t))[i] in index
  {
    assert TermIn(index, t);
    if i > 0 {
      assert Stored(index, t, i - 1, Blocks(index, t));
    }
  }

  lemma RangedIsChain(index: Index, t: Bytes, k: IKey)
    requires IndexOk(index) && TermOk(t)
    ensures Ranged(index, t, k) <==> Blocks(index, t) > 0 && k in ChainKeys(t, Blocks(index, t))
  {
    var n := Blocks(index, t);
    var ks := ChainKeys(t, n);
    assert TermIn(index, t);
    if n > 0 {
      forall i | 0 <= i < |ks| ensures ks[i] in index {
        ChainInTree(index, t, i);
      }
    }
    if k in index {
      KeysOk(index, k);
      RangeIsChain(t, k);
      if k.Block? && k.term == t {
        assert Stored(index, t, k.i, n);
        assert k.i < n ==> ks[k.i + 1] == k;
      }
    }
    assert ks[0] == Head(t);
  }

  /** The keys of a term's chain, in the order a cursor over its range meets them. */
  function ChainList(index: Index, t: Bytes): seq<IKey> {
    if Blocks(index, t) == 0 then [] else ChainKeys(t, Blocks(index, t))
  }

  ghost function RangedBytes(index: Index, t: Bytes): set<Bytes> {
    set k | k in index && Ranged(index, t, k) :: KeyBytes(k)
  }

  lemma ListOfRange(index: Index, t: Bytes, bs: seq<Bytes>)
    requires IndexOk(index) && TermOk(t) && Lists(bs, RangedBytes(index, t))
    ensures AllOk(ChainList(index, t)) && bs == BytesOf(ChainList(index, t))
  {
    var ks := ChainList(index, t);
    forall i | 0 <= i < |ks| ensures Ranged(index, t, ks[i]) && KeyOk(ks[i]) {
      RangedIsChain(index, t, ks[i]);
    }
    assert InOrder(BytesOf(ks)) by {
      if ks != [] {
        ChainAscends(t, Blocks(index, t));
      }
    }
    var ls := BytesOf(ks);
    forall b ensures b in bs <==> b in ls {
      if b in bs {
        var k :| k in index && Ranged(index, t, k) && KeyBytes(k) == b;
        RangedIsChain(index, t, k);
        var i :| 0 <= i < |ks| && ks[i] == k;
        assert ls[i] == b;
      }
      if b in ls {
        var i :| 0 <= i < |ks| && KeyBytes(ks[i]) == b;
        assert Ranged(index, t, ks[i]);
      }
    }
    ListsUnique(bs, ls);
  }

  // ---- documents and postings while a document is replaced ----

  /** The postings of a term when `gone` of the old terms and `added` of the new ones have been dealt with. */
  ghost function Midway(docs: map<Bytes, Dict>, doc: Bytes, t: Bytes, gone: Dict, tf: Dict, added: Dict): map<Bytes,
                        nat> {
    if Has(added, t) && Has(tf, t) then Column(docs, t)[doc := Value(tf, t)]
    else if Has(gone, t) && !Has(tf, t) then Column(docs, t) - {doc}
    else Column(docs, t)
  }

  /** Its chain has been worked on. */
  predicate Touched(t: Bytes, gone: Dict, tf: Dict, added: Dict) {
    Has(added, t) || (Has(gone, t) && !Has(tf, t))
  }

  ghost predicate ReplacingTerm(start: Index, index: Index, docs: map<Bytes, Dict>, doc: Bytes, t: Bytes, gone: Dict,
                                tf: Dict, added: Dict) {
    && PostingsOf(index, t) == Midway(docs, doc, t, gone, tf, added)
    && (Touched(t, gone, tf, added) || Blocks(index, t) == Blocks(start, t))
  }

  ghost predicate Replacing(start: Index, index: Index, docs: map<Bytes, Dict>, doc: Bytes, gone: Dict, tf: Dict,
                            added: Dict) {
    && IndexOk(index) && SameStats(start, index)
    && forall t :: ReplacingTerm(start, index, docs, doc, t, gone, tf, added)
  }

  lemma StartReplacing(index: Index, docs: map<Bytes, Dict>, doc: Bytes, tf: Dict)
    requires IndexOk(index) && Transposed(index, docs)
    ensures Replacing(index, index, docs, doc, [], tf, [])
  {
    forall t ensures ReplacingTerm(index, index, docs, doc, t, [], tf, []) {
      assert PostingsOf(index, t) == Column(docs, t);
    }
  }

  lemma HasPrefix(d: Dict, i: nat, t: Bytes)
    requires i < |d|
    ensures Has(d[..i + 1], t) <==> Has(d[..i], t) || t == d[i].key
  {
    if Has(d[..i + 1], t) {
      var j :| 0 <= j < i + 1 && d[..i + 1][j].key == t;
      assert j < i ==> d[..i][j].key == t;
    }
    if Has(d[..i], t) {
      var j :| 0 <= j < i && d[..i][j].key == t;
      assert d[..i + 1][j].key == t;
    }
    assert d[..i + 1][i].key == d[i].key;
  }

  lemma GoneStep(start: Index, before: Index, after: Index, docs: map<Bytes, Dict>, doc: Bytes, was: Dict, i: nat,
                 tf: Dict)
    requires i < |was| && Replacing(start, before, docs, doc, was[..i], tf, [])
    requires if Has(tf, was[i].key) then after == before
             else Posted(before, after, was[i].key, PostingsOf(before, was[i].key) - {doc})
    ensures Replacing(start, after, docs, doc, was[..i + 1], tf, [])
  {
    var next := was[..i + 1];
    forall t ensures ReplacingTerm(start, after, docs, doc, t, next, tf, []) {
      HasPrefix(was, i, t);
      assert ReplacingTerm(start, before, docs, doc, t, was[..i], tf, []);
      assert t != was[i].key ==> SameChain(before, after, t);
    }
    assert Has(tf, was[i].key) || SameUnless(before, after, was[i].key, Stats);
  }

  lemma AddedStep(start: Index, before: Index, after: Index, docs: map<Bytes, Dict>, doc: Bytes, gone: Dict, tf: Dict,
                  i: nat)
    requires i < |tf| && Distinct(tf) && Replacing(start, before, docs, doc, gone, tf, tf[..i])
    requires Posted(before, after, tf[i].key, PostingsOf(before, tf[i].key)[doc := tf[i].val])
    ensures Replacing(start, after, docs, doc, gone, tf, tf[..i + 1])
  {
    KeyAt(tf, tf[i].key, i);
    var next := tf[..i + 1];
    forall t ensures ReplacingTerm(start, after, docs, doc, t, gone, tf, next) {
      HasPrefix(tf, i, t);
      assert ReplacingTerm(start, before, docs, doc, t, gone, tf, tf[..i]);
      assert t != tf[i].key ==> SameChain(before, after, t);
    }
    assert SameUnless(before, after, tf[i].key, Stats);
  }

  /** A chain not yet worked on is as long as it was. */
  lemma NotYet(start: Index, index: Index, docs: map<Bytes, Dict>, doc: Bytes, gone: Dict, tf: Dict, added: Dict,
               t: Bytes)
    requires Replacing(start, index, docs, doc, gone, tf, added) && !Touched(t, gone, tf, added)
    ensures Blocks(start, t) == Blocks(index, t)
  {
    assert ReplacingTerm(start, index, docs, doc, t, gone, tf, added);
  }

  lemma NotInPrefix(d: Dict, i: nat)
    requires Distinct(d) && i < |d|
    ensures !Has(d[..i], d[i].key)
  {
  }

  /** One of the terms that a change has to work on has a chain past the limit. */
  ghost predicate Barred(index: Index, docs: map<Bytes, Dict>, doc: Bytes, tf: Dict) {
    exists t :: (Has(tf, t) || (doc in docs && Has(docs[doc], t))) && Blocks(index, t) > MAX_BLOCKS
  }

  /**
   * A change that was refused: the first `i` of the old terms and the first `j` of the new ones have
   * been dealt with, and the chain of the next one is past the limit.
   */
  ghost predicate StoppedAt(start: Index, index: Index, docs: map<Bytes, Dict>, doc: Bytes, gone: Dict, tf: Dict,
                            i: nat, j: nat) {
    && i <= |gone| && j <= |tf| && Replacing(start, index, docs, doc, gone[..i], tf, tf[..j])
    && if i < |gone| then j == 0 && !Has(tf, gone[i].key) && Blocks(start, gone[i].key) > MAX_BLOCKS
       else j < |tf| && Blocks(start, tf[j].key) > MAX_BLOCKS
  }

  ghost predicate Stopped(start: Index, index: Index, docs: map<Bytes, Dict>, doc: Bytes, tf: Dict) {
    var gone := if doc in docs then docs[doc] else [];
    exists i: nat, j: nat :: StoppedAt(start, index, docs, doc, gone, tf, i, j)
  }

  /** No chain of the first `i` old terms that go is past the limit. */
  ghost predicate FreeToGo(start: Index, gone: Dict, tf: Dict, i: nat)
    requires i <= |gone|
  {
    forall k :: 0 <= k < i && !Has(tf, gone[k].key) ==> Blocks(start, gone[k].key) <= MAX_BLOCKS
  }

  ghost predicate FreeToPost(start: Index, tf: Dict, j: nat)
    requires j <= |tf|
  {
    forall k :: 0 <= k < j ==> Blocks(start, tf[k].key) <= MAX_BLOCKS
  }

  /** A change goes through exactly if every chain that it works on is within the limit. */
  lemma FreeIsNotBarred(index: Index, docs: map<Bytes, Dict>, doc: Bytes, gone: Dict, tf: Dict)
    requires gone == if doc in docs then docs[doc] else []
    ensures FreeToGo(index, gone, tf, |gone|) && FreeToPost(index, tf, |tf|) <==> !Barred(index, docs, doc, tf)
  {
    if FreeToGo(index, gone, tf, |gone|) && FreeToPost(index, tf, |tf|) {
      forall t | Has(tf, t) || (doc in docs && Has(docs[doc], t)) ensures Blocks(index, t) <= MAX_BLOCKS {
        if Has(tf, t) {
          var k :| 0 <= k < |tf| && tf[k].key == t;
        } else {
          var k :| 0 <= k < |gone| && gone[k].key == t;
        }
      }
    } else if !FreeToPost(index, tf, |tf|) {
      var k :| 0 <= k < |tf| && Blocks(index, tf[k].key) > MAX_BLOCKS;
      assert Has(tf, tf[k].key);
    } else {
      var k :| 0 <= k < |gone| && !Has(tf, gone[k].key) && Blocks(index, gone[k].key) > MAX_BLOCKS;
      assert Has(gone, gone[k].key);
    }
  }

  /** A new term is not among those that only go. */
  lemma NotDealtWith(tf: Dict, i: nat, gone: Dict)
    requires i < |tf|
    ensures Has(tf, tf[i].key)
  {
  }

  /** With every old and new term dealt with, the postings are those of the new documents. */
  lemma Replaced(start: Index, index: Index, docs: map<Bytes, Dict>, doc: Bytes, gone: Dict, tf: Dict)
    requires Replacing(start, index, docs, doc, gone, tf, tf) && gone == if doc in docs then docs[doc] else []
    ensures Transposed(index, docs[doc := tf])
  {
    forall t ensures PostingsOf(index, t) == Column(docs[doc := tf], t) {
      assert ReplacingTerm(start, index, docs, doc, t, gone, tf, tf);
      ColumnWith(docs, doc, tf, t);
      ColumnWithout(docs, doc, t);
    }
  }

  lemma ColumnWith(docs: map<Bytes, Dict>, doc: Bytes, tf: Dict, t: Bytes)
    ensures Column(docs[doc := tf], t) == if Has(tf, t) then Column(docs, t)[doc := Value(tf, t)]
            else Column(docs, t) - {doc}
  {
  }

  lemma ColumnWithout(docs: map<Bytes, Dict>, doc: Bytes, t: Bytes)
    ensures Column(docs - {doc}, t) == Column(docs, t) - {doc}
    ensures !(doc in docs && Has(docs[doc], t)) ==> Column(docs, t) - {doc} == Column(docs, t)
  {
  }

  lemma Removed(start: Index, index: Index, docs: map<Bytes, Dict>, doc: Bytes)
    requires doc in docs && Replacing(start, index, docs, doc, docs[doc], [], [])
    ensures Transposed(index, docs - {doc})
  {
    forall t ensures PostingsOf(index, t) == Column(docs - {doc}, t) {
      assert ReplacingTerm(start, index, docs, doc, t, docs[doc], [], []);
      ColumnWithout(docs, doc, t);
    }
  }

  class Inverted {
    var index: Index
    var docTerms: map<Bytes, Dict>
    var docLengths: map<Bytes, nat>

    /** Postings and document terms are transposes, and lengths and corpus length are the sums. */
    ghost predicate Valid()
      reads this
    {
      && IndexOk(index) && Transposed(index, docTerms) && DocsOk(docTerms)
      && LengthsOk(docTerms, docLengths) && CorpusOk(index, docLengths)
    }

    constructor ()
      ensures Valid() && docTerms == map[]
    {
      index, docTerms, docLengths := map[], map[], map[];
      new;
      Empty();
    }

    lemma Empty()
      requires index == map[] && docTerms == map[] && docLengths == map[]
      ensures Valid()
    {
      forall t ensures TermIn(index, t) && PostingsOf(index, t) == Column(docTerms, t) {
        ChainIsChain(index, t, []);
      }
    }

    // ---- one term's chain ----

    /** A cursor over the range of a term's chain. */
    method ScanChain(t: Bytes) returns (ks: seq<IKey>)
      requires IndexOk(index) && TermOk(t)
      ensures ks == ChainList(index, t)
    {
      assert forall k :: k in index ==> KeyOk(k) by {
        forall k | k in index ensures KeyOk(k) {
          KeysOk(index, k);
        }
      }
      var range := set k | k in index && CompareBytes(t + [0], KeyBytes(k)) <= 0
          && CompareBytes(KeyBytes(k), RangeMax(t)) <= 0 :: KeyBytes(k);
      assert range == RangedBytes(index, t);
      var bs := Stream(range);
      ListOfRange(index, t, bs);
      ks := KeysOf(bs, t);
    }

    /** The key of the tree with these bytes. */
    method KeyWith(b: Bytes, ghost k: IKey, ghost t: Bytes, ghost i: nat) returns (r: IKey)
      requires IndexOk(index) && AllOk(ChainList(index, t)) && i < |ChainList(index, t)|
      requires k == ChainList(index, t)[i] && b == KeyBytes(k)
      ensures r == k
    {
      InTree(index, t, i);
      r :| r in index && KeyOk(r) && KeyBytes(r) == b;
      SameKey(r, k);
    }

    method KeysOf(bs: seq<Bytes>, ghost t: Bytes) returns (ks: seq<IKey>)
      requires IndexOk(index) && TermOk(t) && AllOk(ChainList(index, t)) && bs == BytesOf(ChainList(index, t))
      ensures ks == ChainList(index, t)
    {
      ghost var list := ChainList(index, t);
      ks := [];
      for i := 0 to |bs|
        invariant ks == list[..i]
      {
        var k := KeyWith(bs[i], list[i], t, i);
        TakeNext(list, i);
        ks := ks + [k];
      }
    }

    /** Read a term's postings. */
    method LoadPostings(t: Bytes) returns (post: Dict)
      requires IndexOk(index) && TermOk(t)
      ensures Distinct(post) && AsMap(post) == PostingsOf(index, t)
    {
      var ks := ScanChain(t);
      post := [];
      assert TermIn(index, t);
      for i := 0 to |ks|
        invariant ReadKeys(ChainOf(index, t), i, post)
      {
        KeyOfChain(index, t, i);
        ReadNext(ChainOf(index, t), i, post);
        if |KeyBytes(ks[i])| == |t| + 9 {
          post := SetAll(post, index[ks[i]].d);
        }
      }
      ReadKeysAll(ChainOf(index, t), |ks|, post);
    }

    /** The documents of a term. */
    method LoadTerm(t: Bytes) returns (post: Dict)
      requires Valid() && TermOk(t)
      ensures Distinct(post) && InTerm(docTerms, t, post)
    {
      post := LoadPostings(t);
      PostedIn(index, docTerms, t, post);
    }

    /** Put a document into a term's postings, touching only the last block. */
    method PostAdd(t: Bytes, doc: Bytes, tf: nat) returns (e: Status)
      requires IndexOk(index) && TermOk(t)
      modifies this`index
      ensures e == if Blocks(old(index), t) > MAX_BLOCKS then State else Ok
      ensures e == Ok ==> Posted(old(index), index, t, PostingsOf(old(index), t)[doc := tf])
      ensures e != Ok ==> index == old(index)
    {
      assert TermIn(index, t);
      ghost var was := index;
      if Head(t) in index {
        var n := index[Head(t)].n;
        if n > MAX_BLOCKS {
          return State;
        }
        assert Stored(index, t, n - 1, n);
        var blk := index[Block(t, n - 1)].d;
        if !Has(blk, doc) && |blk| >= BLOCK_DOCS {
          PostedNext(was, t, doc, tf);
          index := index[Block(t, n) := Posts([Entry(doc, tf)])];
          index := index[Head(t) := Count(n + 1)];
        } else {
          PostedLast(was, t, doc, tf);
          index := index[Block(t, n - 1) := Posts(SetEntry(blk, doc, tf))];
        }
      } else {
        PostedNext(was, t, doc, tf);
        index := index[Block(t, 0) := Posts([Entry(doc, tf)])];
        index := index[Head(t) := Count(1)];
      }
      e := Ok;
    }

    /** Other documents' entries in a term's blocks, and the numbers of the blocks that hold the document. */
    method CountOthers(t: Bytes, doc: Bytes) returns (hits: seq<nat>, remaining: nat)
      requires IndexOk(index) && TermOk(t)
      ensures remaining == Entries(WithoutDoc(ChainOf(index, t), doc))
      ensures HitsOf(ChainOf(index, t), doc, hits)
    {
      var ks := ScanChain(t);
      hits, remaining := [], 0;
      assert TermIn(index, t);
      for i := 0 to |ks|
        invariant CountedKeys(ChainOf(index, t), i, doc, hits, remaining)
      {
        hits, remaining := CountKey(t, doc, ks[i], hits, remaining, i);
      }
      CountedAll(ChainOf(index, t), |ks|, doc, hits, remaining);
    }

    /** The number in a block's key. */
    method NumberOf(t: Bytes, k: IKey, ghost i: nat) returns (idx: nat)
      requires IndexOk(index) && TermOk(t) && i + 1 < |ChainList(index, t)| && k == ChainList(index, t)[i + 1]
      ensures idx == i
    {
      BlockNumber(index, t, i);
      idx := ParseHex(KeyBytes(k)[|t| + 1..]).value;
    }

    method CountKey(t: Bytes, doc: Bytes, k: IKey, hits: seq<nat>, remaining: nat, ghost i: nat)
      returns (more: seq<nat>, left: nat)
      requires IndexOk(index) && TermOk(t) && i < |ChainList(index, t)| && k == ChainList(index, t)[i]
      requires CountedKeys(ChainOf(index, t), i, doc, hits, remaining)
      ensures CountedKeys(ChainOf(index, t), i + 1, doc, more, left)
    {
      KeyOfChain(index, t, i);
      ghost var bs := ChainOf(index, t);
      if |KeyBytes(k)| != |t| + 9 {
        CountHeader(bs, doc, hits, remaining);
        return hits, remaining;
      }
      var idx := NumberOf(t, k, i - 1);
      more, left := CountIn(index[k].d, idx, doc, hits, remaining, bs, i);
    }

    /** Rewrite the blocks that held the document. */
    method RewriteHits(t: Bytes, doc: Bytes, hits: seq<nat>, ghost bs: seq<Dict>)
      requires ChainIs(index, t, bs) && HitsOf(bs, doc, hits)
      modifies this`index
      ensures ChainIs(index, t, WithoutDoc(bs, doc)) && OnlyTerm(old(index), index, t)
    {
      ghost var cur := bs;
      for h := 0 to |hits|
        invariant ChainIs(index, t, cur) && OnlyTerm(old(index), index, t) && Rewritten(bs, doc, hits, h, cur)
      {
        var i := hits[h];
        assert Stored(index, t, i, |cur|);
        var blk := index[Block(t, i)].d;
        WriteAt(index, t, cur, i, RemoveEntry(blk, doc));
        OneKey(old(index), index, t, Block(t, i), Posts(RemoveEntry(blk, doc)));
        RewriteNext(bs, doc, hits, h, cur);
        index := index[Block(t, i) := Posts(RemoveEntry(blk, doc))];
        cur := cur[i := RemoveEntry(blk, doc)];
      }
      RewrittenAll(bs, doc, hits, cur);
    }

    /** Delete the blocks of a chain and then its header. */
    method DropChain(t: Bytes, n: nat, ghost bs: seq<Dict>)
      requires ChainIs(index, t, bs) && n == |bs|
      modifies this`index
      ensures ChainIs(index, t, []) && OnlyTerm(old(index), index, t)
    {
      for i := 0 to n
        invariant OnlyTerm(old(index), index, t) && forall j: nat :: Block(t, j) in index <==> i <= j < n
      {
        DropKey(old(index), index, t, Block(t, i));
        index := index - {Block(t, i)};
      }
      DropKey(old(index), index, t, Head(t));
      index := index - {Head(t)};
      forall i: nat ensures Stored(index, t, i, 0) {
      }
    }

    /** Take a document out of a term's postings; a chain left without entries goes away. */
    method PostRemove(t: Bytes, doc: Bytes) returns (e: Status)
      requires IndexOk(index) && TermOk(t)
      modifies this`index
      ensures e == if Blocks(old(index), t) > MAX_BLOCKS then State else Ok
      ensures e == Ok ==> Posted(old(index), index, t, PostingsOf(old(index), t) - {doc})
      ensures e != Ok ==> index == old(index)
    {
      assert TermIn(index, t);
      if Head(t) !in index {
        NothingPosted(index, t, doc);
        return Ok;
      }
      var n := index[Head(t)].n;
      if n > MAX_BLOCKS {
        return State;
      }
      ghost var was, bs := index, ChainOf(index, t);
      var hits, remaining := CountOthers(t, doc);
      ChainIsOwn(index, t);
      RewriteHits(t, doc, hits, bs);
      MergedWithout(bs, doc);
      NoEntries(WithoutDoc(bs, doc));
      if remaining == 0 {
        ghost var mid := index;
        DropChain(t, n, WithoutDoc(bs, doc));
        OnlyTermTwice(was, mid, index, t);
        WroteChain(was, index, t, []);
      } else {
        WroteChain(was, index, t, WithoutDoc(bs, doc));
      }
      e := Ok;
    }

    // ---- the corpus length ----

    /** Sum of the document lengths by a cursor over them. */
    method ScanCorpus() returns (sum: nat)
      ensures sum == Total(docLengths)
    {
      var ks := Stream(docLengths.Keys);
      sum := 0;
      ghost var rest := docLengths;
      for i := 0 to |ks|
        invariant sum + Total(rest) == Total(docLengths)
        invariant forall k :: k in rest <==> k in ks[i..]
        invariant forall k :: k in rest ==> k in docLengths && rest[k] == docLengths[k]
      {
        NextKey(ks, i);
        TotalMinus(rest, ks[i]);
        if docLengths[ks[i]] > 0 {
          sum := sum + docLengths[ks[i]];
        }
        rest := rest - {ks[i]};
      }
    }

    /** Carry the stored corpus length along; one that is missing is computed. */
    method BumpCorpus(delta: int)
      requires Stats in index ==> index[Stats].Sum? && index[Stats].s + delta == Total(docLengths)
      modifies this`index
      ensures index == old(index)[Stats := Sum(Total(docLengths))]
    {
      var sum: int;
      if Stats in index {
        sum := index[Stats].s + delta;
      } else {
        sum := ScanCorpus();
      }
      if sum < 0 {
        sum := 0;
      }
      index := index[Stats := Sum(sum)];
    }

    // ---- documents ----

    /** Take a document out of the postings of the terms it no longer has; and the sum of its old counts. */
    method Forget(doc: Bytes, gone: Dict, tf: Dict, ghost start: Index) returns (e: Status, oldLen: nat)
      requires Replacing(start, index, docTerms, doc, [], tf, []) && TermsOk(gone)
      modifies this`index
      ensures e == Ok ==> Replacing(start, index, docTerms, doc, gone, tf, []) && oldLen == DictSum(gone)
      ensures e == Ok <==> FreeToGo(start, gone, tf, |gone|)
      ensures e != Ok ==> e == State && exists i: nat :: StoppedAt(start, index, docTerms, doc, gone, tf, i, 0)
    {
      oldLen := 0;
      for i := 0 to |gone|
        invariant Replacing(start, index, docTerms, doc, gone[..i], tf, []) && oldLen == DictSum(gone[..i])
        invariant FreeToGo(start, gone, tf, i)
      {
        var t := gone[i].key;
        ghost var was := index;
        oldLen := oldLen + gone[i].val;
        SumStep(gone, i);
        if !Has(tf, t) {
          NotInPrefix(gone, i);
          NotYet(start, was, docTerms, doc, gone[..i], tf, [], t);
          e := PostRemove(t, doc);
          if e != Ok {
            assert tf[..0] == [];
            assert StoppedAt(start, index, docTerms, doc, gone, tf, i, 0);
            return;
          }
        }
        GoneStep(start, was, index, docTerms, doc, gone, i, tf);
      }
      e := Ok;
      assert gone[..|gone|] == gone;
    }

    /** Put a document into the postings of its terms; and the sum of its counts. */
    method Post(doc: Bytes, ghost gone: Dict, tf: Dict, ghost start: Index) returns (e: Status, len: nat)
      requires Replacing(start, index, docTerms, doc, gone, tf, []) && TermsOk(tf)
      modifies this`index
      ensures e == Ok ==> Replacing(start, index, docTerms, doc, gone, tf, tf) && len == DictSum(tf)
      ensures e == Ok <==> FreeToPost(start, tf, |tf|)
      ensures e != Ok ==> e == State && exists j: nat :: StoppedAt(start, index, docTerms, doc, gone, tf, |gone|, j)
    {
      len := 0;
      for i := 0 to |tf|
        invariant Replacing(start, index, docTerms, doc, gone, tf, tf[..i]) && len == DictSum(tf[..i])
        invariant FreeToPost(start, tf, i)
      {
        var t := tf[i].key;
        ghost var was := index;
        len := len + tf[i].val;
        SumStep(tf, i);
        NotInPrefix(tf, i);
        NotDealtWith(tf, i, gone);
        NotYet(start, was, docTerms, doc, gone, tf, tf[..i], t);
        e := PostAdd(t, doc, tf[i].val);
        if e != Ok {
          assert gone[..|gone|] == gone;
          assert StoppedAt(start, index, docTerms, doc, gone, tf, |gone|, i);
          return;
        }
        AddedStep(start, was, index, docTerms, doc, gone, tf, i);
      }
      e := Ok;
      assert tf[..|tf|] == tf;
    }

    /** The last step of a change: the corpus length follows the documents. */
    method Settle(delta: int)
      requires IndexOk(index) && Transposed(index, docTerms) && DocsOk(docTerms) && LengthsOk(docTerms, docLengths)
      requires Stats in index ==> index[Stats].s + delta == Total(docLengths)
      modifies this`index
      ensures Valid()
    {
      StatsApart(index, docTerms, Total(docLengths));
      BumpCorpus(delta);
    }

    /**
     * Add a document, or replace the one with its id.  It is refused exactly if a term of the old or the
     * new document has a chain past the limit; then the terms before it have been dealt with and no
     * others, which the journal of the three files undoes.
     */
    method Add(doc: Bytes, tf: Dict) returns (e: Status)
      requires Valid() && TermsOk(tf)
      modifies this
      ensures e == if Barred(old(index), old(docTerms), doc, tf) then State else Ok
      ensures e == Ok ==> Valid() && docTerms == old(docTerms)[doc := tf]
      ensures e != Ok ==> docTerms == old(docTerms) && docLengths == old(docLengths)
      ensures e != Ok ==> Stopped(old(index), index, docTerms, doc, tf)
    {
      ghost var start := index;
      StartReplacing(index, docTerms, doc, tf);
      var gone: Dict := [];
      if doc in docTerms {
        gone := docTerms[doc];
      }
      FreeIsNotBarred(index, docTerms, doc, gone, tf);
      var oldLen, len;
      e, oldLen := Forget(doc, gone, tf, start);
      if e != Ok {
        return;
      }
      e, len := Post(doc, gone, tf, start);
      if e != Ok {
        return;
      }
      Replaced(start, index, docTerms, doc, gone, tf);
      LengthAfter(docTerms, docLengths, doc, tf);
      docTerms := docTerms[doc := tf];
      docLengths := docLengths[doc := len];
      Settle(len as int - oldLen as int);
    }

    /** Remove a document; one that is not there changes nothing.  Refusals are as for `Add`. */
    method Remove(doc: Bytes) returns (e: Status, removed: bool)
      requires Valid()
      modifies this
      ensures e == if Barred(old(index), old(docTerms), doc, []) then State else Ok
      ensures e == Ok ==> Valid() && docTerms == old(docTerms) - {doc} && (removed <==> doc in old(docTerms))
      ensures e != Ok ==> docTerms == old(docTerms) && docLengths == old(docLengths) && !removed
      ensures e != Ok ==> Stopped(old(index), index, docTerms, doc, [])
    {
      if doc !in docTerms {
        assert docTerms - {doc} == docTerms;
        return Ok, false;
      }
      ghost var start := index;
      StartReplacing(index, docTerms, doc, []);
      var terms := docTerms[doc];
      FreeIsNotBarred(index, docTerms, doc, terms, []);
      var oldLen;
      removed := false;
      e, oldLen := Forget(doc, terms, [], start);
      if e != Ok {
        return;
      }
      Removed(start, index, docTerms, doc);
      LengthWithout(docTerms, docLengths, doc);
      docTerms := docTerms - {doc};
      docLengths := docLengths - {doc};
      Settle(-(oldLen as int));
      removed := true;
    }

    /**
     * Reset the trees one after another, as far as the host lets it.  A failure between them leaves
     * the trees behind it as they were, which the journal of the three files undoes.
     */
    method Clear(hostOk: nat -> bool) returns (e: Status)
      requires Valid()
      modifies this
      ensures e == if hostOk(0) && hostOk(1) && hostOk(2) then Ok else HostError
      ensures e == Ok ==> Valid() && docTerms == map[]
      ensures e != Ok ==> docLengths == old(docLengths)
      ensures e != Ok ==> docTerms == if hostOk(0) && hostOk(1) then map[] else old(docTerms)
      ensures e != Ok && !hostOk(0) ==> Valid() && index == old(index)
      ensures e != Ok && hostOk(0) ==> index == map[]
    {
      if !hostOk(0) {
        return HostError;
      }
      index := map[];
      if !hostOk(1) {
        return HostError;
      }
      docTerms := map[];
      if !hostOk(2) {
        return HostError;
      }
      docLengths := map[];
      Empty();
      e := Ok;
    }

    // ---- queries ----

    /** The documents that hold every one of the terms, none twice; none for a query without terms. */
    method QueryAll(tf: Dict) returns (ids: seq<Bytes>)
      requires Valid() && TermsOk(tf)
      ensures tf == [] ==> ids == []
      ensures tf != [] ==> forall doc :: doc in ids <==> doc in docTerms && HoldsAll(docTerms[doc], tf)
      ensures forall i, j :: 0 <= i < j < |ids| ==> ids[i] != ids[j]
    {
      if |tf| == 0 {
        return [];
      }
      var cand := IntersectAll(tf);
      ids := DocsOf(cand);
      forall doc ensures doc in ids <==> doc in docTerms && HoldsAll(docTerms[doc], tf) {
        assert doc in ids <==> Has(cand, doc);
      }
    }

    /** The first term's postings, cut down by each other term's. */
    method IntersectAll(tf: Dict) returns (cand: Dict)
      requires Valid() && TermsOk(tf) && tf != []
      ensures Distinct(cand) && Candidates(docTerms, tf, cand)
    {
      cand := LoadTerm(tf[0].key);
      FirstCandidates(docTerms, tf, cand);
      var n := 1;
      while n < |tf| && |cand| > 0
        invariant 1 <= n <= |tf| && Distinct(cand) && Candidates(docTerms, tf[..n], cand)
      {
        var other := LoadTerm(tf[n].key);
        ghost var was := cand;
        cand := Intersect(cand, other);
        CandidatesNext(docTerms, tf, n, was, other, cand);
        n := n + 1;
      }
      CandidatesAll(docTerms, tf, n, cand);
    }
  }

  /**
   * The documents determine everything else: indexes of the same documents, however they came
   * about - adding again, or removing and adding - agree on postings, terms in use and lengths.
   */
  lemma SameDocumentsSameIndex(a: Inverted, b: Inverted)
    requires a.Valid() && b.Valid() && a.docTerms == b.docTerms
    ensures forall t :: PostingsOf(a.index, t) == PostingsOf(b.index, t) && (Head(t) in a.index <==> Head(t) in b.index)
    ensures a.docLengths == b.docLengths
    ensures Stats in a.index && Stats in b.index ==> a.index[Stats] == b.index[Stats]
  {
    forall t ensures PostingsOf(a.index, t) == PostingsOf(b.index, t) && (Head(t) in a.index <==> Head(t) in b.index) {
      assert PostingsOf(a.index, t) == Column(a.docTerms, t) == PostingsOf(b.index, t);
      TermsInUse(a.index, a.docTerms, t);
      TermsInUse(b.index, b.docTerms, t);
    }
    assert a.docLengths == b.docLengths;
  }

  /** One block: its entries for other documents, and its number if it holds the document. */
  method CountIn(blk: Dict, idx: nat, doc: Bytes, hits: seq<nat>, remaining: nat, ghost bs: seq<Dict>, ghost n: nat)
    returns (more: seq<nat>, left: nat)
    requires 0 < n <= |bs| && blk == bs[n - 1] && idx == n - 1 && CountedKeys(bs, n, doc, hits, remaining)
    ensures CountedKeys(bs, n + 1, doc, more, left)
  {
    CountTo(bs, n, doc, hits, remaining);
    more, left := hits, remaining + |blk|;
    if Has(blk, doc) {
      more, left := hits + [idx], left - 1;
    }
  }

  method DocsOf(cand: Dict) returns (ids: seq<Bytes>)
    requires Distinct(cand)
    ensures forall doc :: doc in ids <==> Has(cand, doc)
    ensures forall i, j :: 0 <= i < j < |ids| ==> ids[i] != ids[j]
  {
    ids := [];
    for i := 0 to |cand|
      invariant |ids| == i && forall j :: 0 <= j < i ==> ids[j] == cand[j].key
    {
      ids := ids + [cand[i].key];
    }
  }

  lemma FirstCandidates(docs: map<Bytes, Dict>, tf: Dict, cand: Dict)
    requires tf != [] && InTerm(docs, tf[0].key, cand)
    ensures Candidates(docs, tf[..1], cand)
  {
    forall doc ensures Has(cand, doc) <==> doc in docs && HoldsAll(docs[doc], tf[..1]) {
      if doc in docs {
        HoldsAllNext(docs[doc], tf, 0);
      }
    }
  }

  lemma StatsApart(index: Index, docs: map<Bytes, Dict>, sum: nat)
    requires IndexOk(index) && Transposed(index, docs)
    ensures IndexOk(index[Stats := Sum(sum)]) && Transposed(index[Stats := Sum(sum)], docs)
  {
    var after := index[Stats := Sum(sum)];
    forall t ensures TermIn(after, t) && PostingsOf(after, t) == Column(docs, t) {
      forall i: nat ensures SameBlock(index, after, t, i) {
      }
      SameTermSame(index, after, t);
      assert TermIn(index, t) && PostingsOf(index, t) == Column(docs, t);
    }
  }

  lemma SumStep(d: Dict, i: nat)
    requires i < |d|
    ensures DictSum(d[..i + 1]) == DictSum(d[..i]) + d[i].val
  {
    assert d[..i + 1][..i] == d[..i];
  }

  lemma LengthAfter(docs: map<Bytes, Dict>, lengths: map<Bytes, nat>, doc: Bytes, tf: Dict)
    requires LengthsOk(docs, lengths)
    ensures LengthsOk(docs[doc := tf], lengths[doc := DictSum(tf)])
    ensures Total(lengths[doc := DictSum(tf)]) == Total(lengths) + DictSum(tf) - if doc in docs then DictSum(docs[doc])
            else 0
  {
    TotalUpdate(lengths, doc, DictSum(tf));
  }

  lemma LengthWithout(docs: map<Bytes, Dict>, lengths: map<Bytes, nat>, doc: Bytes)
    requires LengthsOk(docs, lengths) && doc in docs
    ensures LengthsOk(docs - {doc}, lengths - {doc}) && Total(lengths - {doc}) == Total(lengths) - DictSum(docs[doc])
  {
    TotalMinus(lengths, doc);
  }

  // ---- intersecting ----

  predicate HoldsAll(d: Dict, tf: Dict) {
    forall i :: 0 <= i < |tf| ==> Has(d, tf[i].key)
  }

  ghost predicate Candidates(docs: map<Bytes, Dict>, tf: Dict, cand: Dict) {
    forall doc :: Has(cand, doc) <==> doc in docs && HoldsAll(docs[doc], tf)
  }

  ghost predicate InTerm(docs: map<Bytes, Dict>, t: Bytes, post: Dict) {
    forall doc :: Has(post, doc) <==> doc in docs && Has(docs[doc], t)
  }

  lemma PostedIn(index: Index, docs: map<Bytes, Dict>, t: Bytes, post: Dict)
    requires Transposed(index, docs) && Distinct(post) && AsMap(post) == PostingsOf(index, t)
    ensures InTerm(docs, t, post)
  {
    forall doc ensures Has(post, doc) <==> doc in docs && Has(docs[doc], t) {
      MapOf(post, doc);
      assert doc in Column(docs, t) <==> doc in docs && Has(docs[doc], t);
    }
  }

  lemma HoldsAllNext(d: Dict, tf: Dict, n: nat)
    requires n < |tf|
    ensures HoldsAll(d, tf[..n + 1]) <==> HoldsAll(d, tf[..n]) && Has(d, tf[n].key)
  {
    assert tf[..n + 1] == tf[..n] + [tf[n]];
  }

  /** Keep the entries whose keys are in the other dictionary, in order. */
  method Intersect(cand: Dict, other: Dict) returns (r: Dict)
    requires Distinct(cand)
    ensures Distinct(r) && Both(cand, other, r)
  {
    r := [];
    for i := 0 to |cand|
      invariant Kept(cand[..i], other, r)
    {
      KeepNext(cand, i, other, r);
      if Has(other, cand[i].key) {
        r := r + [cand[i]];
      }
    }
    assert cand[..|cand|] == cand;
  }

  ghost predicate Both(a: Dict, b: Dict, r: Dict) {
    forall doc :: Has(r, doc) <==> Has(a, doc) && Has(b, doc)
  }

  ghost predicate Kept(cand: Dict, other: Dict, r: Dict) {
    Distinct(r) && Both(cand, other, r)
  }

  lemma KeepNext(cand: Dict, i: nat, other: Dict, r: Dict)
    requires Distinct(cand) && i < |cand| && Kept(cand[..i], other, r)
    ensures Kept(cand[..i + 1], other, if Has(other, cand[i].key) then r + [cand[i]] else r)
  {
    var k := cand[i].key;
    NotInPrefix(cand, i);
    assert !Has(r, k);
    var s := if Has(other, k) then r + [cand[i]] else r;
    forall doc ensures Has(s, doc) <==> Has(cand[..i + 1], doc) && Has(other, doc) {
      HasPrefix(cand, i, doc);
      HasAppended(r, cand[i], doc);
    }
  }

  lemma HasAppended(r: Dict, e: Entry, k: Bytes)
    ensures Has(r + [e], k) <==> Has(r, k) || k == e.key
  {
    var s := r + [e];
    assert s[|r|] == e;
    if Has(r, k) {
      var j :| 0 <= j < |r| && r[j].key == k;
      assert s[j].key == k;
    }
  }

  lemma CandidatesNext(docs: map<Bytes, Dict>, tf: Dict, n: nat, was: Dict, other: Dict, cand: Dict)
    requires n < |tf| && Candidates(docs, tf[..n], was) && InTerm(docs, tf[n].key, other)
    requires Both(was, other, cand)
    ensures Candidates(docs, tf[..n + 1], cand)
  {
    forall doc ensures Has(cand, doc) <==> doc in docs && HoldsAll(docs[doc], tf[..n + 1]) {
      if doc in docs {
        HoldsAllNext(docs[doc], tf, n);
      }
    }
  }

  /** All terms looked at, or no candidate left: the candidates are the answer. */
  lemma CandidatesAll(docs: map<Bytes, Dict>, tf: Dict, n: nat, cand: Dict)
    requires n <= |tf| && Candidates(docs, tf[..n], cand) && (n == |tf| || cand == [])
    ensures Candidates(docs, tf, cand)
  {
    if n == |tf| {
      assert tf[..n] == tf;
    } else {
      forall doc ensures !Has(cand, doc) && (doc in docs ==> !HoldsAll(docs[doc], tf)) {
        if doc in docs {
          HoldsPrefix(docs[doc], tf, n);
        }
      }
    }
  }

  lemma HoldsPrefix(d: Dict, tf: Dict, n: nat)
    requires n <= |tf|
    ensures HoldsAll(d, tf) ==> HoldsAll(d, tf[..n])
  {
  }

  /** The numbers of the blocks that hold a document, ascending. */
  ghost predicate HitsOf(bs: seq<Dict>, doc: Bytes, hits: seq<nat>) {
    && (forall a, b :: 0 <= a < b < |hits| ==> hits[a] < hits[b])
    && (forall h :: 0 <= h < |hits| ==> hits[h] < |bs| && Has(bs[hits[h]], doc))
    && forall i :: 0 <= i < |bs| && Has(bs[i], doc) ==> i in hits
  }

  ghost predicate Counted(bs: seq<Dict>, doc: Bytes, hits: seq<nat>, remaining: nat) {
    HitsOf(bs, doc, hits) && BlocksOk(bs) && remaining == Entries(WithoutDoc(bs, doc))
  }

  lemma CountBlock(bs: seq<Dict>, d: Dict, doc: Bytes, hits: seq<nat>, remaining: nat)
    requires Counted(bs, doc, hits, remaining) && BlockOk(d)
    ensures Has(d, doc) ==> |d| > 0 && Counted(bs + [d], doc, hits + [|bs|], remaining + |d| - 1)
    ensures !Has(d, doc) ==> Counted(bs + [d], doc, hits, remaining + |d|)
  {
    var r := WithoutDoc(bs + [d], doc);
    assert r == WithoutDoc(bs, doc) + [RemoveEntry(d, doc)];
    assert r[..|bs|] == WithoutDoc(bs, doc);
    RemoveIsMinus(d, doc);
    HitsNext(bs, d, doc, hits);
  }

  /** Having read the first `n` keys of a chain. */
  ghost predicate ReadKeys(bs: seq<Dict>, n: nat, post: Dict) {
    (if n == 0 then 0 else n - 1) <= |bs| && post == ReadAll(bs[..if n == 0 then 0 else n - 1])
  }

  lemma ReadKeysAll(bs: seq<Dict>, n: nat, post: Dict)
    requires BlocksOk(bs) && ReadKeys(bs, n, post) && n == if bs == [] then 0 else |bs| + 1
    ensures Distinct(post) && AsMap(post) == Merged(bs)
  {
    assert bs[..|bs|] == bs;
    ReadAllIsMerged(bs);
  }

  /** Having met the first `n` keys of a chain: the header and `n - 1` blocks. */
  ghost predicate CountedKeys(bs: seq<Dict>, n: nat, doc: Bytes, hits: seq<nat>, remaining: nat) {
    && BlocksOk(bs) && (if n == 0 then 0 else n - 1) <= |bs|
    && Counted(bs[..if n == 0 then 0 else n - 1], doc, hits, remaining)
  }

  lemma CountedAll(bs: seq<Dict>, n: nat, doc: Bytes, hits: seq<nat>, remaining: nat)
    requires CountedKeys(bs, n, doc, hits, remaining) && n == if bs == [] then 0 else |bs| + 1
    ensures remaining == Entries(WithoutDoc(bs, doc)) && HitsOf(bs, doc, hits)
  {
    assert bs[..|bs|] == bs;
  }

  lemma CountTo(bs: seq<Dict>, n: nat, doc: Bytes, hits: seq<nat>, remaining: nat)
    requires 0 < n <= |bs| && CountedKeys(bs, n, doc, hits, remaining)
    ensures Has(bs[n - 1], doc) ==>
              |bs[n - 1]| > 0 && CountedKeys(bs, n + 1, doc, hits + [n - 1], remaining + |bs[n - 1]| - 1)
    ensures !Has(bs[n - 1], doc) ==> CountedKeys(bs, n + 1, doc, hits, remaining + |bs[n - 1]|)
  {
    CountBlock(bs[..n - 1], bs[n - 1], doc, hits, remaining);
    assert bs[..n] == bs[..n - 1] + [bs[n - 1]];
  }

  lemma CountHeader(bs: seq<Dict>, doc: Bytes, hits: seq<nat>, remaining: nat)
    requires CountedKeys(bs, 0, doc, hits, remaining)
    ensures CountedKeys(bs, 1, doc, hits, remaining)
  {
  }

  lemma HitsNext(bs: seq<Dict>, d: Dict, doc: Bytes, hits: seq<nat>)
    requires HitsOf(bs, doc, hits)
    ensures Has(d, doc) ==> HitsOf(bs + [d], doc, hits + [|bs|])
    ensures !Has(d, doc) ==> HitsOf(bs + [d], doc, hits)
  {
    var more := hits + [|bs|];
    assert more[|hits|] == |bs|;
    forall i | 0 <= i < |bs| && Has(bs[i], doc) ensures i in hits && i in more {
      var h :| 0 <= h < |hits| && hits[h] == i;
      assert more[h] == i;
    }
  }

  lemma BlockNumber(index: Index, t: Bytes, i: nat)
    requires IndexOk(index) && TermOk(t) && i + 1 < |ChainList(index, t)|
    ensures var k := ChainList(index, t)[i + 1];
            KeyOk(k) && |KeyBytes(k)| == |t| + 9 && ParseHex(KeyBytes(k)[|t| + 1..]) == Some(i)
  {
    var k := ChainList(index, t)[i + 1];
    ChainInTree(index, t, i + 1);
    KeysOk(index, k);
    assert KeyBytes(k)[|t| + 1..] == Hex(i, 8);
    ParseBack(i, 8);
  }

  ghost predicate Rewritten(bs: seq<Dict>, doc: Bytes, hits: seq<nat>, h: nat, cur: seq<Dict>) {
    && |cur| == |bs| && h <= |hits|
    && forall i :: 0 <= i < |bs| ==> cur[i] == if i in hits[..h] then RemoveEntry(bs[i], doc) else bs[i]
  }

  lemma RewriteNext(bs: seq<Dict>, doc: Bytes, hits: seq<nat>, h: nat, cur: seq<Dict>)
    requires HitsOf(bs, doc, hits) && h < |hits| && Rewritten(bs, doc, hits, h, cur)
    ensures cur[hits[h]] == bs[hits[h]]
            && Rewritten(bs, doc, hits, h + 1, cur[hits[h] := RemoveEntry(bs[hits[h]], doc)])
  {
    assert hits[..h + 1] == hits[..h] + [hits[h]];
    assert hits[h] !in hits[..h];
  }

  lemma RewrittenAll(bs: seq<Dict>, doc: Bytes, hits: seq<nat>, cur: seq<Dict>)
    requires HitsOf(bs, doc, hits) && Rewritten(bs, doc, hits, |hits|, cur)
    ensures cur == WithoutDoc(bs, doc)
  {
    assert hits[..|hits|] == hits;
    forall i | 0 <= i < |bs| ensures cur[i] == RemoveEntry(bs[i], doc) {
    }
  }

  lemma WriteAt(index: Index, t: Bytes, bs: seq<Dict>, i: nat, d: Dict)
    requires ChainIs(index, t, bs) && i < |bs|
    ensures index[Block(t, i)] == Posts(bs[i]) && ChainIs(index[Block(t, i) := Posts(d)], t, bs[i := d])
  {
    var after, r := index[Block(t, i) := Posts(d)], bs[i := d];
    assert Stored(index, t, i, |bs|);
    forall j: nat ensures Stored(after, t, j, |r|) && (j < |r| ==> after[Block(t, j)].d == r[j]) {
      assert Stored(index, t, j, |bs|);
    }
  }

  lemma OneKey(before: Index, index: Index, t: Bytes, k: IKey, v: Val)
    requires OnlyTerm(before, index, t) && !k.Stats? && k.term == t
    ensures OnlyTerm(before, index[k := v], t)
  {
    var after := index[k := v];
    forall x: IKey ensures SameUnless(before, after, t, x) {
      assert SameUnless(before, index, t, x);
    }
  }

  lemma DropKey(before: Index, index: Index, t: Bytes, k: IKey)
    requires OnlyTerm(before, index, t) && !k.Stats? && k.term == t
    ensures OnlyTerm(before, index - {k}, t)
  {
    var after := index - {k};
    forall x: IKey ensures SameUnless(before, after, t, x) {
      assert SameUnless(before, index, t, x);
    }
  }

  ghost predicate SameStats(a: Index, b: Index) {
    (Stats in a <==> Stats in b) && (Stats in a ==> a[Stats] == b[Stats])
  }

  lemma NextKey(ks: seq<Bytes>, i: nat)
    requires InOrder(ks) && i < |ks|
    ensures ks[i] in ks[i..] && forall k :: k in ks[i + 1..] <==> k in ks[i..] && k != ks[i]
  {
    assert ks[i..] == [ks[i]] + ks[i + 1..];
    var rest := ks[i + 1..];
    forall j | 0 <= j < |rest| ensures rest[j] != ks[i] {
      assert BytesRank(ks[i]) < BytesRank(ks[i + 1 + j]);
    }
  }

  lemma OnlyTermTwice(a: Index, b: Index, c: Index, t: Bytes)
    requires OnlyTerm(a, b, t) && OnlyTerm(b, c, t)
    ensures OnlyTerm(a, c, t)
  {
    forall x: IKey ensures SameUnless(a, c, t, x) {
      assert SameUnless(a, b, t, x) && SameUnless(b, c, t, x);
    }
  }

  lemma NothingPosted(index: Index, t: Bytes, doc: Bytes)
    requires IndexOk(index) && Head(t) !in index
    ensures Posted(index, index, t, PostingsOf(index, t) - {doc})
  {
    assert TermIn(index, t);
    assert ChainOf(index, t) == [];
    OnlyItself(index, t);
  }

  lemma OnlyItself(index: Index, t: Bytes)
    ensures OnlyTerm(index, index, t)
  {
    forall x: IKey ensures SameUnless(index, index, t, x) {
    }
  }

  lemma InTree(index: Index, t: Bytes, i: nat)
    requires IndexOk(index) && i < |ChainList(index, t)| && AllOk(ChainList(index, t))
    ensures ChainList(index, t)[i] in index && KeyOk(ChainList(index, t)[i])
  {
    ChainInTree(index, t, i);
  }

  lemma TakeNext<T>(s: seq<T>, i: nat)
    requires i < |s|
    ensures s[..i] + [s[i]] == s[..i + 1]
  {
  }

  lemma SameKey(a: IKey, b: IKey)
    requires KeyOk(a) && KeyOk(b) && KeyBytes(a) == KeyBytes(b)
    ensures a == b
  {
    if a != b {
      BytesDiffer(a, b);
    }
  }

  /** A key of the chain: its length tells the header from a block, and a block holds its entries. */
  lemma KeyOfChain(index: Index, t: Bytes, i: nat)
    requires IndexOk(index) && TermOk(t) && i < |ChainList(index, t)|
    ensures var k := ChainList(index, t)[i];
            && k in index && KeyOk(k) && (|KeyBytes(k)| == |t| + 9 <==> i > 0)
            && (i > 0 ==> i <= Blocks(index, t) && index[k].Posts? && index[k].d == ChainOf(index, t)[i - 1])
  {
    ChainInTree(index, t, i);
    KeysOk(index, ChainList(index, t)[i]);
    if i > 0 {
      assert TermIn(index, t) && Stored(index, t, i - 1, Blocks(index, t));
    }
  }

  lemma ReadNext(bs: seq<Dict>, n: nat, post: Dict)
    requires ReadKeys(bs, n, post) && n <= |bs|
    ensures ReadKeys(bs, n + 1, if n == 0 then post else SetAll(post, bs[n - 1]))
  {
    if n > 0 {
      assert bs[..n][..n - 1] == bs[..n - 1];
    }
  }

  /** The postings of one term have become these; everything else in the index is as before. */
  ghost predicate Posted(before: Index, after: Index, t: Bytes, posts: map<Bytes, nat>) {
    IndexOk(after) && PostingsOf(after, t) == posts && OnlyTerm(before, after, t) && OthersSame(before, after, t)
  }

  lemma PostedNext(index: Index, t: Bytes, doc: Bytes, tf: nat)
    requires IndexOk(index) && TermOk(t) && Blocks(index, t) <= MAX_BLOCKS
    ensures Posted(index, index[Block(t, Blocks(index, t)) := Posts([Entry(doc, tf)])][Head(t) :=
            Count(Blocks(index, t) + 1)], t,
                   PostingsOf(index, t)[doc := tf])
  {
    var bs := ChainOf(index, t);
    var d: Dict := [Entry(doc, tf)];
    var r := bs + [d];
    assert TermIn(index, t);
    ChainIsOwn(index, t);
    StartBlock(bs, doc, tf);
    WriteNext(index, t, bs, d);
    assert |r| <= MAX_BLOCKS + 1 && doc in Merged(r);
    OnlyItself(index, t);
    OneKey(index, index, t, Block(t, |bs|), Posts(d));
    OneKey(index, index[Block(t, |bs|) := Posts(d)], t, Head(t), Count(|bs| + 1));
    WroteChain(index, index[Block(t, |bs|) := Posts(d)][Head(t) := Count(|bs| + 1)], t, r);
  }

  lemma PostedLast(index: Index, t: Bytes, doc: Bytes, tf: nat)
    requires IndexOk(index) && TermOk(t) && Blocks(index, t) > 0
    requires var d := BlockAt(index, t, Blocks(index, t) - 1); Has(d, doc) || |d| < BLOCK_DOCS
    ensures var n := Blocks(index, t);
            Posted(index, index[Block(t, n - 1) := Posts(SetEntry(BlockAt(index, t, n - 1), doc, tf))], t,
                PostingsOf(index, t)[doc := tf])
  {
    var bs := ChainOf(index, t);
    var d := SetEntry(bs[|bs| - 1], doc, tf);
    assert TermIn(index, t);
    ChainIsOwn(index, t);
    SetInLast(bs, doc, tf);
    WriteLast(index, t, bs, d);
    OnlyItself(index, t);
    OneKey(index, index, t, Block(t, |bs| - 1), Posts(d));
    WroteChain(index, index[Block(t, |bs| - 1) := Posts(d)], t, bs[..|bs| - 1] + [d]);
  }

  lemma WroteChain(before: Index, after: Index, t: Bytes, bs: seq<Dict>)
    requires IndexOk(before) && TermOk(t) && ChainIs(after, t, bs) && BlocksOk(bs) && |bs| <= MAX_BLOCKS + 1
    requires Merged(bs) != map[] || bs == []
    requires OnlyTerm(before, after, t)
    ensures Posted(before, after, t, Merged(bs))
  {
    ChainIsChain(after, t, bs);
    OneTerm(before, after, t);
  }
}
