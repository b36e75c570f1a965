// The append-only file seen by the B+ tree: whole records at byte offsets.  Appends go to the
// pending part and reach the host with one commit, or are dropped together by a discard.
module RecordFile {

  type Byte = b: int | 0 <= b < 256
  type Bytes = seq<Byte>

  /** The outcome of an operation; the names follow the BJ_ERR codes. */
  datatype Status = Ok | State | Eof | TooDeep | BadStructure | HostError

  /** What a leaf stores for a key: the value itself, or a marker pointing at the value's own record. */
  datatype Cell = Inline(bytes: Bytes) | Marker(off: nat)

  datatype Node = Node(id: nat, isLeaf: bool, keys: seq<real>, vals: seq<Cell>, children: seq<nat>)

  datatype Meta = Meta(order: nat, minKeys: nat, size: nat, root: nat, nextId: nat)

  datatype Record =
    | Header
    | NodeRec(node: Node)
    | ValueRec(bytes: Bytes)
    | Trailer(commitLen: nat)
    | MetaRec(meta: Meta)

  const META_SIZE: nat := 135
  const TRAILER_SIZE: nat := 17
  const HEADER_SIZE: nat := 49

  function CellSize(c: Cell): nat {
    match c
    case Inline(bytes) => |bytes|
    case Marker(_) => 26
  }

  function CellsSize(cs: seq<Cell>): nat {
    if cs == [] then 0 else CellSize(cs[0]) + CellsSize(cs[1..])
  }

  /** Encoded length of a record (a number key and a child pointer take 9 bytes each). */
  function Size(r: Record): (n: nat)
    requires r.ValueRec? ==> r.bytes != []
    ensures n > 0
  {
    match r
    case Header => HEADER_SIZE
    case NodeRec(n) => 92 + 9 * |n.keys| + CellsSize(n.vals) + 9 * |n.children|
    case ValueRec(bytes) => |bytes|
    case Trailer(_) => TRAILER_SIZE
    case MetaRec(_) => META_SIZE
  }

  type Store = map<nat, Record>

  /** `s2` still holds every record of `s1` where it was. */
  ghost predicate Extends(s1: Store, s2: Store) {
    forall o :: o in s1 ==> o in s2 && s2[o] == s1[o]
  }

  ghost predicate FitsAt(s: Store, len: nat, o: nat) {
    o in s ==> (s[o].ValueRec? ==> s[o].bytes != []) && o + Size(s[o]) <= len
  }

  ghost predicate Apart(s: Store, o: nat, q: nat)
    requires o in s && s[o].ValueRec? ==> s[o].bytes != []
  {
    o in s && q in s && o < q ==> o + Size(s[o]) <= q
  }

  /** Records lie below `len`, are not empty, and do not overlap. */
  ghost predicate StoreOk(s: Store, len: nat) {
    && (forall o :: FitsAt(s, len, o))
    && (forall o, q :: FitsAt(s, len, o) && Apart(s, o, q))
  }

  /** What is in the store but not at the host lies past the host's end. */
  ghost predicate PendingAt(store: Store, host: Store, hostLen: nat, o: nat) {
    o in store && o !in host ==> hostLen <= o
  }

  /** `store` and `len` include the pending appends; `host` and `hostLen` are what the host holds. */
  datatype File = File(store: Store, len: nat, host: Store, hostLen: nat) {

    ghost predicate Wf() {
      && StoreOk(store, len)
      && StoreOk(host, hostLen)
      && hostLen <= len
      && Extends(host, store)
      && (forall o :: PendingAt(store, host, hostLen, o))
    }

    ghost predicate Clean() {
      Wf() && store == host && len == hostLen
    }

    /** Append one record; its offset is the length before. */
    function Append(r: Record): File
      requires r.ValueRec? ==> r.bytes != []
    {
      this.(store := store[len := r], len := len + Size(r))
    }

    /** The host takes every pending byte. */
    function Commit(): File {
      this.(host := store, hostLen := len)
    }

    /** Every pending byte is dropped. */
    function Discard(): File {
      this.(store := host, len := hostLen)
    }

    /** Cut the file back to `l` bytes. */
    function SetLen(l: nat): File {
      var s := map o | o in store && o < l :: store[o];
      File(s, l, s, l)
    }
  }

  lemma AppendWf(f: File, r: Record)
    requires f.Wf() && (r.ValueRec? ==> r.bytes != [])
    ensures f.Append(r).Wf() && Extends(f.store, f.Append(r).store) && f.len !in f.store
  {
    var g := f.Append(r);
    assert FitsAt(f.store, f.len, f.len);
    forall o ensures FitsAt(g.store, g.len, o) && PendingAt(g.store, g.host, g.hostLen, o)
    {
      assert FitsAt(f.store, f.len, o) && PendingAt(f.store, f.host, f.hostLen, o);
    }
    forall o, q ensures FitsAt(g.store, g.len, o) && Apart(g.store, o, q) {
      assert FitsAt(f.store, f.len, o) && FitsAt(f.store, f.len, q) && Apart(f.store, o, q);
    }
  }

  lemma EmptyFileWf()
    ensures File(map[], 0, map[], 0).Clean()
  {
  }

  lemma NothingPending(f: File)
    requires f.Wf() && f.len == f.hostLen
    ensures f.Clean()
  {
    forall o ensures o in f.store <==> o in f.host && (o in f.store ==> f.store[o] == f.host[o]) {
      assert FitsAt(f.store, f.len, o) && PendingAt(f.store, f.host, f.hostLen, o);
    }
    assert f.store == f.host;
  }

  /** A cut at the end of a record keeps exactly the records up to it. */
  lemma CutAtRecordEnd(f: File, at: nat)
    requires f.Clean() && at in f.store && FitsAt(f.store, f.len, at)
    ensures var g := f.SetLen(at + Size(f.store[at]));
            && g.Clean() && Extends(g.store, f.store) && at in g.store
            && (forall o :: o in f.store ==> (o in g.store <==> o <= at))
  {
    var l := at + Size(f.store[at]);
    var g := f.SetLen(l);
    forall o: nat ensures FitsAt(g.store, g.len, o) && (o in f.store ==> (o in g.store <==> o <= at)) {
      assert FitsAt(f.store, f.len, o) && Apart(f.store, o, at) && Apart(f.store, at, o);
    }
    forall o, q ensures FitsAt(g.store, g.len, o) && Apart(g.store, o, q) {
      assert FitsAt(f.store, f.len, o) && Apart(f.store, o, q);
    }
  }

  /** `f` is `f0` with records added past its end. */
  ghost predicate Grew(f0: File, f: File) {
    f0.len <= f.len && Extends(f0.store, f.store) && (forall o :: PendingAt(f.store, f0.store, f0.len, o))
  }

  /** Rewinding to the current length is no change at all. */
  function Rewound(f: File, l: nat): File {
    if l == f.len then f else f.SetLen(l)
  }

  /** Cutting off what was added gives back the old file. */
  lemma CutBack(f0: File, f: File)
    requires f0.Clean() && f.Clean() && Grew(f0, f)
    ensures Rewound(f, f0.len) == f0
  {
    var g := f.SetLen(f0.len);
    forall o: nat ensures o in g.store <==> o in f0.store {
      assert FitsAt(f0.store, f0.len, o) && PendingAt(f.store, f0.store, f0.len, o);
      assert FitsAt(f.store, f.len, o);
    }
    assert g.store == f0.store;
    if f.len == f0.len {
      forall o: nat ensures o in f.store <==> o in f0.store {
        assert FitsAt(f.store, f.len, o) && PendingAt(f.store, f0.store, f0.len, o);
      }
      assert f.store == f0.store;
    }
  }

  /** Read the node at `p`: absent, not a node, or with mismatched arrays is an error. */
  function ParseNode(s: Store, p: nat): (r: (Status, Node))
    ensures r.0 == Ok <==> p in s && s[p].NodeRec? && NodeShapeOk(s[p].node)
    ensures r.0 == Ok ==> r.1 == s[p].node
  {
    var none := Node(0, true, [], [], []);
    if p !in s then (Eof, none)
    else if !s[p].NodeRec? then (State, none)
    else if !NodeShapeOk(s[p].node) then (State, none)
    else (Ok, s[p].node)
  }

  predicate NodeShapeOk(n: Node) {
    if n.isLeaf then |n.vals| == |n.keys| else |n.children| == |n.keys| + 1
  }

  datatype Option<T> = None | Some(value: T)

  /** The value a cell stands for; a marker is followed to its record. */
  function Resolve(s: Store, c: Cell): Option<Bytes> {
    match c
    case Inline(bytes) => Some(bytes)
    case Marker(off) => if off in s && s[off].ValueRec? then Some(s[off].bytes) else None
  }

  lemma ResolveExtends(s1: Store, s2: Store, c: Cell)
    requires Extends(s1, s2) && Resolve(s1, c).Some?
    ensures Resolve(s2, c) == Resolve(s1, c)
  {
  }
}
