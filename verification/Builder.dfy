// The streaming builder: values are appended as the host calls them out, containers are opened with
// blank sizes that are patched when they close.
module Builder {
  import opened RecordFile
  import opened Wire
  import opened Codec
  import opened Decoder

  /** What the host calls out; the visits of a decoder without the counts. */
  datatype Call =
    | PutScalar(scalar: Scalar)
    | Begin(isObject: bool)
    | PutKey(key: Bytes)
    | End(isObject: bool)

  function Erase(v: Visit): Call {
    match v
    case OnScalar(s) => PutScalar(s)
    case OnBegin(o, _) => Begin(o)
    case OnKey(k) => PutKey(k)
    case OnEnd(o) => End(o)
  }

  function EraseAll(vs: seq<Visit>): (cs: seq<Call>)
    ensures |cs| == |vs| && forall i :: 0 <= i < |cs| ==> cs[i] == Erase(vs[i])
  {
    seq(|vs|, i requires 0 <= i < |vs| => Erase(vs[i]))
  }

  lemma EraseConcat(a: seq<Visit>, b: seq<Visit>)
    ensures EraseAll(a + b) == EraseAll(a) + EraseAll(b)
  {
  }

  /** A container that is still open; `key` waits for its value. */
  datatype Open = Open(isObject: bool, members: seq<Member>, key: Option<Bytes>)

  datatype Frame = Frame(sizePos: nat, count: nat, isObject: bool, pendingKey: bool)

  const BLANK: Bytes := [0, 0, 0, 0, 0, 0, 0, 0]

  function KeyPart(key: Option<Bytes>): Bytes {
    if key.Some? then Prefixed(key.value) else []
  }

  /** The bytes of an open container. */
  function OpenBytes(o: Open): Bytes {
    [ContainerType(o.isObject)] + BLANK + EncodeMembers(o.isObject, o.members) + KeyPart(o.key)
  }

  function OpensBytes(os: seq<Open>): Bytes {
    if os == [] then [] else OpensBytes(os[..|os| - 1]) + OpenBytes(os[|os| - 1])
  }

  function EncodeAll(vs: seq<Value>): Bytes {
    if vs == [] then [] else EncodeAll(vs[..|vs| - 1]) + Encode(vs[|vs| - 1])
  }

  function KeyCalls(key: Option<Bytes>): seq<Call> {
    if key.Some? then [PutKey(key.value)] else []
  }

  function OpenCalls(o: Open): seq<Call> {
    [Begin(o.isObject)] + EraseAll(VisitsMembers(o.isObject, o.members)) + KeyCalls(o.key)
  }

  function OpensCalls(os: seq<Open>): seq<Call> {
    if os == [] then [] else OpensCalls(os[..|os| - 1]) + OpenCalls(os[|os| - 1])
  }

  function CallsAll(vs: seq<Value>): seq<Call> {
    if vs == [] then [] else CallsAll(vs[..|vs| - 1]) + EraseAll(Visits(vs[|vs| - 1]))
  }

  // ---- what the frames know ----

  /** A frame and the container it stands for; `busy` while a value in it is being written. */
  ghost predicate FrameOk(f: Frame, o: Open, start: nat, level: nat, busy: bool) {
    && f.sizePos == start + 1 && f.isObject == o.isObject
    && f.count == (|o.members| + if busy then 1 else 0) % TWO_32
    && f.pendingKey == (!busy && o.key.Some?) && (o.key.Some? ==> o.isObject && |o.key.value| < TWO_32)
    && (busy && o.isObject ==> o.key.Some?)
    && MembersFit(o.isObject, o.members) && level + 1 + MaxDepth(o.members) <= MAX_DEPTH
  }

  ghost predicate FramesOk(fs: seq<Frame>, os: seq<Open>, base: nat, busy: bool) {
    && |fs| == |os|
    && (fs != [] ==>
          var n := |fs| - 1;
          FramesOk(fs[..n], os[..n], base, true) && FrameOk(fs[n], os[n], base + |OpensBytes(os[..n])|, n, busy))
  }

  lemma FramesSnoc(fs: seq<Frame>, os: seq<Open>, f: Frame, o: Open, base: nat, busy: bool)
    requires FramesOk(fs, os, base, true) && FrameOk(f, o, base + |OpensBytes(os)|, |fs|, busy)
    ensures FramesOk(fs + [f], os + [o], base, busy)
  {
    InitAndLast(fs, f);
    InitAndLast(os, o);
  }

  lemma InitAndLast<T>(s: seq<T>, t: T)
    ensures (s + [t])[..|s|] == s && (s + [t])[|s|] == t && |s + [t]| == |s| + 1
  {
  }

  lemma LastApart<T>(s: seq<T>)
    requires s != []
    ensures s == s[..|s| - 1] + [s[|s| - 1]]
  {
  }

  ghost predicate Whole(v: Value) {
    Fits(v) && Depth(v) <= MAX_DEPTH
  }

  /** Between calls (`busy` is false), or inside one when a value has been counted but not yet written. */
  ghost predicate Inv(buf: Bytes, fs: seq<Frame>, tops: seq<Value>, os: seq<Open>, busy: bool) {
    && buf == EncodeAll(tops) + OpensBytes(os) && FramesOk(fs, os, |EncodeAll(tops)|, busy)
    && forall i :: 0 <= i < |tops| ==> Whole(tops[i])
  }

  ghost predicate Logged(log: seq<Call>, tops: seq<Value>, os: seq<Open>) {
    log == CallsAll(tops) + OpensCalls(os)
  }

  /** The innermost container takes a value now. */
  predicate TakesValue(fs: seq<Frame>) {
    fs != [] && fs[|fs| - 1].isObject ==> fs[|fs| - 1].pendingKey
  }

  function Noted(fs: seq<Frame>): seq<Frame> {
    if fs == [] then fs
    else
      var n := |fs| - 1;
      fs[..n] + [NotedFrame(fs[n])]
  }

  function NotedFrame(f: Frame): Frame {
    f.(count := (f.count + 1) % TWO_32, pendingKey := f.pendingKey && !f.isObject)
  }

  lemma NoteFrame(f: Frame, o: Open, start: nat, level: nat)
    requires FrameOk(f, o, start, level, false) && (f.isObject ==> f.pendingKey)
    ensures FrameOk(NotedFrame(f), o, start, level, true)
  {
  }

  lemma Note(buf: Bytes, fs: seq<Frame>, tops: seq<Value>, os: seq<Open>)
    requires Inv(buf, fs, tops, os, false) && TakesValue(fs)
    ensures Inv(buf, Noted(fs), tops, os, true)
  {
    if fs != [] {
      var n := |fs| - 1;
      NoteFrame(fs[n], os[n], |EncodeAll(tops)| + |OpensBytes(os[..n])|, n);
      LastApart(os);
      FramesSnoc(fs[..n], os[..n], NotedFrame(fs[n]), os[n], |EncodeAll(tops)|, true);
    }
  }

  /** The innermost container, or the top level, after a value. */
  function TopsWith(tops: seq<Value>, os: seq<Open>, v: Value): seq<Value> {
    if os == [] then tops + [v] else tops
  }

  /** The key a value goes under in an open container. */
  function KeyFor(o: Open): Bytes {
    if o.key.Some? then o.key.value else []
  }

  function WithMember(o: Open, v: Value): Open {
    o.(members := o.members + [Member(KeyFor(o), v)], key := None)
  }

  function OpensWith(os: seq<Open>, v: Value): seq<Open> {
    if os == [] then os else os[..|os| - 1] + [WithMember(os[|os| - 1], v)]
  }

  lemma {:induction false} EncodeSnoc(o: bool, ms: seq<Member>, m: Member)
    ensures EncodeMembers(o, ms + [m]) == EncodeMembers(o, ms) + EncodeMember(o, m)
  {
    if ms == [] {
      assert ([] + [m])[1..] == [];
    } else {
      assert (ms + [m])[1..] == ms[1..] + [m];
      EncodeSnoc(o, ms[1..], m);
      Assoc(EncodeMember(o, ms[0]), EncodeMembers(o, ms[1..]), EncodeMember(o, m));
    }
  }

  lemma {:induction false} FitsSnoc(o: bool, ms: seq<Member>, m: Member)
    ensures MembersFit(o, ms + [m]) <==> MembersFit(o, ms) && MemberFits(o, m)
  {
    if ms == [] {
      assert ([] + [m])[1..] == [];
    } else {
      assert (ms + [m])[1..] == ms[1..] + [m];
      FitsSnoc(o, ms[1..], m);
    }
  }

  lemma {:induction false} DepthSnoc(ms: seq<Member>, m: Member)
    ensures MaxDepth(ms + [m]) == if Depth(m.value) > MaxDepth(ms) then Depth(m.value) else MaxDepth(ms)
  {
    if ms == [] {
      assert ([] + [m])[1..] == [];
    } else {
      assert (ms + [m])[1..] == ms[1..] + [m];
      DepthSnoc(ms[1..], m);
    }
  }

  lemma FrameWithValue(f: Frame, o: Open, start: nat, level: nat, v: Value)
    requires FrameOk(f, o, start, level, true) && Fits(v) && level + 1 + Depth(v) <= MAX_DEPTH
    ensures FrameOk(f, WithMember(o, v), start, level, false)
  {
    FitsSnoc(o.isObject, o.members, Member(KeyFor(o), v));
    DepthSnoc(o.members, Member(KeyFor(o), v));
  }

  lemma BytesWithValue(o: Open, v: Value)
    requires o.isObject <==> o.key.Some?
    ensures OpenBytes(WithMember(o, v)) == OpenBytes(o) + Encode(v)
  {
    EncodeSnoc(o.isObject, o.members, Member(KeyFor(o), v));
  }

  lemma CallsWithValue(o: Open, v: Value)
    requires o.isObject <==> o.key.Some?
    ensures OpenCalls(WithMember(o, v)) == OpenCalls(o) + EraseAll(Visits(v))
  {
    var m := Member(KeyFor(o), v);
    VisitsSnoc(o.isObject, o.members, m);
    EraseConcat(VisitsMembers(o.isObject, o.members), VisitsMember(o.isObject, m));
    EraseConcat(KeyVisits(o.isObject, m.key), Visits(v));
  }

  lemma CompletedFrames(fs: seq<Frame>, tops: seq<Value>, os: seq<Open>, v: Value)
    requires FramesOk(fs, os, |EncodeAll(tops)|, true) && Fits(v) && |os| + Depth(v) <= MAX_DEPTH
    ensures FramesOk(fs, OpensWith(os, v), |EncodeAll(TopsWith(tops, os, v))|, false)
  {
    if os != [] {
      var n := |os| - 1;
      FrameWithValue(fs[n], os[n], |EncodeAll(tops)| + |OpensBytes(os[..n])|, n, v);
      LastApart(fs);
      FramesSnoc(fs[..n], os[..n], fs[n], WithMember(os[n], v), |EncodeAll(tops)|, false);
    }
  }

  lemma CompletedBytes(fs: seq<Frame>, tops: seq<Value>, os: seq<Open>, v: Value)
    requires FramesOk(fs, os, |EncodeAll(tops)|, true) && Fits(v) && |os| + Depth(v) <= MAX_DEPTH
    ensures EncodeAll(TopsWith(tops, os, v)) + OpensBytes(OpensWith(os, v))
            == EncodeAll(tops) + OpensBytes(os) + Encode(v)
    ensures CallsAll(TopsWith(tops, os, v)) + OpensCalls(OpensWith(os, v))
            == CallsAll(tops) + OpensCalls(os) + EraseAll(Visits(v))
  {
    if os == [] {
      InitAndLast(tops, v);
    } else {
      var n := |os| - 1;
      var o := WithMember(os[n], v);
      InitAndLast(os[..n], o);
      BytesWithValue(os[n], v);
      CallsWithValue(os[n], v);
      Regroup(EncodeAll(tops), OpensBytes(os[..n]), OpenBytes(os[n]), Encode(v));
      Regroup(CallsAll(tops), OpensCalls(os[..n]), OpenCalls(os[n]), EraseAll(Visits(v)));
    }
  }

  lemma Regroup<T>(a: seq<T>, b: seq<T>, c: seq<T>, d: seq<T>)
    ensures a + (b + (c + d)) == a + (b + c) + d
  {
  }

  /** A value that has been counted is written behind everything before it. */
  lemma Completed(buf: Bytes, fs: seq<Frame>, tops: seq<Value>, os: seq<Open>, log: seq<Call>, v: Value)
    requires Inv(buf, fs, tops, os, true) && Logged(log, tops, os) && Fits(v) && |os| + Depth(v) <= MAX_DEPTH
    ensures Inv(buf + Encode(v), fs, TopsWith(tops, os, v), OpensWith(os, v), false)
    ensures Logged(log + EraseAll(Visits(v)), TopsWith(tops, os, v), OpensWith(os, v))
  {
    CompletedFrames(fs, tops, os, v);
    CompletedBytes(fs, tops, os, v);
  }

  lemma Opened(buf: Bytes, fs: seq<Frame>, tops: seq<Value>, os: seq<Open>, log: seq<Call>, isObject: bool)
    requires Inv(buf, fs, tops, os, true) && Logged(log, tops, os) && |fs| < MAX_DEPTH
    ensures Inv(buf + [ContainerType(isObject)] + BLANK, fs + [Frame(|buf| + 1, 0, isObject, false)],
                tops, os + [Open(isObject, [], None)], false)
    ensures Logged(log + [Begin(isObject)], tops, os + [Open(isObject, [], None)])
  {
    var o := Open(isObject, [], None);
    InitAndLast(os, o);
    InitAndLast(fs, Frame(|buf| + 1, 0, isObject, false));
    assert OpenBytes(o) == [ContainerType(isObject)] + BLANK;
    assert OpenCalls(o) == [Begin(isObject)];
  }

  lemma Keyed(buf: Bytes, fs: seq<Frame>, tops: seq<Value>, os: seq<Open>, log: seq<Call>, key: Bytes)
    requires Inv(buf, fs, tops, os, false) && Logged(log, tops, os) && |key| < TWO_32
    requires TakesKey(fs)
    ensures Inv(buf + Prefixed(key), AwaitValue(fs), tops, OpensWithKey(os, key), false)
    ensures Logged(log + [PutKey(key)], tops, OpensWithKey(os, key))
  {
    KeyedFrames(fs, os, |EncodeAll(tops)|, key);
    KeyedBytes(EncodeAll(tops), CallsAll(tops), os, key);
  }

  lemma KeyedFrames(fs: seq<Frame>, os: seq<Open>, base: nat, key: Bytes)
    requires FramesOk(fs, os, base, false) && TakesKey(fs) && |key| < TWO_32
    ensures FramesOk(AwaitValue(fs), OpensWithKey(os, key), base, false)
    ensures os[|os| - 1].key.None?
  {
    var n := |fs| - 1;
    FramesSnoc(fs[..n], os[..n], fs[n].(pendingKey := true), os[n].(key := Some(key)), base, false);
  }

  lemma KeyedBytes(before: Bytes, calls: seq<Call>, os: seq<Open>, key: Bytes)
    requires os != [] && os[|os| - 1].key.None?
    ensures before + OpensBytes(OpensWithKey(os, key)) == before + OpensBytes(os) + Prefixed(key)
    ensures calls + OpensCalls(OpensWithKey(os, key)) == calls + OpensCalls(os) + [PutKey(key)]
  {
    var n := |os| - 1;
    OpenWithKey(os[n], key);
    InitAndLast(os[..n], os[n].(key := Some(key)));
    Regroup(before, OpensBytes(os[..n]), OpenBytes(os[n]), Prefixed(key));
    Regroup(calls, OpensCalls(os[..n]), OpenCalls(os[n]), [PutKey(key)]);
  }

  /** The innermost container is an object, and waits for no value. */
  predicate TakesKey(fs: seq<Frame>) {
    fs != [] && fs[|fs| - 1].isObject && !fs[|fs| - 1].pendingKey
  }

  function AwaitValue(fs: seq<Frame>): (r: seq<Frame>)
    requires fs != []
    ensures |r| == |fs|
  {
    fs[..|fs| - 1] + [fs[|fs| - 1].(pendingKey := true)]
  }

  function OpensWithKey(os: seq<Open>, key: Bytes): seq<Open>
    requires os != []
  {
    os[..|os| - 1] + [os[|os| - 1].(key := Some(key))]
  }

  lemma OpenWithKey(o: Open, key: Bytes)
    requires o.key.None?
    ensures OpenBytes(o.(key := Some(key))) == OpenBytes(o) + Prefixed(key)
    ensures OpenCalls(o.(key := Some(key))) == OpenCalls(o) + [PutKey(key)]
  {
  }

  lemma ClosedParts(buf: Bytes, fs: seq<Frame>, tops: seq<Value>, os: seq<Open>)
    requires Inv(buf, fs, tops, os, false) && fs != [] && !fs[|fs| - 1].pendingKey
    ensures var n := |fs| - 1;
            var o, before, sp := os[n], EncodeAll(tops) + OpensBytes(os[..n]), fs[n].sizePos;
            && fs[n].isObject == o.isObject && sp == |before| + 1 && o.key.None? && |o.members| == |os[n].members|
            && buf == before + ([ContainerType(o.isObject)] + BLANK + EncodeMembers(o.isObject, o.members))
            && FramesOk(fs[..n], os[..n], |EncodeAll(tops)|, true)
            && MembersFit(o.isObject, o.members) && n + 1 + MaxDepth(o.members) <= MAX_DEPTH
            && fs[n].count == |o.members| % TWO_32
  {
    var n := |fs| - 1;
    OpenWithoutKey(os[n]);
    Assoc(EncodeAll(tops), OpensBytes(os[..n]), OpenBytes(os[n]));
  }

  lemma OpenWithoutKey(o: Open)
    requires o.key.None?
    ensures OpenBytes(o) == [ContainerType(o.isObject)] + BLANK + EncodeMembers(o.isObject, o.members)
  {
  }

  lemma Assoc<T>(a: seq<T>, b: seq<T>, c: seq<T>)
    ensures a + (b + c) == (a + b) + c
  {
  }

  lemma PatchedBytes(before: Bytes, t: Byte, content: Bytes, buf: Bytes, sp: nat)
    requires buf == before + ([t] + BLANK + content) && sp == |before| + 1
    ensures sp + 8 <= |buf| && buf[..sp - 1] == before && |buf| - (sp + 4) == 4 + |content|
    ensures buf[..sp] == before + [t] && buf[sp + 8..] == content
  {
  }

  lemma ContainerVisits(o: bool, ms: seq<Member>)
    ensures EraseAll(Visits(Container(o, ms))) == [Begin(o)] + EraseAll(VisitsMembers(o, ms)) + [End(o)]
  {
    EraseConcat([OnBegin(o, |ms|)] + VisitsMembers(o, ms), [OnEnd(o)]);
    EraseConcat([OnBegin(o, |ms|)], VisitsMembers(o, ms));
  }

  /** Closing: patching the size and the count turns the open container into an encoded value of its parent. */
  lemma Closed(buf: Bytes, fs: seq<Frame>, tops: seq<Value>, os: seq<Open>)
    requires Inv(buf, fs, tops, os, false) && fs != [] && !fs[|fs| - 1].pendingKey
    ensures fs[|fs| - 1].sizePos + 8 <= |buf|
    ensures |buf| - (fs[|fs| - 1].sizePos + 4) < TWO_32 ==>
      var n, f := |fs| - 1, fs[|fs| - 1];
      var v, before := Container(f.isObject, os[n].members), buf[..f.sizePos - 1];
      && Inv(before, fs[..n], tops, os[..n], true)
      && Fits(v) && n + Depth(v) <= MAX_DEPTH
      && before + Encode(v) == buf[..f.sizePos] + Wr32(|buf| - (f.sizePos + 4)) + Wr32(f.count) + buf[f.sizePos + 8..]
  {
    ClosedFrames(buf, fs, tops, os);
    if |buf| - (fs[|fs| - 1].sizePos + 4) < TWO_32 {
      ClosedValue(buf, fs, tops, os);
    }
  }

  lemma ClosedValue(buf: Bytes, fs: seq<Frame>, tops: seq<Value>, os: seq<Open>)
    requires Inv(buf, fs, tops, os, false) && fs != [] && !fs[|fs| - 1].pendingKey
    requires fs[|fs| - 1].sizePos + 8 <= |buf| && |buf| - (fs[|fs| - 1].sizePos + 4) < TWO_32
    ensures var n, f := |fs| - 1, fs[|fs| - 1];
            var v := Container(f.isObject, os[n].members);
            && Fits(v) && n + Depth(v) <= MAX_DEPTH
            && buf[..f.sizePos - 1] + Encode(v)
               == buf[..f.sizePos] + Wr32(|buf| - (f.sizePos + 4)) + Wr32(f.count) + buf[f.sizePos + 8..]
  {
    var n, f := |fs| - 1, fs[|fs| - 1];
    ClosedParts(buf, fs, tops, os);
    ClosedFrames(buf, fs, tops, os);
    ClosedBytes(buf, buf[..f.sizePos - 1], f.isObject, os[n].members, f.sizePos, |buf| - (f.sizePos + 4), f.count);
  }

  /** What stands before the innermost container. */
  lemma ClosedFrames(buf: Bytes, fs: seq<Frame>, tops: seq<Value>, os: seq<Open>)
    requires Inv(buf, fs, tops, os, false) && fs != [] && !fs[|fs| - 1].pendingKey
    ensures var n, sp := |fs| - 1, fs[|fs| - 1].sizePos;
            && sp + 8 <= |buf| && buf[..sp - 1] == EncodeAll(tops) + OpensBytes(os[..n])
            && Inv(buf[..sp - 1], fs[..n], tops, os[..n], true)
  {
    var n := |fs| - 1;
    var o := os[n];
    ClosedParts(buf, fs, tops, os);
    PatchedBytes(EncodeAll(tops) + OpensBytes(os[..n]), ContainerType(o.isObject), EncodeMembers(o.isObject, o.members),
        buf,
                 fs[n].sizePos);
  }

  lemma ClosedBytes(buf: Bytes, before: Bytes, o: bool, ms: seq<Member>, sp: nat, size: nat, count: nat)
    requires buf == before + ([ContainerType(o)] + BLANK + EncodeMembers(o, ms)) && sp == |before| + 1
             && sp + 8 <= |buf|
    requires MembersFit(o, ms) && count == |ms| % TWO_32 && size == |buf| - (sp + 4) < TWO_32
    ensures Fits(Container(o, ms)) && Depth(Container(o, ms)) == 1 + MaxDepth(ms)
    ensures before + Encode(Container(o, ms)) == buf[..sp] + Wr32(size) + Wr32(count) + buf[sp + 8..]
  {
    PatchedBytes(before, ContainerType(o), EncodeMembers(o, ms), buf, sp);
    PatchedValue(o, ms, before, buf[..sp], size, count, buf[sp + 8..]);
  }

  /** Size and count patched in between what stands before and after them. */
  lemma PatchedValue(o: bool, ms: seq<Member>, before: Bytes, front: Bytes, size: nat, count: nat, content: Bytes)
    requires MembersFit(o, ms) && content == EncodeMembers(o, ms) && front == before + [ContainerType(o)]
    requires size == 4 + |content| < TWO_32 && count == |ms| % TWO_32
    ensures Fits(Container(o, ms)) && Depth(Container(o, ms)) == 1 + MaxDepth(ms)
    ensures before + Encode(Container(o, ms)) == front + Wr32(size) + Wr32(count) + content
  {
    WholeCount(o, ms, count);
    ContainerBytes(o, ms, size, count, content);
    Assoc5(before, [ContainerType(o)], Wr32(size), Wr32(count), content);
  }

  lemma WholeCount(o: bool, ms: seq<Member>, count: nat)
    requires |EncodeMembers(o, ms)| < TWO_32 && count == |ms| % TWO_32
    ensures count == |ms|
  {
  }

  lemma ContainerBytes(o: bool, ms: seq<Member>, size: nat, count: nat, content: Bytes)
    requires content == EncodeMembers(o, ms) && size == 4 + |content| && count == |ms|
    ensures Encode(Container(o, ms)) == [ContainerType(o)] + Wr32(size) + Wr32(count) + content
  {
  }

  lemma Assoc5<T>(a: seq<T>, b: seq<T>, c: seq<T>, d: seq<T>, e: seq<T>)
    ensures a + (b + c + d + e) == (a + b) + c + d + e
  {
    Assoc(a, b + c + d, e);
    Assoc(a, b + c, d);
    Assoc(a, b, c);
  }

  lemma ClosedCalls(all: seq<Call>, os: seq<Open>, o: Open)
    requires o.key.None?
    ensures all + OpensCalls(os + [o]) + [End(o.isObject)]
            == all + OpensCalls(os) + EraseAll(Visits(Container(o.isObject, o.members)))
  {
    InitAndLast(os, o);
    ContainerVisits(o.isObject, o.members);
    var b := [Begin(o.isObject)] + EraseAll(VisitsMembers(o.isObject, o.members));
    assert OpenCalls(o) == b;
    Regroup2(all, OpensCalls(os), b, [End(o.isObject)]);
  }

  lemma Regroup2<T>(a: seq<T>, b: seq<T>, c: seq<T>, d: seq<T>)
    ensures a + (b + c) + d == a + b + (c + d)
  {
  }

  /** The innermost container can be closed as this kind: no key waits, and its size fits. */
  predicate Closes(isObject: bool, fs: seq<Frame>, len: nat) {
    && fs != [] && fs[|fs| - 1].isObject == isObject && !fs[|fs| - 1].pendingKey
    && len < fs[|fs| - 1].sizePos + 4 + TWO_32
  }

  /** Everything that closing the innermost container needs. */
  lemma CloseState(buf: Bytes, fs: seq<Frame>, tops: seq<Value>, os: seq<Open>, log: seq<Call>)
    returns (before: Bytes, calls: seq<Call>, v: Value)
    requires Inv(buf, fs, tops, os, false) && Logged(log, tops, os)
    requires fs != [] && Closes(fs[|fs| - 1].isObject, fs, |buf|)
    ensures fs[|fs| - 1].sizePos + 8 <= |buf|
    ensures Inv(before, fs[..|fs| - 1], tops, os[..|fs| - 1], true) && Logged(calls, tops, os[..|fs| - 1])
    ensures Fits(v) && |fs| - 1 + Depth(v) <= MAX_DEPTH
            && calls + EraseAll(Visits(v)) == log + [End(fs[|fs| - 1].isObject)]
    ensures var f := fs[|fs| - 1];
            before + Encode(v) == buf[..f.sizePos] + Wr32(|buf| - (f.sizePos + 4)) + Wr32(f.count)
                + buf[f.sizePos + 8..]
  {
    var n, f := |fs| - 1, fs[|fs| - 1];
    Closed(buf, fs, tops, os);
    LastApart(os);
    ClosedCalls(CallsAll(tops), os[..n], os[n]);
    before, v, calls := buf[..f.sizePos - 1], Container(f.isObject, os[n].members),
        CallsAll(tops) + OpensCalls(os[..n]);
  }

  class ValueBuilder {
    var buf: Bytes
    var frames: seq<Frame>
    var error: Status
    ghost var tops: seq<Value>
    ghost var open: seq<Open>
    ghost var log: seq<Call>

    /** Until the first error: the buffer is the values called out so far, open containers last. */
    ghost predicate Valid()
      reads this
    {
      error == Ok ==> Inv(buf, frames, tops, open, false) && Logged(log, tops, open) && |frames| <= MAX_DEPTH
    }

    constructor ()
      ensures Valid() && error == Ok && log == [] && frames == []
    {
      buf, frames, error := [], [], Ok;
      tops, open, log := [], [], [];
    }

    method Reset()
      modifies this
      ensures Valid() && error == Ok && log == [] && frames == []
    {
      buf, frames, error := [], [], Ok;
      tops, open, log := [], [], [];
    }

    /** Count a value in its container; an object wants a key first. */
    method NoteValue() returns (e: Status)
      modifies this`frames
      ensures e == if TakesValue(old(frames)) then Ok else State
      ensures frames == if e == Ok then Noted(old(frames)) else old(frames)
    {
      if |frames| > 0 {
        var n := |frames| - 1;
        var f := frames[n];
        if f.isObject {
          if !f.pendingKey {
            return State;
          }
          f := f.(pendingKey := false);
        }
        f := f.(count := (f.count + 1) % TWO_32);
        frames := frames[..n] + [f];
      }
      e := Ok;
    }

    /** The value that was counted has been written. */
    ghost method CompleteValue(before: Bytes, calls: seq<Call>, v: Value)
      requires Inv(before, frames, tops, open, true) && Logged(calls, tops, open) && buf == before + Encode(v)
      requires Fits(v) && |open| + Depth(v) <= MAX_DEPTH
      modifies this`tops, this`open, this`log
      ensures Inv(buf, frames, tops, open, false) && Logged(log, tops, open) && log == calls + EraseAll(Visits(v))
    {
      Completed(before, frames, tops, open, calls, v);
      tops, open, log := TopsWith(tops, open, v), OpensWith(open, v), calls + EraseAll(Visits(v));
    }

    method Put(s: Scalar) returns (e: Status)
      requires Valid() && ScalarFits(s)
      modifies this
      ensures Valid() && e == error
      ensures error == if old(error) != Ok then old(error) else if TakesValue(old(frames)) then Ok else State
      ensures error == Ok ==> log == old(log) + [PutScalar(s)] && |frames| == |old(frames)|
    {
      if error != Ok {
        return error;
      }
      ghost var was := frames;
      error := NoteValue();
      if error == Ok {
        Note(buf, was, tops, open);
        AppendScalar(s);
      }
      e := error;
    }

    /** Write a scalar that has been counted. */
    method AppendScalar(s: Scalar)
      requires Inv(buf, frames, tops, open, true) && Logged(log, tops, open) && |open| <= MAX_DEPTH && ScalarFits(s)
      modifies this`buf, this`tops, this`open, this`log
      ensures Inv(buf, frames, tops, open, false) && Logged(log, tops, open) && log == old(log) + [PutScalar(s)]
    {
      ghost var before := buf;
      buf := buf + EncodeScalar(s);
      assert EraseAll(Visits(Leaf(s))) == [PutScalar(s)];
      CompleteValue(before, log, Leaf(s));
    }

    method BeginContainer(isObject: bool) returns (e: Status)
      requires Valid()
      modifies this
      ensures Valid() && e == error
      ensures error == if old(error) != Ok then old(error) else if !TakesValue(old(frames)) then State
                       else if |old(frames)| >= MAX_DEPTH then TooDeep else Ok
      ensures error == Ok ==> log == old(log) + [Begin(isObject)] && |frames| == |old(frames)| + 1
    {
      if error != Ok {
        return error;
      }
      ghost var was := frames;
      error := NoteValue();
      if error != Ok {
        return error;
      }
      Note(buf, was, tops, open);
      var sizePos := |buf| + 1;
      ghost var before := buf;
      buf := buf + [ContainerType(isObject)] + BLANK;
      if |frames| >= MAX_DEPTH {
        error := TooDeep;
        return error;
      }
      PushFrame(sizePos, isObject, before);
      e := Ok;
    }

    /** A frame for the container whose blank header has just been written. */
    method PushFrame(sizePos: nat, isObject: bool, ghost before: Bytes)
      requires Inv(before, frames, tops, open, true) && Logged(log, tops, open) && |frames| < MAX_DEPTH
      requires buf == before + [ContainerType(isObject)] + BLANK && sizePos == |before| + 1
      modifies this`frames, this`open, this`log
      ensures Inv(buf, frames, tops, open, false) && Logged(log, tops, open)
      ensures log == old(log) + [Begin(isObject)] && |frames| == |old(frames)| + 1
    {
      Opened(before, frames, tops, open, log, isObject);
      frames := frames + [Frame(sizePos, 0, isObject, false)];
      open, log := open + [Open(isObject, [], None)], log + [Begin(isObject)];
    }

    method Key(key: Bytes) returns (e: Status)
      requires Valid() && |key| < TWO_32
      modifies this
      ensures Valid() && e == error
      ensures error == if old(error) != Ok then old(error) else if TakesKey(old(frames)) then Ok else State
      ensures error == Ok ==> log == old(log) + [PutKey(key)] && |frames| == |old(frames)|
    {
      if error != Ok {
        return error;
      }
      if |frames| == 0 || !frames[|frames| - 1].isObject || frames[|frames| - 1].pendingKey {
        error := State;
        return error;
      }
      AppendKey(key);
      e := Ok;
    }

    /** Write a key where one may stand. */
    method AppendKey(key: Bytes)
      requires Inv(buf, frames, tops, open, false) && Logged(log, tops, open) && TakesKey(frames) && |key| < TWO_32
      modifies this`buf, this`frames, this`open, this`log
      ensures Inv(buf, frames, tops, open, false) && Logged(log, tops, open)
      ensures log == old(log) + [PutKey(key)] && |frames| == |old(frames)|
    {
      Keyed(buf, frames, tops, open, log, key);
      buf := buf + Prefixed(key);
      frames := AwaitValue(frames);
      open, log := OpensWithKey(open, key), log + [PutKey(key)];
    }

    /** Overwrite a word in the buffer. */
    method Patch(pos: nat, v: nat)
      requires pos + 4 <= |buf|
      modifies this`buf
      ensures buf == old(buf[..pos]) + Wr32(v) + old(buf[pos + 4..])
    {
      buf := buf[..pos] + Wr32(v) + buf[pos + 4..];
    }

    method PatchHeader(pos: nat, size: nat, count: nat)
      requires pos + 8 <= |buf|
      modifies this`buf
      ensures buf == old(buf)[..pos] + Wr32(size) + Wr32(count) + old(buf)[pos + 8..]
    {
      TwoPatches(buf, pos, size, count);
      Patch(pos, size);
      Patch(pos + 4, count);
    }

    method EndContainer(isObject: bool) returns (e: Status)
      requires Valid()
      modifies this
      ensures Valid() && e == error
      ensures error == if old(error) != Ok then old(error) else if Closes(isObject, old(frames), |old(buf)|) then Ok
              else State
      ensures error == Ok ==> log == old(log) + [End(isObject)] && |frames| == |old(frames)| - 1
    {
      if error != Ok {
        return error;
      }
      if |frames| == 0 || frames[|frames| - 1].isObject != isObject || frames[|frames| - 1].pendingKey {
        error := State;
        return error;
      }
      var f := frames[|frames| - 1];
      if |buf| >= f.sizePos + 4 + TWO_32 {
        frames := frames[..|frames| - 1];
        error := State;
        return error;
      }
      Close();
      e := Ok;
    }

    /** Patch the innermost container and leave it. */
    method Close()
      requires Valid() && error == Ok && |frames| > 0 && Closes(frames[|frames| - 1].isObject, frames, |buf|)
      modifies this
      ensures Valid() && error == Ok
      ensures log == old(log) + [End(old(frames)[|old(frames)| - 1].isObject)] && |frames| == |old(frames)| - 1
    {
      var n := |frames| - 1;
      var f := frames[n];
      ghost var before, calls, v := CloseState(buf, frames, tops, open, log);
      frames := frames[..n];
      PatchHeader(f.sizePos, |buf| - (f.sizePos + 4), f.count);
      open := open[..n];
      CompleteValue(before, calls, v);
    }

    /** The finished bytes; None after an error or while a container is open. */
    method Data() returns (r: Option<Bytes>)
      requires Valid()
      ensures r.Some? <==> error == Ok && frames == []
      ensures r.Some? ==> r.value == EncodeAll(tops) && log == CallsAll(tops)
      ensures r.Some? ==> forall i :: 0 <= i < |tops| ==> Whole(tops[i])
    {
      r := if error != Ok || frames != [] then None else Some(buf);
    }
  }

  lemma TwoPatches(b: Bytes, p: nat, u: nat, v: nat)
    requires p + 8 <= |b|
    ensures var b1 := b[..p] + Wr32(u) + b[p + 4..];
            b1[..p + 4] + Wr32(v) + b1[p + 8..] == b[..p] + Wr32(u) + Wr32(v) + b[p + 8..]
  {
    var b1 := b[..p] + Wr32(u) + b[p + 4..];
    assert b1[..p + 4] == b[..p] + Wr32(u);
    assert b1[p + 8..] == b[p + 8..];
  }

  // ---- the round trip ----

  lemma AtInPrefix(a: Bytes, b: Bytes, pos: nat, x: Bytes)
    requires At(a, pos, x)
    ensures At(a + b, pos, x)
  {
    assert (a + b)[pos..pos + |x|] == a[pos..pos + |x|];
  }

  /** Where the i-th of several values stands. */
  lemma {:induction false} EachStands(vs: seq<Value>, i: nat)
    requires i < |vs|
    ensures At(EncodeAll(vs), |EncodeAll(vs[..i])|, Encode(vs[i]))
    decreases |vs|
  {
    var n := |vs| - 1;
    if i == n {
      assert EncodeAll(vs) == EncodeAll(vs[..n]) + Encode(vs[n]);
    } else {
      EachStands(vs[..n], i);
      assert vs[..n][..i] == vs[..i];
      AtInPrefix(EncodeAll(vs[..n]), Encode(vs[n]), |EncodeAll(vs[..i])|, Encode(vs[i]));
    }
  }

  /**
   * What a run of the builder leaves, a decoder reads back: at the place of each of the values built,
   * the header tells its size and decoding yields it, dates as doubles, or the error of its first
   * unsafe number.
   */
  lemma FinishedDecodes(b: ValueBuilder, i: nat)
    requires b.Valid() && b.error == Ok && b.frames == [] && i < |b.tops|
    ensures b.log == CallsAll(b.tops)
    ensures var v, pos := b.tops[i], |EncodeAll(b.tops[..i])|;
            && pos + |Encode(v)| <= |b.buf| && ValueSize(b.buf, pos) == Some(|Encode(v)|)
            && Parse(b.buf, pos, 0) == Outcome(v, pos + |Encode(v)|)
            && (Parse(b.buf, pos, 0) == Got(v, pos + |Encode(v)|) <==> ValueError(v) == None && DatesKept(v))
  {
    assert b.buf == EncodeAll(b.tops);
    TopDecodes(b.tops, i);
  }

  lemma TopDecodes(tops: seq<Value>, i: nat)
    requires i < |tops| && Whole(tops[i])
    ensures var v, pos, d := tops[i], |EncodeAll(tops[..i])|, EncodeAll(tops);
            && pos + |Encode(v)| <= |d| && ValueSize(d, pos) == Some(|Encode(v)|)
            && Parse(d, pos, 0) == Outcome(v, pos + |Encode(v)|)
            && (Parse(d, pos, 0) == Got(v, pos + |Encode(v)|) <==> ValueError(v) == None && DatesKept(v))
  {
    EachStands(tops, i);
    WholeDecodes(tops[i], EncodeAll(tops), |EncodeAll(tops[..i])|);
  }

  lemma WholeDecodes(v: Value, d: Bytes, pos: nat)
    requires Whole(v) && At(d, pos, Encode(v))
    ensures ValueSize(d, pos) == Some(|Encode(v)|) && Parse(d, pos, 0) == Outcome(v, pos + |Encode(v)|)
    ensures Parse(d, pos, 0) == Got(v, pos + |Encode(v)|) <==> ValueError(v) == None && DatesKept(v)
  {
    SizeOfEncoded(v, d, pos);
    ParseEncode(v, d, pos, 0);
  }
}
