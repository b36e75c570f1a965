// The bounds-checked decoder: a reader that moves over a buffer and reports what it meets.
module Decoder {
  import opened RecordFile
  import opened Wire
  import opened Codec

  /** What the reader reports, in order; the count of a container is the one in its header. */
  datatype Visit =
    | OnScalar(scalar: Scalar)
    | OnBegin(isObject: bool, count: nat)
    | OnKey(key: Bytes)
    | OnEnd(isObject: bool)

  function Visits(v: Value): (vs: seq<Visit>)
    decreases v
  {
    match v
    case Leaf(s) => [OnScalar(s)]
    case Container(o, ms) => [OnBegin(o, |ms|)] + VisitsMembers(o, ms) + [OnEnd(o)]
  }

  function VisitsMembers(isObject: bool, ms: seq<Member>): (vs: seq<Visit>)
    decreases ms
  {
    if ms == [] then [] else VisitsMember(isObject, ms[0]) + VisitsMembers(isObject, ms[1..])
  }

  function VisitsMember(isObject: bool, m: Member): (vs: seq<Visit>)
    decreases m
  {
    KeyVisits(isObject, m.key) + Visits(m.value)
  }

  function KeyVisits(isObject: bool, key: Bytes): seq<Visit> {
    if isObject then [OnKey(key)] else []
  }

  lemma {:induction false} VisitsSnoc(o: bool, ms: seq<Member>, m: Member)
    ensures VisitsMembers(o, ms + [m]) == VisitsMembers(o, ms) + VisitsMember(o, m)
  {
    if ms == [] {
      assert ([] + [m])[1..] == [];
    } else {
      assert (ms + [m])[1..] == ms[1..] + [m];
      VisitsSnoc(o, ms[1..], m);
    }
  }

  lemma NoKey(o: bool, count: nat, d: Bytes, pos: nat, depth: nat)
    requires pos <= |d| && count > 0 && KeyEnd(o, d, pos) == None
    ensures ParseMembers(o, count, d, pos, depth) == FailMembers(EndOfInput)
  {
  }

  /** Members already read, in front of what parsing the rest gives. */
  function Behind(done: seq<Member>, rest: ParsedMembers): ParsedMembers {
    if rest.FailMembers? then rest else GotMembers(done + rest.ms, rest.end)
  }

  lemma BehindNone(p: ParsedMembers)
    ensures Behind([], p) == p
  {
    if p.GotMembers? {
      assert [] + p.ms == p.ms;
    }
  }

  lemma BehindPrepend(done: seq<Member>, m: Member, rest: ParsedMembers)
    ensures Behind(done, Prepend(m, rest)) == Behind(done + [m], rest)
  {
    if rest.GotMembers? {
      assert done + ([m] + rest.ms) == done + [m] + rest.ms;
    }
  }

  /** Having read `done`, the reader stands where parsing the `left` other members goes on. */
  ghost predicate Reading(o: bool, left: nat, d: Bytes, pos: nat, depth: nat, done: seq<Member>, rest: ParsedMembers,
                          p: ParsedMembers) {
    pos <= |d| && rest == ParseMembers(o, left, d, pos, depth) && p == Behind(done, rest)
  }

  lemma ReadOne(o: bool, left: nat, d: Bytes, was: nat, pos: nat, depth: nat, done: seq<Member>, m: Member,
                goal: ParsedMembers, rest: ParsedMembers, p: ParsedMembers)
    requires left > 0 && Reading(o, left, d, was, depth, done, goal, p)
    requires pos <= |d| && rest == ParseMembers(o, left - 1, d, pos, depth) && goal == Prepend(m, rest)
    ensures Reading(o, left - 1, d, pos, depth, done + [m], rest, p)
  {
    BehindPrepend(done, m, rest);
  }

  lemma ReadAll(o: bool, d: Bytes, pos: nat, depth: nat, done: seq<Member>, rest: ParsedMembers, p: ParsedMembers)
    requires Reading(o, 0, d, pos, depth, done, rest, p)
    ensures p == GotMembers(done, pos)
  {
    assert done + [] == done;
  }

  lemma SeenSnoc(before: seq<Visit>, isObject: bool, done: seq<Member>, m: Member)
    ensures (before + VisitsMembers(isObject, done)) + VisitsMember(isObject, m)
            == before + VisitsMembers(isObject, done + [m])
  {
    VisitsSnoc(isObject, done, m);
    Regroup(before, VisitsMembers(isObject, done), VisitsMember(isObject, m));
  }

  lemma Regroup(a: seq<Visit>, b: seq<Visit>, c: seq<Visit>)
    ensures (a + b) + c == a + (b + c)
  {
  }

  lemma SeenMember(before: seq<Visit>, isObject: bool, m: Member)
    ensures (before + KeyVisits(isObject, m.key)) + Visits(m.value) == before + VisitsMember(isObject, m)
  {
    assert VisitsMember(isObject, m) == KeyVisits(isObject, m.key) + Visits(m.value);
  }


  class Reader {
    const d: Bytes
    var pos: nat
    var depth: nat
    var seen: seq<Visit>

    constructor (d: Bytes)
      ensures this.d == d && pos == 0 && depth == 0 && seen == []
    {
      this.d, pos, depth, seen := d, 0, 0, [];
    }

    function Need(n: nat): bool
      requires pos <= |d|
      reads this
    {
      n <= |d| - pos
    }

    method U32() returns (v: nat)
      requires pos + 4 <= |d|
      modifies this`pos
      ensures pos == old(pos) + 4 && v == Rd32(d, old(pos))
    {
      v := Rd32(d, pos);
      pos := pos + 4;
    }

    /** The length-prefixed bytes of a string or binary; None if they are not all there. */
    method Run() returns (s: Option<Bytes>)
      requires pos <= |d|
      modifies this`pos
      ensures old(pos) <= pos <= |d|
      ensures s.None? <==> |d| - old(pos) < 4 || |d| - old(pos) - 4 < Rd32(d, old(pos))
      ensures s.Some? ==> pos == old(pos) + 4 + Rd32(d, old(pos)) && s.value == d[old(pos) + 4..pos]
    {
      if !Need(4) {
        return None;
      }
      var n := U32();
      if !Need(n) {
        return None;
      }
      s := Some(d[pos..pos + n]);
      pos := pos + n;
    }

    /** The eight bytes of a number, date or pointer. */
    method Word(t: Byte) returns (e: Option<DecodeError>, s: Scalar)
      requires pos <= |d| && (t == T_INT || t == T_FLOAT || t == T_DATE || t == T_POINTER)
      modifies this`pos
      ensures pos <= |d|
      ensures |d| - old(pos) < 8 ==> e == Some(EndOfInput)
      ensures |d| - old(pos) >= 8 ==>
        && pos == old(pos) + 8
        && ParseWord(t, Unsigned(d, old(pos)), pos) == if e.Some? then FailScalar(e.value) else GotScalar(s, pos)
    {
      e, s := None, Null;
      if !Need(8) {
        return Some(EndOfInput), s;
      }
      var u := Unsigned(d, pos);
      pos := pos + 8;
      var v := Signed(u);
      if t == T_INT {
        if v < -MAX_SAFE || v > MAX_SAFE {
          return Some(IntRange), s;
        }
        s := Int(v);
      } else if t == T_FLOAT {
        s := Float(u);
      } else if t == T_DATE {
        s := Date(ToDouble(v));
      } else {
        if u > MAX_SAFE {
          return Some(PointerRange), s;
        }
        s := Pointer(u);
      }
    }

    /** The scalar of type `t` whose payload starts here. */
    method DecodeScalar(t: Byte, ghost p: ParsedScalar) returns (e: Option<DecodeError>)
      requires pos <= |d| && p == ParseScalar(t, d, pos)
      modifies this`pos, this`seen
      ensures pos <= |d|
      ensures p.FailScalar? ==> e == Some(p.e)
      ensures p.GotScalar? ==> e == None && pos == p.end && seen == old(seen) + [OnScalar(p.s)]
    {
      e := None;
      var s := Null;
      if t == T_NULL {
      } else if t == T_FALSE || t == T_TRUE {
        s := Bool(t == T_TRUE);
      } else if t == T_OID {
        if !Need(12) {
          return Some(EndOfInput);
        }
        s := Oid(d[pos..pos + 12]);
        pos := pos + 12;
      } else if t == T_STRING || t == T_BINARY {
        var run := Run();
        if run.None? {
          return Some(EndOfInput);
        }
        s := if t == T_STRING then Text(run.value) else Binary(run.value);
      } else if t == T_INT || t == T_FLOAT || t == T_DATE || t == T_POINTER {
        e, s := Word(t);
        if e.Some? {
          return;
        }
      } else {
        return Some(UnknownType);
      }
      seen := seen + [OnScalar(s)];
    }

    /** Decode the value that starts here, reporting all of it. */
    method DecodeValue(ghost p: Parsed) returns (e: Option<DecodeError>)
      requires pos <= |d| && p == Parse(d, pos, depth)
      modifies this
      ensures pos <= |d| && depth == old(depth)
      ensures p.Fail? ==> e == Some(p.e)
      ensures p.Got? ==> e == None && pos == p.end && seen == old(seen) + Visits(p.v)
      decreases |d| - pos, 0, 0
    {
      if depth > MAX_DEPTH {
        return Some(DepthExceeded);
      }
      if !Need(1) {
        return Some(EndOfInput);
      }
      var t := d[pos];
      pos := pos + 1;
      if t == T_ARRAY || t == T_OBJECT {
        e := DecodeContainer(t == T_OBJECT, p);
      } else {
        e := DecodeScalar(t, ParseScalar(t, d, pos));
      }
    }

    /** The container whose header starts here, after its type byte. */
    method DecodeContainer(isObject: bool, ghost p: Parsed) returns (e: Option<DecodeError>)
      requires pos <= |d|
      requires !HeaderFits(d, pos) ==> p == Fail(EndOfInput)
      requires HeaderFits(d, pos) ==>
               p == ContainerOf(isObject, ParseMembers(isObject, Rd32(d, pos + 4), d, pos + 8, depth))
      modifies this
      ensures pos <= |d| && depth == old(depth)
      ensures p.Fail? ==> e == Some(p.e)
      ensures p.Got? ==> e == None && pos == p.end && seen == old(seen) + Visits(p.v)
      decreases |d| - pos, 3, 0
    {
      if !Need(4) {
        return Some(EndOfInput);
      }
      var size := U32();
      if !Need(size) || !Need(4) {
        return Some(EndOfInput);
      }
      var count := U32();
      seen := seen + [OnBegin(isObject, count)];
      ghost var m := ParseMembers(isObject, count, d, pos, depth);
      e := DecodeMembers(isObject, count, m);
      if e == None {
        seen := seen + [OnEnd(isObject)];
      }
    }

    /** The members of a container. */
    method DecodeMembers(isObject: bool, count: nat, ghost p: ParsedMembers) returns (e: Option<DecodeError>)
      requires pos <= |d| && p == ParseMembers(isObject, count, d, pos, depth)
      modifies this
      ensures pos <= |d| && depth == old(depth)
      ensures p.FailMembers? ==> e == Some(p.e)
      ensures p.GotMembers? ==> e == None && pos == p.end && seen == old(seen) + VisitsMembers(isObject, p.ms)
      decreases |d| - pos, 2, 1
    {
      ghost var done: seq<Member> := [];
      ghost var rest := p;
      BehindNone(p);
      for i := 0 to count
        invariant old(pos) <= pos <= |d| && depth == old(depth)
        invariant Reading(isObject, count - i, d, pos, depth, done, rest, p)
        invariant seen == old(seen) + VisitsMembers(isObject, done)
      {
        ghost var m := Member([], Leaf(Null));
        e, m, rest := DecodeNext(isObject, count - i, done, rest, p);
        if e.Some? {
          return;
        }
        SeenSnoc(old(seen), isObject, done, m);
        done := done + [m];
      }
      e := None;
      ReadAll(isObject, d, pos, depth, done, rest, p);
    }

    /** The next member, after those already read. */
    method DecodeNext(isObject: bool, ghost left: nat, ghost done: seq<Member>, ghost goal: ParsedMembers,
                      ghost p: ParsedMembers)
      returns (e: Option<DecodeError>, ghost m: Member, ghost rest: ParsedMembers)
      requires left > 0 && Reading(isObject, left, d, pos, depth, done, goal, p)
      modifies this
      ensures pos <= |d| && depth == old(depth)
      ensures e.Some? ==> p == FailMembers(e.value)
      ensures e.None? ==>
        && pos > old(pos) && Reading(isObject, left - 1, d, pos, depth, done + [m], rest, p)
        && seen == old(seen) + VisitsMember(isObject, m)
      decreases |d| - pos, 2, 0
    {
      ghost var start := pos;
      e, m, rest := DecodeMember(isObject, left, goal);
      if e.None? {
        ReadOne(isObject, left, d, start, pos, depth, done, m, goal, rest, p);
      }
    }

    /** A member: its key, if the container has keys, and then its value. */
    method DecodeMember(isObject: bool, ghost left: nat, ghost goal: ParsedMembers)
      returns (e: Option<DecodeError>, ghost m: Member, ghost rest: ParsedMembers)
      requires pos <= |d| && left > 0 && goal == ParseMembers(isObject, left, d, pos, depth)
      modifies this
      ensures pos <= |d| && depth == old(depth)
      ensures e.Some? ==> goal == FailMembers(e.value)
      ensures e.None? ==>
        && pos > old(pos) && rest == ParseMembers(isObject, left - 1, d, pos, depth)
        && goal == Prepend(m, rest) && seen == old(seen) + VisitsMember(isObject, m)
      decreases |d| - pos, 1, 0
    {
      ghost var start := pos;
      m, rest := Member([], Leaf(Null)), FailMembers(EndOfInput);
      var key;
      e, key := DecodeKey(isObject);
      if e.Some? {
        NoKey(isObject, left, d, start, depth);
        return;
      }
      ghost var at, v := pos, Parse(d, pos, depth + 1);
      e := DecodeInner(v);
      if v.Got? {
        m, rest := Member(key, v.v), ParseMembers(isObject, left - 1, d, pos, depth);
      }
      ParseOne(isObject, left, d, start, depth, at, key, v, rest);
      SeenMember(old(seen), isObject, m);
    }

    /** The value of a member, one level down. */
    method DecodeInner(ghost p: Parsed) returns (e: Option<DecodeError>)
      requires pos <= |d| && p == Parse(d, pos, depth + 1)
      modifies this
      ensures pos <= |d| && depth == old(depth)
      ensures p.Fail? ==> e == Some(p.e)
      ensures p.Got? ==> e == None && pos == p.end && seen == old(seen) + Visits(p.v)
      decreases |d| - pos, 0, 1
    {
      depth := depth + 1;
      e := DecodeValue(p);
      depth := depth - 1;
    }

    /** The key of the next entry of an object; nothing in an array. */
    method DecodeKey(isObject: bool) returns (e: Option<DecodeError>, key: Bytes)
      requires pos <= |d|
      modifies this`pos, this`seen
      ensures old(pos) <= pos <= |d|
      ensures KeyEnd(isObject, d, old(pos)).None? ==> e == Some(EndOfInput)
      ensures KeyEnd(isObject, d, old(pos)).Some? ==>
        && e == None && KeyEnd(isObject, d, old(pos)) == Some(pos)
        && key == KeyAt(isObject, d, old(pos), pos) && seen == old(seen) + KeyVisits(isObject, key)
    {
      e, key := None, [];
      if isObject {
        var run := Run();
        if run.None? {
          return Some(EndOfInput), [];
        }
        key := run.value;
        seen := seen + [OnKey(key)];
      }
    }
  }
}
