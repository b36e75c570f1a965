// Update documents: parsing the operators into a list, and applying it to a document field by field.
module Update {
  import opened RecordFile
  import opened Codec
  import opened ArrayUpdates

  const MAX_FIELDS: nat := 128
  const DOT: Byte := 46

  datatype Op = Op(name: Bytes, kind: Kind, operand: Value)

  function KindOf(key: Bytes): Option<Kind> {
    if key == Ascii("$set") then Some(Set)
    else if key == Ascii("$unset") then Some(Unset)
    else if key == Ascii("$inc") then Some(Inc)
    else if key == Ascii("$mul") then Some(Mul)
    else if key == Ascii("$min") then Some(Min)
    else if key == Ascii("$max") then Some(Max)
    else if key == Ascii("$rename") then Some(Rename)
    else if key == Ascii("$setOnInsert") then Some(SetOnInsert)
    else if key == Ascii("$addToSet") then Some(AddToSet)
    else if key == Ascii("$push") then Some(Push)
    else if key == Ascii("$pull") then Some(Pull)
    else if key == Ascii("$pullAll") then Some(PullAll)
    else if key == Ascii("$pop") then Some(Pop)
    else if key == Ascii("$bit") then Some(Bit)
    else None
  }

  /** What each operator is called. */
  function OperatorName(kind: Kind): (s: string)
    ensures forall i :: 0 <= i < |s| ==> s[i] < 128 as char
  {
    match kind
    case Set => "$set"
    case Unset => "$unset"
    case Inc => "$inc"
    case Mul => "$mul"
    case Min => "$min"
    case Max => "$max"
    case Rename => "$rename"
    case SetOnInsert => "$setOnInsert"
    case AddToSet => "$addToSet"
    case Push => "$push"
    case Pull => "$pull"
    case PullAll => "$pullAll"
    case Pop => "$pop"
    case Bit => "$bit"
  }

  /** A key is read as an operator exactly if it is its name. */
  lemma KindOfName(key: Bytes, kind: Kind)
    ensures KindOf(key) == Some(kind) <==> key == Ascii(OperatorName(kind))
  {
    NameRead(kind);
    if KindOf(key).Some? {
      ReadName(key, KindOf(key).value);
      if KindOf(key).value != kind {
        NamesDiffer(KindOf(key).value, kind);
      }
    }
  }

  lemma NameRead(kind: Kind)
    ensures KindOf(Ascii(OperatorName(kind))).Some?
  {
    match kind {
      case Set => case Unset => case Inc => case Mul => case Min => case Max => case Rename =>
      case SetOnInsert => case AddToSet => case Push => case Pull => case PullAll => case Pop => case Bit =>
    }
  }

  lemma ReadName(key: Bytes, kind: Kind)
    requires KindOf(key) == Some(kind)
    ensures key == Ascii(OperatorName(kind))
  {
    match kind {
      case Set => case Unset => case Inc => case Mul => case Min => case Max => case Rename =>
      case SetOnInsert => case AddToSet => case Push => case Pull => case PullAll => case Pop => case Bit =>
    }
  }

  lemma NamesDiffer(a: Kind, b: Kind)
    requires a != b
    ensures Ascii(OperatorName(a)) != Ascii(OperatorName(b))
  {
    var s, t := OperatorName(a), OperatorName(b);
    if |s| == |t| {
      var i := if s[1] != t[1] then 1 else if s[2] != t[2] then 2 else 3;
      assert s[i] != t[i];
      assert Ascii(s)[i] != Ascii(t)[i];
    } else {
      assert |Ascii(s)| != |Ascii(t)|;
    }
  }

  // ---- what an update must be ----

  /** Not the document's id, and no dotted path. */
  predicate NameOk(name: Bytes) {
    name != Ascii("_id") && DOT !in name
  }

  predicate BitOperand(v: Value) {
    && v.Container? && v.isObject && v.members != []
    && forall i :: 0 <= i < |v.members| ==>
         && v.members[i].key in {Ascii("and"), Ascii("or"), Ascii("xor")}
         && v.members[i].value.Leaf? && v.members[i].value.scalar.Int?
  }

  predicate OperandOk(env: Env, kind: Kind, v: Value) {
    match kind
    case Rename => v.Leaf? && v.scalar.Text?
    case Pop => env.whole(v) == Some(1) || env.whole(v) == Some(-1)
    case PullAll => IsArray(v)
    case Bit => BitOperand(v)
    case _ => true
  }

  function DestOf(op: Op): Bytes
    requires op.operand.Leaf? && op.operand.scalar.Text?
  {
    op.operand.scalar.s
  }

  predicate OpOk(env: Env, op: Op) {
    NameOk(op.name) && OperandOk(env, op.kind, op.operand)
  }

  /** Each field is the target of one operator only. */
  ghost predicate FieldsOk(env: Env, ops: seq<Op>) {
    && |ops| <= MAX_FIELDS
    && (forall i :: 0 <= i < |ops| ==> OpOk(env, ops[i]))
    && forall i, j :: 0 <= i < j < |ops| ==> ops[i].name != ops[j].name
  }

  /** A rename's destination is a proper name that is no other operator's target or destination. */
  predicate DestOk(ops: seq<Op>, k: nat)
    requires k < |ops| && forall j :: 0 <= j < |ops| && ops[j].kind == Rename ==>
             ops[j].operand.Leaf? && ops[j].operand.scalar.Text?
  {
    ops[k].kind == Rename ==>
      && DestOf(ops[k]) != [] && NameOk(DestOf(ops[k]))
      && forall j :: 0 <= j < |ops| && j != k ==> Apart(ops[j], DestOf(ops[k]))
  }

  predicate Apart(op: Op, name: Bytes)
    requires op.kind == Rename ==> op.operand.Leaf? && op.operand.scalar.Text?
  {
    op.name != name && (op.kind == Rename ==> DestOf(op) != name)
  }

  lemma RenamesAreTexts(env: Env, ops: seq<Op>)
    requires forall i :: 0 <= i < |ops| ==> OpOk(env, ops[i])
    ensures forall j :: 0 <= j < |ops| && ops[j].kind == Rename ==> ops[j].operand.Leaf? && ops[j].operand.scalar.Text?
  {
    forall j | 0 <= j < |ops| && ops[j].kind == Rename ensures ops[j].operand.Leaf? && ops[j].operand.scalar.Text? {
      assert OpOk(env, ops[j]);
    }
  }

  ghost predicate OpsOk(env: Env, ops: seq<Op>) {
    FieldsOk(env, ops) && (RenamesAreTexts(env, ops); forall k :: 0 <= k < |ops| ==> DestOk(ops, k))
  }

  /** Masks for $bit: an object of whole numbers, each under the name of an operation on bits. */
  ghost predicate BitWords(v: Value) {
    && v.Container? && v.isObject && v.members != []
    && forall m :: m in v.members ==>
         && (m.key == Ascii("and") || m.key == Ascii("or") || m.key == Ascii("xor"))
         && m.value.Leaf? && m.value.scalar.Int?
  }

  /** A text that can be a field's new name: not empty, not the id, no path. */
  ghost predicate NewName(v: Value) {
    v.Leaf? && v.scalar.Text? && v.scalar.s != [] && v.scalar.s != Ascii("_id") && 46 !in v.scalar.s
  }

  /** The rules for the operators of an update, spelled out. */
  ghost predicate Proper(env: Env, ops: seq<Op>) {
    && |ops| <= 128
    && (forall k :: 0 <= k < |ops| ==> ops[k].name != Ascii("_id") && 46 !in ops[k].name)
    && (forall j, k :: 0 <= j < |ops| && 0 <= k < |ops| && j != k ==> ops[j].name != ops[k].name)
    && (forall k :: 0 <= k < |ops| && ops[k].kind == Pop ==> env.whole(ops[k].operand) in {Some(1), Some(-1)})
    && (forall k :: 0 <= k < |ops| && ops[k].kind == PullAll ==> IsArray(ops[k].operand))
    && (forall k :: 0 <= k < |ops| && ops[k].kind == Bit ==> BitWords(ops[k].operand))
    && (forall k :: 0 <= k < |ops| && ops[k].kind == Rename ==> NewName(ops[k].operand))
    && (forall j, k :: 0 <= j < |ops| && 0 <= k < |ops| && j != k && ops[k].kind == Rename ==>
         && ops[j].name != ops[k].operand.scalar.s
         && (ops[j].kind == Rename ==> ops[j].operand.scalar.s != ops[k].operand.scalar.s))
  }

  lemma OpsOkIsProper(env: Env, ops: seq<Op>)
    ensures OpsOk(env, ops) <==> Proper(env, ops)
  {
    if OpsOk(env, ops) {
      RenamesAreTexts(env, ops);
      forall k | 0 <= k < |ops| ensures OpOk(env, ops[k]) && DestOk(ops, k) {
      }
      forall j, k | 0 <= j < |ops| && 0 <= k < |ops| && j != k && ops[k].kind == Rename
        ensures Apart(ops[j], DestOf(ops[k]))
      {
        assert DestOk(ops, k);
      }
    }
    if Proper(env, ops) {
      forall k | 0 <= k < |ops| ensures OpOk(env, ops[k]) {
      }
      RenamesAreTexts(env, ops);
      forall k | 0 <= k < |ops| ensures DestOk(ops, k) {
      }
    }
  }

  function GroupOps(kind: Kind, fs: seq<Member>): (ops: seq<Op>)
    ensures |ops| == |fs| && forall i :: 0 <= i < |ops| ==> ops[i] == Op(fs[i].key, kind, fs[i].value)
  {
    seq(|fs|, i requires 0 <= i < |fs| => Op(fs[i].key, kind, fs[i].value))
  }

  predicate GroupOk(m: Member) {
    KindOf(m.key).Some? && m.value.Container? && m.value.isObject
  }

  /** All fields of all operators, in the order they stand. */
  function Flat(ms: seq<Member>): Option<seq<Op>> {
    if ms == [] then Some([])
    else
      var init, m := Flat(ms[..|ms| - 1]), ms[|ms| - 1];
      if init.None? || !GroupOk(m) then None else Some(init.value + GroupOps(KindOf(m.key).value, m.value.members))
  }

  /** Field `j` of operator `i` of the update is `op`. */
  ghost predicate Asks(ms: seq<Member>, i: int, j: int, op: Op) {
    && 0 <= i < |ms| && ms[i].value.Container? && ms[i].value.isObject && 0 <= j < |ms[i].value.members|
    && ms[i].key == Ascii(OperatorName(op.kind)) && ms[i].value.members[j] == Member(op.name, op.operand)
  }

  /** The operators are exactly those the update asks for. */
  lemma {:induction false} FlatIsAsked(ms: seq<Member>, ops: seq<Op>, op: Op)
    requires Flat(ms) == Some(ops)
    ensures op in ops <==> exists i, j :: Asks(ms, i, j, op)
    decreases |ms|
  {
    if ms != [] {
      var n := |ms| - 1;
      var init := Flat(ms[..n]).value;
      var group := GroupOps(KindOf(ms[n].key).value, ms[n].value.members);
      FlatIsAsked(ms[..n], init, op);
      KindOfName(ms[n].key, op.kind);
      assert op in ops <==> op in init || op in group;
      if op in init {
        var i, j :| Asks(ms[..n], i, j, op);
        assert Asks(ms, i, j, op);
      }
      if op in group {
        var j :| 0 <= j < |group| && group[j] == op;
        assert Asks(ms, n, j, op);
      }
      if i, j :| Asks(ms, i, j, op) {
        if i < n {
          assert Asks(ms[..n], i, j, op);
        } else {
          assert group[j] == op;
        }
      }
    }
  }

  /** An update that can be applied, and its operators. */
  ghost predicate Accepted(env: Env, update: Value, ops: seq<Op>) {
    && update.Container? && update.isObject && update.members != []
    && Flat(update.members) == Some(ops) && OpsOk(env, ops)
  }

  ghost predicate NotAccepted(env: Env, update: Value) {
    forall all :: !Accepted(env, update, all)
  }

  // ---- parsing ----

  lemma {:induction false} FlatGrows(ms: seq<Member>, i: nat, all: seq<Op>)
    requires i <= |ms| && Flat(ms) == Some(all)
    ensures Flat(ms[..i]).Some? && Flat(ms[..i]).value <= all
    decreases |ms|
  {
    if i < |ms| {
      var n := |ms| - 1;
      assert ms[..n][..i] == ms[..i];
      FlatGrows(ms[..n], i, Flat(ms[..n]).value);
    } else {
      assert ms[..i] == ms;
    }
  }

  /** If a field fails behind those accepted, the whole update is refused. */
  lemma FieldRefused(env: Env, ops: seq<Op>, bad: Op, all: seq<Op>)
    requires ops + [bad] <= all && FieldsOk(env, ops)
    requires !OpOk(env, bad) || |ops| == MAX_FIELDS || exists k :: 0 <= k < |ops| && ops[k].name == bad.name
    ensures !FieldsOk(env, all)
  {
    var n := |ops|;
    assert all[n] == (ops + [bad])[n] == bad;
    if k :| 0 <= k < |ops| && ops[k].name == bad.name {
      assert all[k] == (ops + [bad])[k] == ops[k];
    }
  }

  lemma FieldTaken(env: Env, ops: seq<Op>, op: Op)
    requires FieldsOk(env, ops) && OpOk(env, op) && |ops| < MAX_FIELDS
             && forall k :: 0 <= k < |ops| ==> ops[k].name != op.name
    ensures FieldsOk(env, ops + [op])
  {
  }

  /** The fields of one operator. */
  method ParseGroup(env: Env, before: seq<Op>, kind: Kind, fs: seq<Member>) returns (e: Status, ops: seq<Op>)
    requires FieldsOk(env, before)
    ensures e == Ok ==> ops == before + GroupOps(kind, fs) && FieldsOk(env, ops)
    ensures e != Ok ==> e == State && forall all :: before + GroupOps(kind, fs) <= all ==> !FieldsOk(env, all)
  {
    ops := before;
    for i := 0 to |fs|
      invariant ops == before + GroupOps(kind, fs)[..i] && FieldsOk(env, ops)
    {
      var op := Op(fs[i].key, kind, fs[i].value);
      GroupPrefix(before, GroupOps(kind, fs), i);
      var taken := NameTaken(ops, op.name);
      if !NameOk(op.name) || taken || |ops| >= MAX_FIELDS || !OperandOk(env, kind, op.operand) {
        forall all | before + GroupOps(kind, fs) <= all ensures !FieldsOk(env, all) {
          FieldRefused(env, ops, op, all);
        }
        return State, ops;
      }
      FieldTaken(env, ops, op);
      ops := ops + [op];
    }
    e := Ok;
  }

  lemma GroupPrefix(before: seq<Op>, group: seq<Op>, i: nat)
    requires i < |group|
    ensures before + group[..i] + [group[i]] <= before + group
    ensures before + group[..i] + [group[i]] == before + group[..i + 1]
  {
  }

  method NameTaken(ops: seq<Op>, name: Bytes) returns (r: bool)
    ensures r <==> exists k :: 0 <= k < |ops| && ops[k].name == name
  {
    for k := 0 to |ops|
      invariant forall j :: 0 <= j < k ==> ops[j].name != name
    {
      if ops[k].name == name {
        return true;
      }
    }
    r := false;
  }

  /** The checks on the destinations of renames. */
  method CheckRenames(env: Env, ops: seq<Op>) returns (ok: bool)
    requires FieldsOk(env, ops)
    ensures ok <==> OpsOk(env, ops)
  {
    RenamesAreTexts(env, ops);
    for k := 0 to |ops|
      invariant forall j :: 0 <= j < k ==> DestOk(ops, j)
    {
      if ops[k].kind != Rename {
        continue;
      }
      var dest := DestOf(ops[k]);
      if dest == [] || !NameOk(dest) {
        assert !DestOk(ops, k);
        return false;
      }
      for j := 0 to |ops|
        invariant forall i :: 0 <= i < j && i != k ==> Apart(ops[i], dest)
      {
        if j != k && !Apart(ops[j], dest) {
          assert !DestOk(ops, k);
          return false;
        }
      }
    }
    ok := true;
  }

  method ParseUpdate(env: Env, update: Value) returns (e: Status, ops: seq<Op>)
    ensures e == Ok ==> Accepted(env, update, ops) && Proper(env, ops)
    ensures e != Ok ==> e == State && NotAccepted(env, update)
  {
    ops := [];
    if !(update.Container? && update.isObject && |update.members| > 0) {
      return State, [];
    }
    var ms := update.members;
    for i := 0 to |ms|
      invariant Flat(ms[..i]) == Some(ops) && FieldsOk(env, ops)
    {
      FlatNext(ms, i);
      if !GroupOk(ms[i]) {
        NotFlat(ms, i + 1);
        return State, ops;
      }
      var before := ops;
      e, ops := ParseGroup(env, before, KindOf(ms[i].key).value, ms[i].value.members);
      if e != Ok {
        forall all ensures !Accepted(env, update, all) {
          if Flat(ms) == Some(all) {
            FlatGrows(ms, i + 1, all);
          }
        }
        return;
      }
    }
    assert ms[..|ms|] == ms;
    var ok := CheckRenames(env, ops);
    OpsOkIsProper(env, ops);
    e := if ok then Ok else State;
  }

  lemma FlatNext(ms: seq<Member>, i: nat)
    requires i < |ms| && Flat(ms[..i]).Some?
    ensures !GroupOk(ms[i]) ==> Flat(ms[..i + 1]) == None
    ensures GroupOk(ms[i]) ==>
      Flat(ms[..i + 1]) == Some(Flat(ms[..i]).value + GroupOps(KindOf(ms[i].key).value, ms[i].value.members))
  {
    assert ms[..i + 1][..i] == ms[..i];
  }

  lemma NotFlat(ms: seq<Member>, i: nat)
    requires i <= |ms| && Flat(ms[..i]) == None
    ensures Flat(ms) == None
  {
    if Flat(ms).Some? {
      FlatGrows(ms, i, Flat(ms).value);
    }
  }

  // ---- one operator on one field ----

  /** What becomes of a field. */
  datatype Emit = Refuse | Absent | Put(v: Value)

  function FromOption(v: Option<Value>): Emit {
    if v.None? then Refuse else Put(v.value)
  }

  function MinMax(env: Env, old_: Option<Value>, operand: Value, wantMin: bool): Emit {
    if old_.None? then Put(operand)
    else
      var c := env.cmp(old_.value, operand);
      if c == -2 then Refuse
      else if if wantMin then c <= 0 else c >= 0 then Put(old_.value)
      else Put(operand)
  }

  /** The value an operator gives a field, from the value it had; renames apart. */
  ghost function ValueFor(env: Env, op: Op, old_: Option<Value>, isInsert: bool): Emit
    requires OpOk(env, op) && op.kind != Rename
  {
    match op.kind
    case Set => Put(op.operand)
    case Unset => Absent
    case SetOnInsert => if isInsert then Put(op.operand) else if old_.Some? then Put(old_.value) else Absent
    case Min => MinMax(env, old_, op.operand, true)
    case Max => MinMax(env, old_, op.operand, false)
    case Inc => FromOption(env.compute(Inc, old_, op.operand))
    case Mul => FromOption(env.compute(Mul, old_, op.operand))
    case Bit => FromOption(env.compute(Bit, old_, op.operand))
    case Push => FromOption(Pushed(env, old_, op.operand))
    case AddToSet => FromOption(AddedSet(old_, op.operand))
    case Pull => if old_.None? then Absent else FromOption(PulledFrom(env, old_.value, op.operand))
    case PullAll => if old_.None? then Absent else FromOption(PulledAllFrom(old_.value, op.operand))
    case Pop =>
      if old_.None? then Absent
      else if !IsArray(old_.value) then Refuse
      else Put(ArrayOf(Popped(ValuesOf(old_.value), env.whole(op.operand) == Some(1))))
  }

  function Rebuilt(vs: Option<seq<Value>>): Option<Value> {
    if vs.None? then None else Some(ArrayOf(vs.value))
  }

  function PulledFrom(env: Env, old_: Value, operand: Value): Option<Value> {
    if !IsArray(old_) then None else Rebuilt(Kept(ValuesOf(old_), PullTest(env, operand)))
  }

  function PulledAllFrom(old_: Value, operand: Value): Option<Value>
    requires IsArray(operand)
  {
    if !IsArray(old_) then None else Rebuilt(Kept(ValuesOf(old_), PullAllTest(operand)))
  }

  method EmitValue(env: Env, op: Op, old_: Option<Value>, isInsert: bool) returns (r: Emit)
    requires OpOk(env, op) && op.kind != Rename
    ensures r == ValueFor(env, op, old_, isInsert)
  {
    match op.kind
    case Set => r := Put(op.operand);
    case Unset => r := Absent;
    case SetOnInsert => r := if isInsert then Put(op.operand) else if old_.Some? then Put(old_.value) else Absent;
    case Min => r := MinMax(env, old_, op.operand, true);
    case Max => r := MinMax(env, old_, op.operand, false);
    case Inc => r := FromOption(env.compute(Inc, old_, op.operand));
    case Mul => r := FromOption(env.compute(Mul, old_, op.operand));
    case Bit => r := FromOption(env.compute(Bit, old_, op.operand));
    case Push =>
      var v := EmitPushed(env, old_, op.operand);
      r := FromOption(v);
    case AddToSet =>
      var v := EmitAddedToSet(old_, op.operand);
      r := FromOption(v);
    case Pull =>
      if old_.None? {
        return Absent;
      }
      if !IsArray(old_.value) {
        return Refuse;
      }
      var vs := Filter(ValuesOf(old_.value), PullTest(env, op.operand));
      r := FromOption(Rebuilt(vs));
    case PullAll =>
      if old_.None? {
        return Absent;
      }
      if !IsArray(old_.value) {
        return Refuse;
      }
      var vs := Filter(ValuesOf(old_.value), PullAllTest(op.operand));
      r := FromOption(Rebuilt(vs));
    case Pop =>
      if old_.None? {
        return Absent;
      }
      if !IsArray(old_.value) {
        return Refuse;
      }
      r := Put(ArrayOf(Popped(ValuesOf(old_.value), env.whole(op.operand) == Some(1))));
  }

  // ---- what the operators do ----

  ghost predicate NotList(v: Option<Value>) {
    v.Some? && !IsArray(v.value)
  }

  function ListIn(v: Option<Value>): seq<Value> {
    if v.Some? && IsArray(v.value) then ValuesOf(v.value) else []
  }

  /** A pull leaves the element. */
  ghost predicate Stays(env: Env, op: Op, v: Value) {
    if op.kind == PullAll then v !in ListIn(Some(op.operand))
    else if env.isExpr(op.operand) then env.matches(v, op.operand) == Some(false)
    else v != op.operand
  }

  /** What an operator makes of its field: `was` is the value before, `now` the value after; renames apart. */
  ghost predicate Does(env: Env, op: Op, was: Option<Value>, isInsert: bool, now: Option<Value>) {
    match op.kind
    case Set => now == Some(op.operand)
    case Unset => now == None
    case SetOnInsert => now == if isInsert then Some(op.operand) else was
    case Inc | Mul | Bit => now.Some? && now == env.compute(op.kind, was, op.operand)
    case Min => now == if was.Some? && env.cmp(was.value, op.operand) <= 0 then was else Some(op.operand)
    case Max => now == if was.Some? && env.cmp(was.value, op.operand) >= 0 then was else Some(op.operand)
    case AddToSet => exists r :: now == Some(ArrayOf(r)) && Grown(ListIn(was), Additions(op.operand), r)
    case Push => exists r :: now == Some(ArrayOf(r)) && PushMakes(env, ListIn(was), op.operand, r)
    case Pull | PullAll =>
      if was.None? then now == None else exists r :: now == Some(ArrayOf(r)) && Leaves(env, op, was, r)
    case Pop =>
      if was.None? then now == None
      else now == Some(ArrayOf(if ListIn(was) == [] then []
                               else if env.whole(op.operand) == Some(-1) then ListIn(was)[1..]
                               else ListIn(was)[..|ListIn(was)| - 1]))
    case Rename => true
  }

  /** Of the old elements those that stay, in their order. */
  ghost predicate Leaves(env: Env, op: Op, was: Option<Value>, r: seq<Value>) {
    exists at: seq<nat> ::
      && Picked(ListIn(was), at, r)
      && forall j: nat :: j in at <==> j < |ListIn(was)| && Stays(env, op, ListIn(was)[j])
  }

  /** An operator cannot be applied to the value of its field. */
  ghost predicate Fails(env: Env, op: Op, was: Option<Value>) {
    match op.kind
    case Inc | Mul | Bit => env.compute(op.kind, was, op.operand) == None
    case Min | Max => was.Some? && env.cmp(was.value, op.operand) == -2
    case AddToSet => NotList(was) || BadAddition(op.operand)
    case Push => NotList(was) || FormOf(env, op.operand).Malformed?
    case Pull =>
      NotList(was) || (env.isExpr(op.operand) && exists v :: v in ListIn(was) && env.matches(v, op.operand) == None)
    case PullAll | Pop => NotList(was)
    case Set | Unset | SetOnInsert | Rename => false
  }

  lemma PullDoes(env: Env, op: Op, was: Value, isInsert: bool)
    requires OpOk(env, op) && op.kind in {Pull, PullAll}
    ensures ValueFor(env, op, Some(was), isInsert).Refuse? <==> Fails(env, op, Some(was))
    ensures ValueFor(env, op, Some(was), isInsert).Put? ==>
              Does(env, op, Some(was), isInsert, Some(ValueFor(env, op, Some(was), isInsert).v))
  {
    assert OperandOk(env, op.kind, op.operand);
    if IsArray(was) {
      var drop := TestOf(env, op);
      KeptIsLeft(ValuesOf(was), drop);
      if Kept(ValuesOf(was), drop).Some? {
        LeftLeaves(env, op, was, Kept(ValuesOf(was), drop).value);
      }
    }
  }

  function TestOf(env: Env, op: Op): (drop: Value -> Option<bool>)
    requires op.kind == PullAll ==> IsArray(op.operand)
  {
    if op.kind == PullAll then PullAllTest(op.operand) else PullTest(env, op.operand)
  }

  lemma LeftLeaves(env: Env, op: Op, was: Value, r: seq<Value>)
    requires IsArray(was) && op.kind in {Pull, PullAll} && (op.kind == PullAll ==> IsArray(op.operand))
    requires LeftOf(ValuesOf(was), TestOf(env, op), r)
    ensures Leaves(env, op, Some(was), r)
  {
    var vs := ValuesOf(was);
    var at: seq<nat> :| Picked(vs, at, r)
                     && forall j: nat :: j in at <==> j < |vs| && TestOf(env, op)(vs[j]) == Some(false);
    assert Picked(ListIn(Some(was)), at, r);
    forall j: nat ensures j in at <==> j < |vs| && Stays(env, op, vs[j]) {
      if j < |vs| {
        TestStays(env, op, vs[j]);
      }
    }
  }

  lemma TestStays(env: Env, op: Op, v: Value)
    requires op.kind in {Pull, PullAll} && (op.kind == PullAll ==> IsArray(op.operand))
    ensures TestOf(env, op)(v) == Some(false) <==> Stays(env, op, v)
  {
  }

  /** An operator fails exactly as stated, and otherwise does what is stated. */
  lemma OperatorDoes(env: Env, op: Op, was: Option<Value>, isInsert: bool, now: Option<Value>)
    requires OpOk(env, op) && op.kind != Rename
    ensures ValueFor(env, op, was, isInsert).Refuse? <==> Fails(env, op, was)
    ensures Keep(now) == ValueFor(env, op, was, isInsert) ==> Does(env, op, was, isInsert, now)
  {
    assert OperandOk(env, op.kind, op.operand);
    match op.kind
    case AddToSet => AddedSetGrows(was, op.operand);
    case Push => PushedMakes(env, ListIn(was), op.operand);
    case Pull | PullAll => if was.Some? { PullDoes(env, op, was.value, isInsert); }
    case _ =>
  }

  // ---- what the operators mean ----

  /** Adding the same values a second time changes nothing. */
  lemma AddToSetOnce(env: Env, op: Op, old_: Option<Value>, isInsert: bool)
    requires OpOk(env, op) && op.kind == AddToSet && ValueFor(env, op, old_, isInsert).Put?
    ensures ValueFor(env, op, Some(ValueFor(env, op, old_, isInsert).v), isInsert) == ValueFor(env, op, old_, isInsert)
  {
    var f, base := EachOf(op.operand), Elements(old_).value;
    var cands := if f.Each? then f.vs else [op.operand];
    assert AddedSet(old_, op.operand) == Some(ArrayOf(Union(base, cands)));
    UnionIsUnion(base, cands);
    UnionAbsorbs(Union(base, cands), cands);
  }

  /** Pulling leaves no match behind, and a second pull changes nothing. */
  lemma PullLeavesNone(env: Env, op: Op, old_: Option<Value>, isInsert: bool)
    requires OpOk(env, op) && op.kind in {Pull, PullAll} && ValueFor(env, op, old_, isInsert).Put?
    ensures var v := ValueFor(env, op, old_, isInsert).v;
            && IsArray(v) && ValueFor(env, op, Some(v), isInsert) == Put(v)
            && forall x :: x in ValuesOf(v) ==>
                 if op.kind == PullAll then x !in ValuesOf(op.operand)
                 else if env.isExpr(op.operand) then env.matches(x, op.operand) == Some(false)
                 else x != op.operand
  {
    assert OperandOk(env, op.kind, op.operand);
    KeptAgain(ValuesOf(old_.value), if op.kind == Pull then PullTest(env, op.operand) else PullAllTest(op.operand));
  }

  /** $min and $max give one of the two values, at most, or at least, both. */
  lemma MinMaxBounds(env: Env, op: Op, old_: Value, isInsert: bool)
    requires OpOk(env, op) && op.kind in {Min, Max} && Ordered(env, {old_, op.operand})
    ensures var r := ValueFor(env, op, Some(old_), isInsert);
            && r.Put? && r.v in {old_, op.operand}
            && AtMost(env, if op.kind == Min then 1 else -1, r.v, old_)
            && AtMost(env, if op.kind == Min then 1 else -1, r.v, op.operand)
  {
    assert old_ in {old_, op.operand} && op.operand in {old_, op.operand};
    assert env.cmp(old_, old_) == -env.cmp(old_, old_)
        && env.cmp(op.operand, op.operand) == -env.cmp(op.operand, op.operand);
    assert env.cmp(old_, op.operand) == -env.cmp(op.operand, old_);
  }

  /** Popping the last element undoes the push of one value. */
  lemma PopUndoesPush(env: Env, push: Op, pop: Op, old_: Option<Value>, isInsert: bool)
    requires OpOk(env, push) && push.kind == Push && FormOf(env, push.operand).Literal?
    requires OpOk(env, pop) && pop.kind == Pop && env.whole(pop.operand) == Some(1)
    ensures ValueFor(env, push, old_, isInsert)
            == (if Elements(old_).None? then Refuse else Put(ArrayOf(Elements(old_).value + [push.operand])))
    ensures Elements(old_).Some? ==>
      ValueFor(env, pop, Some(ValueFor(env, push, old_, isInsert).v), isInsert) == Put(ArrayOf(Elements(old_).value))
  {
    if Elements(old_).Some? {
      var vs := Elements(old_).value;
      assert (vs + [push.operand])[..|vs|] == vs;
    }
  }

  /** Pulling what an addition to a set brought undoes it, if none of it was there. */
  lemma PullAllUndoesAddToSet(env: Env, add: Op, pull: Op, old_: Option<Value>, isInsert: bool)
    requires OpOk(env, add) && add.kind == AddToSet && EachOf(add.operand).Each? && Elements(old_).Some?
    requires OpOk(env, pull) && pull.kind == PullAll && IsArray(pull.operand)
             && ValuesOf(pull.operand) == EachOf(add.operand).vs
    requires forall v :: v in Elements(old_).value ==> v !in ValuesOf(pull.operand)
    ensures ValueFor(env, add, old_, isInsert).Put?
    ensures ValueFor(env, pull, Some(ValueFor(env, add, old_, isInsert).v), isInsert)
            == Put(ArrayOf(Elements(old_).value))
  {
    UnionPulled(Elements(old_).value, pull.operand);
  }

  // ---- the document ----

  ghost predicate KeysDistinct(ms: seq<Member>) {
    forall i, j :: 0 <= i < j < |ms| ==> ms[i].key != ms[j].key
  }

  function Get(ms: seq<Member>, name: Bytes): Option<Value> {
    if ms == [] then None else if ms[0].key == name then Some(ms[0].value) else Get(ms[1..], name)
  }

  lemma {:induction false} GetAt(ms: seq<Member>, i: nat)
    requires KeysDistinct(ms) && i < |ms|
    ensures Get(ms, ms[i].key) == Some(ms[i].value)
  {
    if i > 0 {
      GetAt(ms[1..], i - 1);
    }
  }

  lemma {:induction false} GetNone(ms: seq<Member>, name: Bytes)
    ensures Get(ms, name).None? <==> forall i :: 0 <= i < |ms| ==> ms[i].key != name
  {
    if ms != [] {
      GetNone(ms[1..], name);
      forall i | 0 <= i < |ms| ensures ms[i].key == if i == 0 then ms[0].key else ms[1..][i - 1].key {
      }
    }
  }

  lemma {:induction false} GetAppend(ms: seq<Member>, m: Member, name: Bytes)
    ensures Get(ms + [m], name) == if Get(ms, name).Some? then Get(ms, name) else if m.key == name then Some(m.value)
            else None
  {
    if ms == [] {
      assert ([] + [m])[1..] == [];
    } else {
      assert (ms + [m])[1..] == ms[1..] + [m];
      GetAppend(ms[1..], m, name);
    }
  }

  lemma AppendDistinct(ms: seq<Member>, m: Member)
    requires KeysDistinct(ms) && Get(ms, m.key).None?
    ensures KeysDistinct(ms + [m])
  {
    GetNone(ms, m.key);
  }

  ghost predicate Targets(ops: seq<Op>, name: Bytes, k: nat) {
    k < |ops| && ops[k].name == name
  }

  /** An active rename: its source is in the document. */
  predicate Renames(env: Env, doc: seq<Member>, op: Op)
  {
    op.kind == Rename && Get(doc, op.name).Some?
  }

  ghost predicate MovesTo(env: Env, doc: seq<Member>, ops: seq<Op>, name: Bytes, k: nat)
    requires FieldsOk(env, ops)
  {
    k < |ops| && Renames(env, doc, ops[k]) && (assert OpOk(env, ops[k]); DestOf(ops[k]) == name)
  }

  function Keep(v: Option<Value>): Emit {
    if v.None? then Absent else Put(v.value)
  }

  /** What an accepted update makes of the field `name`. */
  ghost predicate Becomes(env: Env, doc: seq<Member>, ops: seq<Op>, isInsert: bool, name: Bytes, r: Emit)
    requires FieldsOk(env, ops)
  {
    && (forall k: nat :: MovesTo(env, doc, ops, name, k) ==> r == Keep(Get(doc, ops[k].name)))
    && ((forall k: nat :: !MovesTo(env, doc, ops, name, k)) ==>
          && (forall k: nat :: Targets(ops, name, k) ==>
                (assert OpOk(env, ops[k]); r == if ops[k].kind == Rename then Absent
                    else ValueFor(env, ops[k], Get(doc, name), isInsert)))
          && ((forall k: nat :: !Targets(ops, name, k)) ==> r == Keep(Get(doc, name))))
  }

  ghost predicate Updated(env: Env, doc: seq<Member>, ops: seq<Op>, isInsert: bool, out: seq<Member>)
    requires FieldsOk(env, ops)
  {
    KeysDistinct(out) && forall name :: Becomes(env, doc, ops, isInsert, name, Keep(Get(out, name)))
  }

  /** Some operator fails on the value of its field. */
  ghost predicate FieldFails(env: Env, doc: seq<Member>, ops: seq<Op>, isInsert: bool)
    requires FieldsOk(env, ops)
  {
    exists name :: Becomes(env, doc, ops, isInsert, name, Refuse)
  }

  // ---- the scan over the document ----

  /** What the scan writes for a field that the document has. */
  ghost function Scanned(env: Env, doc: seq<Member>, ops: seq<Op>, isInsert: bool, name: Bytes, v: Value): Emit
    requires FieldsOk(env, ops)
  {
    if k: nat :| Targets(ops, name, k) then
      assert OpOk(env, ops[k]);
      if ops[k].kind == Rename then Absent else ValueFor(env, ops[k], Some(v), isInsert)
    else if exists k: nat :: MovesTo(env, doc, ops, name, k) then Absent
    else Put(v)
  }

  lemma OneTarget(env: Env, ops: seq<Op>, name: Bytes, j: nat, k: nat)
    requires FieldsOk(env, ops) && Targets(ops, name, j) && Targets(ops, name, k)
    ensures j == k
  {
  }

  /** The operator on a field, or -1. */
  method FindOp(ops: seq<Op>, name: Bytes) returns (r: int)
    ensures r >= 0 ==> Targets(ops, name, r)
    ensures r < 0 ==> forall k: nat :: !Targets(ops, name, k)
  {
    for k := 0 to |ops|
      invariant forall j: nat :: j < k ==> !Targets(ops, name, j)
    {
      if ops[k].name == name {
        return k;
      }
    }
    r := -1;
  }

  /** Which renames have their source in the document. */
  method ActiveRenames(env: Env, doc: seq<Member>, ops: seq<Op>) returns (active: seq<bool>)
    ensures |active| == |ops| && forall k :: 0 <= k < |ops| ==> active[k] == Renames(env, doc, ops[k])
  {
    active := [];
    for k := 0 to |ops|
      invariant |active| == k && forall j :: 0 <= j < k ==> active[j] == Renames(env, doc, ops[j])
    {
      active := active + [ops[k].kind == Rename && Get(doc, ops[k].name).Some?];
    }
  }

  /** Whether an active rename is about to overwrite the field. */
  method Suppressed(env: Env, doc: seq<Member>, ops: seq<Op>, active: seq<bool>, name: Bytes) returns (r: bool)
    requires FieldsOk(env, ops) && |active| == |ops|
             && forall k :: 0 <= k < |ops| ==> active[k] == Renames(env, doc, ops[k])
    ensures r <==> exists k: nat :: MovesTo(env, doc, ops, name, k)
  {
    for k := 0 to |ops|
      invariant forall j: nat :: j < k ==> !MovesTo(env, doc, ops, name, j)
    {
      assert OpOk(env, ops[k]);
      if ops[k].kind == Rename && active[k] && DestOf(ops[k]) == name {
        assert MovesTo(env, doc, ops, name, k);
        return true;
      }
    }
    r := false;
  }

  /** Operators whose field has been met, and the values that renames picked up there. */
  ghost predicate Met(doc: seq<Member>, i: nat, ops: seq<Op>, applied: seq<bool>, picked: seq<Option<Value>>) {
    && i <= |doc| && |applied| == |picked| == |ops|
    && forall k :: 0 <= k < |ops| ==>
         && applied[k] == Get(doc[..i], ops[k].name).Some?
         && (applied[k] && ops[k].kind == Rename ==> picked[k] == Get(doc[..i], ops[k].name))
  }

  /** What has been written for the first fields of the document. */
  ghost predicate ScannedTo(env: Env, doc: seq<Member>, ops: seq<Op>, isInsert: bool, i: nat, out: seq<Member>)
    requires FieldsOk(env, ops)
  {
    && i <= |doc| && KeysDistinct(out)
    && forall name :: ScannedName(env, doc, ops, isInsert, i, out, name)
  }

  ghost predicate ScannedName(env: Env, doc: seq<Member>, ops: seq<Op>, isInsert: bool, i: nat, out: seq<Member>,
                              name: Bytes)
    requires FieldsOk(env, ops) && i <= |doc|
  {
    var v := Get(doc[..i], name);
    Keep(Get(out, name)) == if v.None? then Absent else Scanned(env, doc, ops, isInsert, name, v.value)
  }

  lemma ScanNext(env: Env, doc: seq<Member>, ops: seq<Op>, isInsert: bool, i: nat, out: seq<Member>, r: Emit)
    requires FieldsOk(env, ops) && KeysDistinct(doc) && i < |doc| && ScannedTo(env, doc, ops, isInsert, i, out)
    requires r == Scanned(env, doc, ops, isInsert, doc[i].key, doc[i].value) && !r.Refuse?
    ensures ScannedTo(env, doc, ops, isInsert, i + 1, if r.Put? then out + [Member(doc[i].key, r.v)] else out)
  {
    var key, m := doc[i].key, Member(doc[i].key, if r.Put? then r.v else doc[i].value);
    var next := if r.Put? then out + [m] else out;
    assert doc[..i + 1] == doc[..i] + [doc[i]];
    GetNone(doc[..i], key);
    assert ScannedName(env, doc, ops, isInsert, i, out, key);
    if r.Put? {
      AppendDistinct(out, m);
    }
    var n := i + 1;
    forall name ensures ScannedName(env, doc, ops, isInsert, n, next, name) {
      assert ScannedName(env, doc, ops, isInsert, i, out, name);
      GetAppend(doc[..i], doc[i], name);
      GetAppend(out, m, name);
    }
  }

  lemma MetNext(doc: seq<Member>, i: nat, ops: seq<Op>, env: Env, applied: seq<bool>, picked: seq<Option<Value>>,
                k: nat)
    requires FieldsOk(env, ops) && KeysDistinct(doc) && i < |doc| && Met(doc, i, ops, applied, picked)
             && Targets(ops, doc[i].key, k)
    ensures ops[k].kind != Rename ==> Met(doc, i + 1, ops, applied[k := true], picked)
    ensures Met(doc, i + 1, ops, applied[k := true], picked[k := Some(doc[i].value)])
  {
    assert doc[..i + 1] == doc[..i] + [doc[i]];
    GetNone(doc[..i], doc[i].key);
    forall j | 0 <= j < |ops|
      ensures Get(doc[..i + 1], ops[j].name) == if j == k then Some(doc[i].value) else Get(doc[..i], ops[j].name)
    {
      GetAppend(doc[..i], doc[i], ops[j].name);
    }
  }

  lemma MetOther(doc: seq<Member>, i: nat, ops: seq<Op>, applied: seq<bool>, picked: seq<Option<Value>>)
    requires i < |doc| && Met(doc, i, ops, applied, picked) && forall k: nat :: !Targets(ops, doc[i].key, k)
    ensures Met(doc, i + 1, ops, applied, picked)
  {
    assert doc[..i + 1] == doc[..i] + [doc[i]];
    forall j | 0 <= j < |ops| ensures Get(doc[..i + 1], ops[j].name) == Get(doc[..i], ops[j].name) {
      GetAppend(doc[..i], doc[i], ops[j].name);
      assert !Targets(ops, doc[i].key, j);
    }
  }

  /** One field of the document: its operator's value, dropped, or as it was. */
  method ScanField(env: Env, doc: seq<Member>, ops: seq<Op>, active: seq<bool>, isInsert: bool, i: nat,
                   applied: array<bool>, picked: array<Option<Value>>) returns (r: Emit)
    requires FieldsOk(env, ops) && KeysDistinct(doc) && i < |doc| && Met(doc, i, ops, applied[..], picked[..])
    requires |active| == |ops| && forall k :: 0 <= k < |ops| ==> active[k] == Renames(env, doc, ops[k])
    modifies applied, picked
    ensures r == Scanned(env, doc, ops, isInsert, doc[i].key, doc[i].value)
    ensures Met(doc, i + 1, ops, applied[..], picked[..])
  {
    var key, v := doc[i].key, doc[i].value;
    var op := FindOp(ops, key);
    ghost var wasApplied, wasPicked := applied[..], picked[..];
    if op < 0 {
      MetOther(doc, i, ops, wasApplied, wasPicked);
      var s := Suppressed(env, doc, ops, active, key);
      return if s then Absent else Put(v);
    }
    MetNext(doc, i, ops, env, wasApplied, wasPicked, op);
    ScannedByOp(env, doc, ops, isInsert, key, v, op);
    applied[op] := true;
    assert applied[..] == wasApplied[op := true];
    if ops[op].kind == Rename {
      picked[op] := Some(v);
      assert picked[..] == wasPicked[op := Some(v)];
      return Absent;
    }
    r := EmitValue(env, ops[op], Some(v), isInsert);
  }

  lemma ScannedByOp(env: Env, doc: seq<Member>, ops: seq<Op>, isInsert: bool, name: Bytes, v: Value, k: nat)
    requires FieldsOk(env, ops) && Targets(ops, name, k)
    ensures OpOk(env, ops[k])
    ensures Scanned(env, doc, ops, isInsert, name, v) == if ops[k].kind == Rename then Absent
            else ValueFor(env, ops[k], Some(v), isInsert)
  {
    assert OpOk(env, ops[k]);
    forall j: nat | Targets(ops, name, j) ensures j == k {
      OneTarget(env, ops, name, j, k);
    }
  }

  method Scan(env: Env, doc: seq<Member>, ops: seq<Op>, active: seq<bool>, isInsert: bool,
              applied: array<bool>, picked: array<Option<Value>>) returns (ok: bool, out: seq<Member>)
    requires OpsOk(env, ops) && KeysDistinct(doc) && Met(doc, 0, ops, applied[..], picked[..])
    requires |active| == |ops| && forall k :: 0 <= k < |ops| ==> active[k] == Renames(env, doc, ops[k])
    modifies applied, picked
    ensures ok ==> ScannedTo(env, doc, ops, isInsert, |doc|, out) && Met(doc, |doc|, ops, applied[..], picked[..])
    ensures !ok ==> FieldFails(env, doc, ops, isInsert)
  {
    out := [];
    for i := 0 to |doc|
      invariant ScannedTo(env, doc, ops, isInsert, i, out) && Met(doc, i, ops, applied[..], picked[..])
    {
      var r := ScanField(env, doc, ops, active, isInsert, i, applied, picked);
      if r.Refuse? {
        GetAt(doc, i);
        ScanRefused(env, doc, ops, isInsert, doc[i].key, doc[i].value);
        return false, out;
      }
      ScanNext(env, doc, ops, isInsert, i, out, r);
      if r.Put? {
        out := out + [Member(doc[i].key, r.v)];
      }
    }
    ok := true;
  }

  /** A destination is no other operator's field, and no other destination. */
  lemma DestApart(env: Env, doc: seq<Member>, ops: seq<Op>, name: Bytes, j: nat, k: nat)
    requires OpsOk(env, ops) && MovesTo(env, doc, ops, name, j) && k < |ops| && k != j
    ensures !Targets(ops, name, k) && !MovesTo(env, doc, ops, name, k)
  {
    RenamesAreTexts(env, ops);
    assert DestOk(ops, j);
    assert Apart(ops[k], name);
  }

  lemma ScanRefused(env: Env, doc: seq<Member>, ops: seq<Op>, isInsert: bool, name: Bytes, v: Value)
    requires OpsOk(env, ops) && Get(doc, name) == Some(v) && Scanned(env, doc, ops, isInsert, name, v) == Refuse
    ensures Becomes(env, doc, ops, isInsert, name, Refuse)
  {
    var k: nat :| Targets(ops, name, k) && ops[k].kind != Rename;
    ScannedByOp(env, doc, ops, isInsert, name, v, k);
    BecomesByOp(env, doc, ops, isInsert, name, k, Refuse);
  }

  lemma BecomesByOp(env: Env, doc: seq<Member>, ops: seq<Op>, isInsert: bool, name: Bytes, k: nat, r: Emit)
    requires OpsOk(env, ops) && Targets(ops, name, k) && ops[k].kind != Rename && OpOk(env, ops[k])
    requires r == ValueFor(env, ops[k], Get(doc, name), isInsert)
    ensures Becomes(env, doc, ops, isInsert, name, r)
  {
    forall j: nat ensures !MovesTo(env, doc, ops, name, j) && (Targets(ops, name, j) ==> j == k) {
      if MovesTo(env, doc, ops, name, j) {
        DestApart(env, doc, ops, name, j, k);
      }
    }
  }

  // ---- the pass over the operators ----

  /** What the pass writes for an operator: a moved value, or the value of a field the document lacks. */
  ghost function Trailed(env: Env, doc: seq<Member>, op: Op, isInsert: bool): Emit
    requires OpOk(env, op)
  {
    if op.kind == Rename then Keep(Get(doc, op.name))
    else if Get(doc, op.name).Some? then Absent
    else ValueFor(env, op, None, isInsert)
  }

  function TrailName(op: Op): Bytes
    requires op.kind == Rename ==> op.operand.Leaf? && op.operand.scalar.Text?
  {
    if op.kind == Rename then DestOf(op) else op.name
  }

  /** The pass writes this name for operator `k`. */
  ghost predicate TrailPuts(env: Env, doc: seq<Member>, ops: seq<Op>, isInsert: bool, name: Bytes, k: nat)
    requires FieldsOk(env, ops)
  {
    k < |ops| && (assert OpOk(env, ops[k]); TrailName(ops[k]) == name && Trailed(env, doc, ops[k], isInsert).Put?)
  }

  ghost function ScannedAll(env: Env, doc: seq<Member>, ops: seq<Op>, isInsert: bool, name: Bytes): Emit
    requires FieldsOk(env, ops)
  {
    var v := Get(doc, name);
    if v.None? then Absent else Scanned(env, doc, ops, isInsert, name, v.value)
  }

  ghost predicate TrailedName(env: Env, doc: seq<Member>, ops: seq<Op>, isInsert: bool, k: nat, out: seq<Member>,
                              name: Bytes)
    requires FieldsOk(env, ops)
  {
    && (forall j: nat :: j < k && TrailPuts(env, doc, ops, isInsert, name, j) ==>
          (assert OpOk(env, ops[j]); Keep(Get(out, name)) == Trailed(env, doc, ops[j], isInsert)))
    && ((forall j: nat :: j < k ==> !TrailPuts(env, doc, ops, isInsert, name, j)) ==>
          Keep(Get(out, name)) == ScannedAll(env, doc, ops, isInsert, name))
  }

  ghost predicate TrailedTo(env: Env, doc: seq<Member>, ops: seq<Op>, isInsert: bool, k: nat, out: seq<Member>)
    requires FieldsOk(env, ops)
  {
    && KeysDistinct(out) && (forall name :: TrailedName(env, doc, ops, isInsert, k, out, name))
    && forall j: nat :: j < k ==> TrailOk(env, doc, ops, isInsert, j)
  }

  ghost predicate TrailOk(env: Env, doc: seq<Member>, ops: seq<Op>, isInsert: bool, j: nat)
    requires FieldsOk(env, ops)
  {
    j < |ops| ==> (assert OpOk(env, ops[j]); !Trailed(env, doc, ops[j], isInsert).Refuse?)
  }

  lemma StartTrail(env: Env, doc: seq<Member>, ops: seq<Op>, isInsert: bool, out: seq<Member>)
    requires FieldsOk(env, ops) && ScannedTo(env, doc, ops, isInsert, |doc|, out)
    ensures TrailedTo(env, doc, ops, isInsert, 0, out)
  {
    assert doc[..|doc|] == doc;
    forall name ensures TrailedName(env, doc, ops, isInsert, 0, out, name) {
      assert ScannedName(env, doc, ops, isInsert, |doc|, out, name);
    }
  }

  /** What the pass writes has not been written before: not by the scan, nor for another operator. */
  lemma TrailFresh(env: Env, doc: seq<Member>, ops: seq<Op>, isInsert: bool, k: nat, name: Bytes)
    requires OpsOk(env, ops) && TrailPuts(env, doc, ops, isInsert, name, k)
    ensures !ScannedAll(env, doc, ops, isInsert, name).Put?
    ensures forall j: nat :: j != k ==> !TrailPuts(env, doc, ops, isInsert, name, j)
  {
    assert OpOk(env, ops[k]);
    if ops[k].kind == Rename {
      assert MovesTo(env, doc, ops, name, k);
      forall j: nat | j != k && j < |ops|
        ensures !TrailPuts(env, doc, ops, isInsert, name, j) && !Targets(ops, name, j) {
        DestApart(env, doc, ops, name, k, j);
        assert OpOk(env, ops[j]);
      }
    } else {
      assert Targets(ops, name, k);
      forall j: nat | j != k && j < |ops| ensures !TrailPuts(env, doc, ops, isInsert, name, j) {
        assert OpOk(env, ops[j]);
        if MovesTo(env, doc, ops, name, j) {
          DestApart(env, doc, ops, name, j, k);
        }
      }
    }
  }

  lemma TrailPut(env: Env, doc: seq<Member>, ops: seq<Op>, isInsert: bool, k: nat, out: seq<Member>)
    requires OpsOk(env, ops) && k < |ops| && OpOk(env, ops[k]) && Trailed(env, doc, ops[k], isInsert).Put?
    requires Get(out, TrailName(ops[k])).None?
    ensures TrailedName(env, doc, ops, isInsert, k + 1,
            out + [Member(TrailName(ops[k]), Trailed(env, doc, ops[k], isInsert).v)], TrailName(ops[k]))
  {
    var key, m := TrailName(ops[k]), Member(TrailName(ops[k]), Trailed(env, doc, ops[k], isInsert).v);
    TrailFresh(env, doc, ops, isInsert, k, key);
    GetAppend(out, m, key);
    assert TrailPuts(env, doc, ops, isInsert, key, k);
  }

  lemma TrailOther(env: Env, doc: seq<Member>, ops: seq<Op>, isInsert: bool, k: nat, out: seq<Member>, m: Member,
                   name: Bytes)
    requires FieldsOk(env, ops) && k < |ops| && OpOk(env, ops[k]) && m.key == TrailName(ops[k]) != name
    requires TrailedName(env, doc, ops, isInsert, k, out, name)
    ensures TrailedName(env, doc, ops, isInsert, k + 1, out + [m], name)
  {
    GetAppend(out, m, name);
    assert !TrailPuts(env, doc, ops, isInsert, name, k);
  }

  lemma TrailNext(env: Env, doc: seq<Member>, ops: seq<Op>, isInsert: bool, k: nat, out: seq<Member>)
    requires OpsOk(env, ops) && k < |ops| && TrailedTo(env, doc, ops, isInsert, k, out)
    requires OpOk(env, ops[k]) && !Trailed(env, doc, ops[k], isInsert).Refuse?
    ensures var r := Trailed(env, doc, ops[k], isInsert);
            TrailedTo(env, doc, ops, isInsert, k + 1, if r.Put? then out + [Member(TrailName(ops[k]), r.v)] else out)
  {
    var r, key, n := Trailed(env, doc, ops[k], isInsert), TrailName(ops[k]), k + 1;
    if r.Put? {
      var m := Member(key, r.v);
      var next := out + [m];
      TrailFresh(env, doc, ops, isInsert, k, key);
      assert TrailedName(env, doc, ops, isInsert, k, out, key);
      AppendDistinct(out, m);
      forall name ensures TrailedName(env, doc, ops, isInsert, n, next, name) {
        assert TrailedName(env, doc, ops, isInsert, k, out, name);
        if name == key {
          TrailPut(env, doc, ops, isInsert, k, out);
        } else {
          TrailOther(env, doc, ops, isInsert, k, out, m, name);
        }
      }
    } else {
      forall name ensures TrailedName(env, doc, ops, isInsert, n, out, name) {
        assert TrailedName(env, doc, ops, isInsert, k, out, name);
      }
    }
  }

  lemma TrailRefused(env: Env, doc: seq<Member>, ops: seq<Op>, isInsert: bool, k: nat)
    requires OpsOk(env, ops) && k < |ops| && OpOk(env, ops[k]) && Trailed(env, doc, ops[k], isInsert).Refuse?
    ensures Becomes(env, doc, ops, isInsert, ops[k].name, Refuse)
  {
    assert Targets(ops, ops[k].name, k);
    BecomesByOp(env, doc, ops, isInsert, ops[k].name, k, Refuse);
  }

  /** Scan and pass together make of every field what the update says. */
  lemma TrailedAll(env: Env, doc: seq<Member>, ops: seq<Op>, isInsert: bool, out: seq<Member>)
    requires OpsOk(env, ops) && TrailedTo(env, doc, ops, isInsert, |ops|, out)
    ensures Updated(env, doc, ops, isInsert, out)
  {
    forall name ensures Becomes(env, doc, ops, isInsert, name, Keep(Get(out, name))) {
      assert TrailedName(env, doc, ops, isInsert, |ops|, out, name);
      forall j: nat ensures TrailOk(env, doc, ops, isInsert, j) {
      }
      FieldBecomes(env, doc, ops, isInsert, out, name);
    }
  }

  lemma FieldBecomes(env: Env, doc: seq<Member>, ops: seq<Op>, isInsert: bool, out: seq<Member>, name: Bytes)
    requires OpsOk(env, ops) && TrailedName(env, doc, ops, isInsert, |ops|, out, name)
    requires forall j: nat :: TrailOk(env, doc, ops, isInsert, j)
    ensures Becomes(env, doc, ops, isInsert, name, Keep(Get(out, name)))
  {
    var r := Keep(Get(out, name));
    if k: nat :| MovesTo(env, doc, ops, name, k) {
      assert OpOk(env, ops[k]) && TrailPuts(env, doc, ops, isInsert, name, k);
      forall j: nat | MovesTo(env, doc, ops, name, j) ensures j == k {
        if j != k {
          DestApart(env, doc, ops, name, k, j);
        }
      }
    } else if k: nat :| Targets(ops, name, k) {
      assert OpOk(env, ops[k]);
      TargetBecomes(env, doc, ops, isInsert, out, name, k);
    } else {
      forall j: nat ensures !TrailPuts(env, doc, ops, isInsert, name, j) {
        NoTrail(env, doc, ops, isInsert, name, j);
      }
    }
  }

  lemma NoTrail(env: Env, doc: seq<Member>, ops: seq<Op>, isInsert: bool, name: Bytes, j: nat)
    requires FieldsOk(env, ops) && !MovesTo(env, doc, ops, name, j)
    ensures TrailPuts(env, doc, ops, isInsert, name, j) ==>
            Targets(ops, name, j) && ops[j].kind != Rename && Get(doc, name).None?
  {
    if j < |ops| {
      assert OpOk(env, ops[j]);
    }
  }

  lemma TargetBecomes(env: Env, doc: seq<Member>, ops: seq<Op>, isInsert: bool, out: seq<Member>, name: Bytes, k: nat)
    requires OpsOk(env, ops) && TrailedName(env, doc, ops, isInsert, |ops|, out, name)
    requires Targets(ops, name, k) && OpOk(env, ops[k]) && TrailOk(env, doc, ops, isInsert, k)
    requires forall j: nat :: !MovesTo(env, doc, ops, name, j)
    ensures Becomes(env, doc, ops, isInsert, name, Keep(Get(out, name)))
  {
    var v := Get(doc, name);
    forall j: nat ensures TrailPuts(env, doc, ops, isInsert, name, j) ==> j == k && ops[k].kind != Rename && v.None? {
      NoTrail(env, doc, ops, isInsert, name, j);
      if Targets(ops, name, j) {
        OneTarget(env, ops, name, j, k);
      }
    }
    if v.Some? {
      ScannedByOp(env, doc, ops, isInsert, name, v.value, k);
    }
    forall j: nat | Targets(ops, name, j) ensures j == k {
      OneTarget(env, ops, name, j, k);
    }
    assert ops[k].kind != Rename && v.None? && !TrailPuts(env, doc, ops, isInsert, name, k)
      ==> !ValueFor(env, ops[k], v, isInsert).Put?;
  }

  /** Fields the update names that the scan did not write: moved ones, and ones the document lacks. */
  method Trail(env: Env, doc: seq<Member>, ops: seq<Op>, active: seq<bool>, isInsert: bool,
               applied: array<bool>, picked: array<Option<Value>>, scanned: seq<Member>)
                 returns (ok: bool, out: seq<Member>)
    requires OpsOk(env, ops) && KeysDistinct(doc) && Met(doc, |doc|, ops, applied[..], picked[..])
    requires |active| == |ops| && forall k :: 0 <= k < |ops| ==> active[k] == Renames(env, doc, ops[k])
    requires ScannedTo(env, doc, ops, isInsert, |doc|, scanned)
    ensures ok ==> Updated(env, doc, ops, isInsert, out)
    ensures !ok ==> FieldFails(env, doc, ops, isInsert)
  {
    out := scanned;
    StartTrail(env, doc, ops, isInsert, out);
    for k := 0 to |ops|
      invariant TrailedTo(env, doc, ops, isInsert, k, out)
    {
      assert OpOk(env, ops[k]);
      var r := TrailOne(env, doc, ops, active, isInsert, applied, picked, k);
      if r.Refuse? {
        TrailRefused(env, doc, ops, isInsert, k);
        return false, out;
      }
      TrailNext(env, doc, ops, isInsert, k, out);
      if r.Put? {
        out := out + [Member(TrailName(ops[k]), r.v)];
      }
    }
    TrailedAll(env, doc, ops, isInsert, out);
    ok := true;
  }

  method TrailOne(env: Env, doc: seq<Member>, ops: seq<Op>, active: seq<bool>, isInsert: bool,
                  applied: array<bool>, picked: array<Option<Value>>, k: nat) returns (r: Emit)
    requires FieldsOk(env, ops) && k < |ops| && OpOk(env, ops[k]) && Met(doc, |doc|, ops, applied[..], picked[..])
    requires |active| == |ops| && active[k] == Renames(env, doc, ops[k])
    ensures r == Trailed(env, doc, ops[k], isInsert)
  {
    assert doc[..|doc|] == doc;
    assert applied[k] == applied[..][k] && picked[k] == picked[..][k];
    var op := ops[k];
    if op.kind == Rename {
      return if active[k] then Keep(picked[k]) else Absent;
    }
    if applied[k] {
      return Absent;
    }
    r := EmitValue(env, op, None, isInsert);
  }

  /**
   * Apply an update to a document.  It succeeds unless the update is refused as a whole or an
   * operator fails on its field, and then every field becomes what the update says: each operator
   * does to its field what it is for.
   */
  method Apply(env: Env, doc: seq<Member>, update: Value, isInsert: bool)
    returns (e: Status, out: seq<Member>, ghost ops: seq<Op>)
    requires KeysDistinct(doc)
    ensures e == Ok ==> Accepted(env, update, ops) && Updated(env, doc, ops, isInsert, out)
    ensures e == Ok ==> AllDone(env, doc, ops, isInsert, out) && !SomeFails(env, doc, ops)
    ensures e != Ok ==> NotAccepted(env, update) || (Accepted(env, update, ops) && FieldFails(env, doc, ops, isInsert))
    ensures e != Ok ==> e == State && (NotAccepted(env, update) || SomeFails(env, doc, ops))
  {
    out, ops := [], [];
    var list;
    e, list := ParseUpdate(env, update);
    if e != Ok {
      return;
    }
    ops := list;
    var active := ActiveRenames(env, doc, list);
    var applied := new bool[|list|](_ => false);
    var picked := new Option<Value>[|list|](_ => None);
    assert doc[..0] == [];
    var ok;
    ok, out := Scan(env, doc, list, active, isInsert, applied, picked);
    if ok {
      ok, out := Trail(env, doc, list, active, isInsert, applied, picked, out);
    }
    e := if ok then Ok else State;
    FailsExactly(env, doc, ops, isInsert);
    if ok {
      UpdatedDoes(env, doc, ops, isInsert, out);
    }
  }

  // ---- what follows ----

  ghost predicate AllDone(env: Env, doc: seq<Member>, ops: seq<Op>, isInsert: bool, out: seq<Member>) {
    forall k :: 0 <= k < |ops| ==>
      Does(env, ops[k], Get(doc, ops[k].name), isInsert, Get(out, ops[k].name))
  }

  ghost predicate SomeFails(env: Env, doc: seq<Member>, ops: seq<Op>) {
    exists k :: 0 <= k < |ops| && Fails(env, ops[k], Get(doc, ops[k].name))
  }

  /** An operator's field is nobody's destination, so it becomes what the operator makes of it. */
  lemma TargetDone(env: Env, doc: seq<Member>, ops: seq<Op>, isInsert: bool, k: nat, r: Emit)
    requires OpsOk(env, ops) && k < |ops| && Becomes(env, doc, ops, isInsert, ops[k].name, r) && ops[k].kind != Rename
    ensures OpOk(env, ops[k]) && r == ValueFor(env, ops[k], Get(doc, ops[k].name), isInsert)
  {
    assert OpOk(env, ops[k]) && Targets(ops, ops[k].name, k);
    forall j: nat | j != k ensures !MovesTo(env, doc, ops, ops[k].name, j) {
      if MovesTo(env, doc, ops, ops[k].name, j) {
        DestApart(env, doc, ops, ops[k].name, j, k);
      }
    }
  }

  lemma UpdatedDoes(env: Env, doc: seq<Member>, ops: seq<Op>, isInsert: bool, out: seq<Member>)
    requires OpsOk(env, ops) && Updated(env, doc, ops, isInsert, out)
    ensures AllDone(env, doc, ops, isInsert, out) && !SomeFails(env, doc, ops)
  {
    forall k | 0 <= k < |ops|
      ensures Does(env, ops[k], Get(doc, ops[k].name), isInsert, Get(out, ops[k].name))
      ensures !Fails(env, ops[k], Get(doc, ops[k].name))
    {
      var name := ops[k].name;
      assert Becomes(env, doc, ops, isInsert, name, Keep(Get(out, name)));
      if ops[k].kind != Rename {
        TargetDone(env, doc, ops, isInsert, k, Keep(Get(out, name)));
        OperatorDoes(env, ops[k], Get(doc, name), isInsert, Get(out, name));
      }
    }
  }

  /** An update fails exactly if one of its operators does. */
  lemma FailsExactly(env: Env, doc: seq<Member>, ops: seq<Op>, isInsert: bool)
    requires OpsOk(env, ops)
    ensures FieldFails(env, doc, ops, isInsert) <==> SomeFails(env, doc, ops)
  {
    if name :| Becomes(env, doc, ops, isInsert, name, Refuse) {
      var k: nat :| Targets(ops, name, k) && ops[k].kind != Rename;
      TargetDone(env, doc, ops, isInsert, k, Refuse);
      OperatorDoes(env, ops[k], Get(doc, name), isInsert, None);
    }
    if k :| 0 <= k < |ops| && Fails(env, ops[k], Get(doc, ops[k].name)) {
      assert OpOk(env, ops[k]) && Targets(ops, ops[k].name, k);
      OperatorDoes(env, ops[k], Get(doc, ops[k].name), isInsert, None);
      BecomesByOp(env, doc, ops, isInsert, ops[k].name, k, Refuse);
    }
  }

  /** A field becomes one thing only; so an update that refuses some field has no result. */
  lemma BecomesOne(env: Env, doc: seq<Member>, ops: seq<Op>, isInsert: bool, name: Bytes, r: Emit, s: Emit)
    requires OpsOk(env, ops) && Becomes(env, doc, ops, isInsert, name, r) && Becomes(env, doc, ops, isInsert, name, s)
    ensures r == s
  {
    if k: nat :| MovesTo(env, doc, ops, name, k) {
    } else if k: nat :| Targets(ops, name, k) {
      assert OpOk(env, ops[k]);
    }
  }

  /** The id stays, and so does every field that is no operator's target and no active rename's destination. */
  lemma OthersStay(env: Env, doc: seq<Member>, ops: seq<Op>, isInsert: bool, out: seq<Member>, name: Bytes)
    requires OpsOk(env, ops) && Updated(env, doc, ops, isInsert, out)
    requires name == Ascii("_id") || forall k: nat :: !Targets(ops, name, k) && !MovesTo(env, doc, ops, name, k)
    ensures Get(out, name) == Get(doc, name)
  {
    forall k: nat ensures !Targets(ops, name, k) && !MovesTo(env, doc, ops, name, k) {
      if name == Ascii("_id") && k < |ops| {
        assert OpOk(env, ops[k]);
        RenamesAreTexts(env, ops);
        assert DestOk(ops, k);
      }
    }
    assert Becomes(env, doc, ops, isInsert, name, Keep(Get(out, name)));
  }

  /** A renamed field moves, over whatever stood at its new name. */
  lemma RenameMoves(env: Env, doc: seq<Member>, ops: seq<Op>, isInsert: bool, out: seq<Member>, k: nat, dest: Bytes)
    requires OpsOk(env, ops) && Updated(env, doc, ops, isInsert, out) && MovesTo(env, doc, ops, dest, k)
    ensures Get(out, dest) == Get(doc, ops[k].name)
    ensures ops[k].name != dest ==> Get(out, ops[k].name).None?
  {
    assert Becomes(env, doc, ops, isInsert, dest, Keep(Get(out, dest)));
    var src := ops[k].name;
    assert Targets(ops, src, k);
    if src != dest {
      forall j: nat ensures !MovesTo(env, doc, ops, src, j) {
        if MovesTo(env, doc, ops, src, j) && j != k {
          DestApart(env, doc, ops, src, j, k);
        }
      }
      assert Becomes(env, doc, ops, isInsert, src, Keep(Get(out, src)));
    }
  }
}
