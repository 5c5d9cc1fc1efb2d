/** Patches as JSON documents: what is sent to the server and read back. */
module PatchCodec {
  import opened Wrappers
  import opened Value
  import opened Patch

  function OpName(op: PatchOp): string {
    match op
    case Add(_, _) => "add"
    case Remove(_) => "remove"
    case Replace(_, _) => "replace"
    case Test(_, _) => "test"
    case Move(_, _) => "move"
    case Copy(_, _) => "copy"
  }

  /** `to_object`: the fields are set one after the other. */
  function ToObject(op: PatchOp): Result<JSON, Error> {
    var fs := SetField(SetField([], "op", Str(OpName(op))), "path", Str(op.path));
    match op
    case Remove(_) => Success(Obj(fs))
    case Move(_, from) => Success(Obj(SetField(fs, "from", Str(from))))
    case Copy(_, from) => Success(Obj(SetField(fs, "from", Str(from))))
    case _ =>
      if op.value.None? then Failure(PatchErr) else Success(Obj(SetField(fs, "value", op.value.value)))
  }

  /** `patch_to_json_value`. */
  function ToJson(ops: seq<PatchOp>): Result<seq<JSON>, Error> {
    if ops == [] then Success([])
    else
      var first :- ToObject(ops[0]);
      var rest :- ToJson(ops[1..]);
      Success([first] + rest)
  }

  predicate PatchKey(k: string) {
    k == "op" || k == "path" || k == "from" || k == "value"
  }

  function Build(name: string, path: string, value: Option<JSON>, from: Option<JSON>): Result<PatchOp, Error> {
    if name == "remove" then Success(Remove(path))
    else if name == "add" then if value.None? then Failure(PatchErr) else Success(Add(path, value))
    else if name == "replace" then if value.None? then Failure(PatchErr) else Success(Replace(path, value))
    else if name == "test" then if value.None? then Failure(PatchErr) else Success(Test(path, value))
    else if name == "move" then
      if from.None? || !from.value.Str? then Failure(PatchErr) else Success(Move(path, from.value.s))
    else if name == "copy" then
      if from.None? || !from.value.Str? then Failure(PatchErr) else Success(Copy(path, from.value.s))
    else Failure(PatchErr)
  }

  /** `_parse_op`. */
  function ParseOp(v: JSON): Result<PatchOp, Error> {
    if !v.Obj? then Failure(PatchErr)
    else
      var fs := v.fields;
      if !Distinct(fs) || exists i :: 0 <= i < |fs| && !PatchKey(fs[i].key) then Failure(PatchErr)
      else
        var name, path := Lookup(fs, "op"), Lookup(fs, "path");
        if name.None? || !name.value.Str? || path.None? || !path.value.Str? then Failure(PatchErr)
        else Build(name.value.s, path.value.s, Lookup(fs, "value"), Lookup(fs, "from"))
  }

  function ParseOps(items: seq<JSON>): Result<seq<PatchOp>, Error> {
    if items == [] then Success([])
    else
      var first :- ParseOp(items[0]);
      var rest :- ParseOps(items[1..]);
      Success([first] + rest)
  }

  /** `parse_patch` on a JSON value. */
  function ParsePatch(doc: JSON): Result<seq<PatchOp>, Error> {
    if !doc.Arr? then Failure(PatchErr) else ParseOps(doc.items)
  }

  // ----- nothing is lost on the way

  lemma {:induction false} ObjectLookups(op: PatchOp, last: string, v: JSON, k: string)
    requires last != "op" && last != "path"
    ensures var fs := SetField(SetField([], "op", Str(OpName(op))), "path", Str(op.path));
            && Distinct(fs) && Distinct(SetField(fs, last, v))
            && fs == [Field("op", Str(OpName(op))), Field("path", Str(op.path))]
            && SetField(fs, last, v) == fs + [Field(last, v)]
            && Lookup(SetField(fs, last, v), k)
               == (if k == last then Some(v) else if k == "op" then Some(Str(OpName(op)))
                   else if k == "path" then Some(Str(op.path)) else None)
            && Lookup(fs, k) == (if k == "op" then Some(Str(OpName(op))) else if k == "path" then Some(Str(op.path)) else None)
  {
    var one := SetField([], "op", Str(OpName(op)));
    var fs := SetField(one, "path", Str(op.path));
    DistinctSet([], "op", Str(OpName(op)));
    DistinctSet(one, "path", Str(op.path));
    DistinctSet(fs, last, v);
    LookupSet(one, "path", Str(op.path), k);
    LookupSet(one, "path", Str(op.path), last);
    LookupSet([], "op", Str(OpName(op)), k);
    LookupSet([], "op", Str(OpName(op)), last);
    LookupSet([], "op", Str(OpName(op)), "path");
    LookupSet(fs, last, v, k);
    RemoveAppended(one, "path", Str(op.path));
    RemoveAppended(fs, last, v);
  }

  lemma {:induction false} ParseToObject(op: PatchOp)
    requires ToObject(op).Success?
    ensures ParseOp(ToObject(op).value) == Success(op)
  {
    hide Lookup, SetField;
    var last := if op.Move? || op.Copy? then "from" else "value";
    var v := if op.Move? || op.Copy? then Str(op.from) else if op.Remove? then Null else op.value.value;
    ObjectLookups(op, last, v, "op");
    ObjectLookups(op, last, v, "path");
    ObjectLookups(op, last, v, "value");
    ObjectLookups(op, last, v, "from");
    var fs := ToObject(op).value.fields;
    assert forall i :: 0 <= i < |fs| ==> PatchKey(fs[i].key);
    BuildBack(op);
  }

  lemma {:induction false} BuildBack(op: PatchOp)
    requires ToObject(op).Success?
    ensures Build(OpName(op), op.path,
                  if op.Remove? || op.Move? || op.Copy? then None else op.value,
                  if op.Move? || op.Copy? then Some(Str(op.from)) else None) == Success(op)
  {
  }

  /** Every patch that can be written as JSON is read back unchanged. */
  lemma {:induction false} ParseToJson(ops: seq<PatchOp>)
    requires ToJson(ops).Success?
    ensures ParsePatch(Arr(ToJson(ops).value)) == Success(ops)
  {
    if ops != [] {
      ParseToObject(ops[0]);
      ParseToJson(ops[1..]);
      var items := ToJson(ops).value;
      assert items[1..] == ToJson(ops[1..]).value;
      assert ops == [ops[0]] + ops[1..];
    }
  }

  lemma {:induction false} BuildWritable(name: string, path: string, value: Option<JSON>, from: Option<JSON>)
    requires Build(name, path, value, from).Success?
    ensures ToObject(Build(name, path, value, from).value).Success?
  {
  }

  /** Every patch that was parsed can be written, and reads back as itself. */
  lemma {:induction false} ParsedWritable(items: seq<JSON>)
    requires ParseOps(items).Success?
    ensures ToJson(ParseOps(items).value).Success?
  {
    if items != [] {
      var ops := ParseOps(items).value;
      var fs := items[0].fields;
      BuildWritable(Lookup(fs, "op").value.s, Lookup(fs, "path").value.s, Lookup(fs, "value"), Lookup(fs, "from"));
      ParsedWritable(items[1..]);
      assert ops[1..] == ParseOps(items[1..]).value;
    }
  }

  /** The written form of each operation: its name and path, and its value or its source. */
  lemma {:induction false} WrittenForm(op: PatchOp)
    requires ToObject(op).Success?
    ensures ToObject(op).value.Obj?
    ensures var fs := ToObject(op).value.fields;
            && Lookup(fs, "path") == Some(Str(op.path))
            && (op.Add? ==> Lookup(fs, "op") == Some(Str("add")) && Lookup(fs, "value") == op.value)
            && (op.Remove? ==> Lookup(fs, "op") == Some(Str("remove")))
            && (op.Replace? ==> Lookup(fs, "op") == Some(Str("replace")) && Lookup(fs, "value") == op.value)
            && (op.Test? ==> Lookup(fs, "op") == Some(Str("test")) && Lookup(fs, "value") == op.value)
            && (op.Move? ==> Lookup(fs, "op") == Some(Str("move")) && Lookup(fs, "from") == Some(Str(op.from)))
            && (op.Copy? ==> Lookup(fs, "op") == Some(Str("copy")) && Lookup(fs, "from") == Some(Str(op.from)))
            && (op.Add? || op.Replace? || op.Test? ==> op.value.Some?)
  {
    ObjectLookups(op, "value", if op.Add? || op.Replace? || op.Test? then op.value.GetOr(Null) else Null, "op");
    ObjectLookups(op, "value", if op.Add? || op.Replace? || op.Test? then op.value.GetOr(Null) else Null, "path");
    ObjectLookups(op, "value", if op.Add? || op.Replace? || op.Test? then op.value.GetOr(Null) else Null, "value");
    ObjectLookups(op, "from", Str(if op.Move? || op.Copy? then op.from else ""), "op");
    ObjectLookups(op, "from", Str(if op.Move? || op.Copy? then op.from else ""), "path");
    ObjectLookups(op, "from", Str(if op.Move? || op.Copy? then op.from else ""), "from");
  }

  /** An object is read as an operation only if it has distinct fields, all of them known, a known
      name, a path, and the value or the source that its name asks for. */
  lemma {:induction false} ParsedForm(fs: seq<Field>)
    ensures ParseOp(Obj(fs)).Success? <==>
              && Distinct(fs) && (forall i :: 0 <= i < |fs| ==> fs[i].key in ["op", "path", "from", "value"])
              && (exists s :: Lookup(fs, "path") == Some(Str(s)))
              && (|| Lookup(fs, "op") == Some(Str("remove"))
                  || (Lookup(fs, "op") in [Some(Str("add")), Some(Str("replace")), Some(Str("test"))] && Lookup(fs, "value").Some?)
                  || (Lookup(fs, "op") in [Some(Str("move")), Some(Str("copy"))] && exists s :: Lookup(fs, "from") == Some(Str(s))))
  {
    hide Lookup, Distinct;
    assert forall k :: PatchKey(k) <==> k in ["op", "path", "from", "value"];
  }
}
