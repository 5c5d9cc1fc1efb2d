/** JSON Patch (RFC 6902): the operations, and two appliers that differ only in `replace`. */
module Patch {
  import opened Wrappers
  import opened Text
  import opened Pointer
  import opened Value

  /** A patch operation with its pointer text; a missing value is Void. */
  datatype PatchOp =
    | Add(path: string, value: Option<JSON>)
    | Remove(path: string)
    | Replace(path: string, value: Option<JSON>)
    | Test(path: string, value: Option<JSON>)
    | Move(path: string, from: string)
    | Copy(path: string, from: string)

  /** What `replace` does below the root. `AsCoded` is the repository's route through `_add`;
      `Rfc` is section 4.3 of RFC 6902 (see OverwriteIsRemoveThenAdd). */
  datatype ReplaceMeaning = AsCoded | Rfc

  /** What happens at the last segment of a path. */
  datatype Edit = Insert(v: JSON) | Delete | Overwrite(v: JSON)

  // ----- reading and editing at a path

  /** `_get`. */
  function Get(doc: Option<JSON>, segs: Path): Result<Option<JSON>, Error>
    decreases |segs|
  {
    if segs == [] || doc.None? then Success(doc)
    else
      match doc.value
      case Obj(fs) => Get(Lookup(fs, segs[0]), segs[1..])
      case Arr(items) =>
        var i :- ParseArrayIndex(segs[0], false);
        if i.value >= |items| then Success(None) else Get(Some(items[i.value]), segs[1..])
      case _ => Success(None)
  }

  /** `_mutate` at its last segment. */
  function EditLeaf(doc: JSON, seg: string, edit: Edit): Result<JSON, Error> {
    match doc
    case Obj(fs) =>
      (match edit
       case Delete => if Lookup(fs, seg).None? then Failure(PatchErr) else Success(Obj(RemoveField(fs, seg)))
       case Insert(v) => Success(Obj(SetField(fs, seg, v)))
       case Overwrite(v) => Success(Obj(SetField(fs, seg, v))))
    case Arr(items) =>
      var i :- ParseArrayIndex(seg, edit.Insert?);
      (match edit
       case Delete =>
         if i.value >= |items| then Failure(PatchErr)
         else Success(Arr(items[..i.value] + items[i.value + 1..]))
       case Insert(v) =>
         if i.None? || i.value == |items| then Success(Arr(items + [v]))
         else if i.value < |items| then Success(Arr(items[..i.value] + [v] + items[i.value..]))
         else Failure(PatchErr)
       case Overwrite(v) =>
         if i.value >= |items| then Failure(PatchErr) else Success(Arr(items[i.value := v])))
    case _ => Failure(PatchErr)
  }

  /** `_mutate` on a present document. */
  function Mutate(doc: JSON, segs: Path, edit: Edit): Result<JSON, Error>
    requires segs != []
    decreases |segs|
  {
    if |segs| == 1 then EditLeaf(doc, segs[0], edit)
    else
      match doc
      case Obj(fs) =>
        var child := Lookup(fs, segs[0]);
        if child.None? then Failure(PatchErr)
        else
          var c :- Mutate(child.value, segs[1..], edit);
          Success(Obj(SetField(fs, segs[0], c)))
      case Arr(items) =>
        var i :- ParseArrayIndex(segs[0], false);
        if i.value >= |items| then Failure(PatchErr)
        else
          var c :- Mutate(items[i.value], segs[1..], edit);
          Success(Arr(items[i.value := c]))
      case _ => Failure(PatchErr)
  }

  function EditAt(doc: Option<JSON>, segs: Path, edit: Edit): Result<Option<JSON>, Error>
    requires segs != []
  {
    if doc.None? then Failure(PatchErr)
    else
      var r :- Mutate(doc.value, segs, edit);
      Success(Some(r))
  }

  /** `_add`, for a value that is not Void. */
  function AddAt(doc: Option<JSON>, segs: Path, v: JSON): Result<Option<JSON>, Error> {
    if segs == [] then Success(Some(v)) else EditAt(doc, segs, Insert(v))
  }

  /** `_remove`. */
  function RemoveAt(doc: Option<JSON>, segs: Path): Result<Option<JSON>, Error> {
    if segs == [] then Success(None) else EditAt(doc, segs, Delete)
  }

  function ReplaceAt(doc: Option<JSON>, segs: Path, v: JSON, sem: ReplaceMeaning): Result<Option<JSON>, Error> {
    var current :- Get(doc, segs);
    if current.None? then Failure(PatchErr)
    else if segs == [] then Success(Some(v))
    else EditAt(doc, segs, if sem.AsCoded? then Insert(v) else Overwrite(v))
  }

  // ----- the operations a diff emits, with parsed paths

  datatype Change = AddValue(v: JSON) | RemoveValue | ReplaceValue(v: JSON)

  datatype Step = Step(segs: Path, change: Change) {
    predicate Vanishes() {
      segs == [] && change.RemoveValue?
    }
  }

  function ApplyStep(doc: Option<JSON>, step: Step, sem: ReplaceMeaning): Result<Option<JSON>, Error> {
    match step.change
    case AddValue(v) => AddAt(doc, step.segs, v)
    case RemoveValue => RemoveAt(doc, step.segs)
    case ReplaceValue(v) => ReplaceAt(doc, step.segs, v, sem)
  }

  function ApplySteps(doc: Option<JSON>, steps: seq<Step>, sem: ReplaceMeaning): Result<Option<JSON>, Error>
    decreases |steps|
  {
    if steps == [] then Success(doc)
    else
      var d :- ApplyStep(doc, steps[0], sem);
      ApplySteps(d, steps[1..], sem)
  }

  // ----- the operations themselves

  /** `_apply_op`. */
  function ApplyOp(doc: Option<JSON>, op: PatchOp, sem: ReplaceMeaning): Result<Option<JSON>, Error> {
    var segs :- ParsePointer(op.path);
    match op
    case Add(_, value) => if value.None? then Failure(PatchErr) else AddAt(doc, segs, value.value)
    case Remove(_) => RemoveAt(doc, segs)
    case Replace(_, value) =>
      var current :- Get(doc, segs);
      if current.None? then Failure(PatchErr)
      else if segs == [] then Success(value)
      else if value.None? then Failure(PatchErr)
      else ReplaceAt(doc, segs, value.value, sem)
    case Test(_, value) =>
      var current :- Get(doc, segs);
      if SlotsEqual(current, value) then Success(doc) else Failure(PatchErr)
    case Move(path, from) =>
      if MoveGuard(from, path) then Failure(PatchErr)
      else
        var source :- ParsePointer(from);
        var v :- Get(doc, source);
        if v.None? then Failure(PatchErr)
        else
          var d :- RemoveAt(doc, source);
          AddAt(d, segs, v.value)
    case Copy(_, from) =>
      var source :- ParsePointer(from);
      var v :- Get(doc, source);
      if v.None? then Failure(PatchErr) else AddAt(doc, segs, v.value)
  }

  function ApplyOps(doc: Option<JSON>, ops: seq<PatchOp>, sem: ReplaceMeaning): Result<Option<JSON>, Error>
    decreases |ops|
  {
    if ops == [] then Success(doc)
    else
      var d :- ApplyOp(doc, ops[0], sem);
      ApplyOps(d, ops[1..], sem)
  }

  /** `apply_patch` without a schema. */
  function ApplyPatch(document: JSON, ops: seq<PatchOp>, sem: ReplaceMeaning): Result<JSON, Error> {
    var working :- ApplyOps(Some(document), ops, sem);
    if working.None? then Failure(PatchErr) else Success(working.value)
  }

  /** The operation object of a step below a path prefix. */
  function Emit(prefix: Path, step: Step): PatchOp {
    var path := FormatPointer(prefix + step.segs);
    match step.change
    case AddValue(v) => Add(path, Some(v))
    case RemoveValue => Remove(path)
    case ReplaceValue(v) => Replace(path, Some(v))
  }

  function EmitAll(prefix: Path, steps: seq<Step>): seq<PatchOp> {
    if steps == [] then [] else [Emit(prefix, steps[0])] + EmitAll(prefix, steps[1..])
  }

  /** Writing the paths as pointer text and parsing them again changes no operation. */
  lemma {:induction false} EmittedMeaning(doc: Option<JSON>, steps: seq<Step>, sem: ReplaceMeaning)
    ensures ApplyOps(doc, EmitAll([], steps), sem) == ApplySteps(doc, steps, sem)
    decreases |steps|
  {
    hide ParsePointer, FormatPointer, Get, AddAt, RemoveAt, EditAt;
    if steps != [] {
      var step := steps[0];
      assert [] + step.segs == step.segs;
      ParseFormat(step.segs);
      assert ApplyOp(doc, Emit([], step), sem) == ApplyStep(doc, step, sem);
      assert EmitAll([], steps)[1..] == EmitAll([], steps[1..]);
      var d := ApplyStep(doc, step, sem);
      if d.Success? {
        EmittedMeaning(d.value, steps[1..], sem);
      }
    }
  }

  lemma {:induction false} ApplyAppend(doc: Option<JSON>, a: seq<Step>, b: seq<Step>, sem: ReplaceMeaning)
    ensures ApplySteps(doc, a + b, sem)
            == (var d := ApplySteps(doc, a, sem); if d.Failure? then d else ApplySteps(d.value, b, sem))
    decreases |a|
  {
    if a == [] {
      assert a + b == b;
    } else {
      assert (a + b)[1..] == a[1..] + b;
      var d := ApplyStep(doc, a[0], sem);
      if d.Success? {
        ApplyAppend(d.value, a[1..], b, sem);
      }
    }
  }

  // ----- localisation: operations below a child act on that child alone

  function Under(k: string, step: Step): Step {
    Step([k] + step.segs, step.change)
  }

  function UnderAll(k: string, steps: seq<Step>): seq<Step> {
    if steps == [] then [] else [Under(k, steps[0])] + UnderAll(k, steps[1..])
  }

  /** No step deletes the value it is applied to. */
  predicate Keeps(steps: seq<Step>) {
    forall i :: 0 <= i < |steps| ==> !steps[i].Vanishes()
  }

  lemma {:induction false} KeepsSome(doc: JSON, step: Step, sem: ReplaceMeaning)
    requires !step.Vanishes()
    ensures var r := ApplyStep(Some(doc), step, sem); r.Success? ==> r.value.Some?
  {
  }

  function LiftField(fs: seq<Field>, k: string, r: Result<Option<JSON>, Error>): Result<Option<JSON>, Error> {
    if r.Failure? then r
    else if r.value.None? then Success(Some(Obj(RemoveField(fs, k))))
    else Success(Some(Obj(SetField(fs, k, r.value.value))))
  }

  /** One step below key k of an object: exactly its effect on that field, errors included. */
  lemma {:induction false} LocalField(fs: seq<Field>, k: string, step: Step, sem: ReplaceMeaning)
    requires Lookup(fs, k).Some?
    ensures ApplyStep(Some(Obj(fs)), Under(k, step), sem) == LiftField(fs, k, ApplyStep(Lookup(fs, k), step, sem))
  {
    hide SetField, RemoveField;
    var segs := [k] + step.segs;
    assert segs[1..] == step.segs;
    assert Get(Some(Obj(fs)), segs) == Get(Lookup(fs, k), step.segs);
  }

  lemma {:induction false} LocalFieldAll(fs: seq<Field>, k: string, steps: seq<Step>, sem: ReplaceMeaning)
    requires Lookup(fs, k).Some? && Keeps(steps)
    ensures ApplySteps(Some(Obj(fs)), UnderAll(k, steps), sem) == LiftField(fs, k, ApplySteps(Lookup(fs, k), steps, sem))
    ensures var r := ApplySteps(Lookup(fs, k), steps, sem); r.Success? ==> r.value.Some?
    decreases |steps|
  {
    var c := Lookup(fs, k).value;
    if steps == [] {
      SetSame(fs, k);
    } else {
      LocalField(fs, k, steps[0], sem);
      KeepsSome(c, steps[0], sem);
      assert UnderAll(k, steps)[1..] == UnderAll(k, steps[1..]);
      var d := ApplyStep(Some(c), steps[0], sem);
      if d.Success? {
        var fs' := SetField(fs, k, d.value.value);
        LookupSet(fs, k, d.value.value, k);
        LocalFieldAll(fs', k, steps[1..], sem);
        var r := ApplySteps(d.value, steps[1..], sem);
        if r.Success? {
          SetSet(fs, k, d.value.value, r.value.value);
        }
      }
    }
  }

  /** A step that, below an array element, changes the element in place: anything deeper,
      and `replace` of the element itself when `replace` overwrites. */
  predicate InPlace(step: Step, sem: ReplaceMeaning) {
    step.segs != [] || (step.change.ReplaceValue? && sem.Rfc?)
  }

  function LiftItem(items: seq<JSON>, i: nat, r: Result<Option<JSON>, Error>): Result<Option<JSON>, Error>
    requires i < |items|
  {
    if r.Failure? || r.value.None? then r else Success(Some(Arr(items[i := r.value.value])))
  }

  lemma {:induction false} LocalItem(items: seq<JSON>, i: nat, step: Step, sem: ReplaceMeaning)
    requires i < |items| && InPlace(step, sem)
    ensures ApplyStep(Some(Arr(items)), Under(Decimal(i), step), sem)
            == LiftItem(items, i, ApplyStep(Some(items[i]), step, sem))
    ensures var r := ApplyStep(Some(items[i]), step, sem); r.Success? ==> r.value.Some?
  {
    var segs := [Decimal(i)] + step.segs;
    assert segs[1..] == step.segs;
    IndexRoundTrip(i, false);
    assert Get(Some(Arr(items)), segs) == Get(Some(items[i]), step.segs);
  }

  lemma {:induction false} LocalItemAll(items: seq<JSON>, i: nat, steps: seq<Step>, sem: ReplaceMeaning)
    requires i < |items| && forall j :: 0 <= j < |steps| ==> InPlace(steps[j], sem)
    ensures ApplySteps(Some(Arr(items)), UnderAll(Decimal(i), steps), sem)
            == LiftItem(items, i, ApplySteps(Some(items[i]), steps, sem))
    ensures var r := ApplySteps(Some(items[i]), steps, sem); r.Success? ==> r.value.Some?
    decreases |steps|
  {
    if steps == [] {
      assert items[i := items[i]] == items;
    } else {
      LocalItem(items, i, steps[0], sem);
      assert UnderAll(Decimal(i), steps)[1..] == UnderAll(Decimal(i), steps[1..]);
      var d := ApplyStep(Some(items[i]), steps[0], sem);
      if d.Success? {
        var items' := items[i := d.value.value];
        LocalItemAll(items', i, steps[1..], sem);
        var r := ApplySteps(d.value, steps[1..], sem);
        if r.Success? {
          assert items'[i := r.value.value] == items[i := r.value.value];
        }
      }
    }
  }
}
