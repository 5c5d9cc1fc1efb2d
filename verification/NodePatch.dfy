/** `patch.py` on mutable nodes: every method computes what the value-level function computes,
    writes to no node that existed before, and returns only new nodes. */
module NodePatch {
  import opened Wrappers
  import opened Pointer
  import opened Value
  import opened Nodes
  import P = Patch

  ghost function RootO(r: Option<Ref>): set<object> {
    if r.Some? then Root(r.value) else {}
  }

  ghost function FootO(r: Option<Ref>): set<object>
    reads RootO(r)
  {
    if r.Some? then Foot(r.value) else {}
  }

  ghost function ViewO(r: Option<Ref>): Option<JSON>
    reads RootO(r)
  {
    if r.Some? then Some(View(r.value)) else None
  }

  ghost predicate OkO(r: Option<Ref>)
    reads RootO(r), FootO(r)
  {
    r.Some? ==> Ok(r.value)
  }

  /** The node-level result stands for the value-level one, errors included. */
  ghost predicate Computes(r: Result<Ref, Error>, spec: Result<JSON, Error>)
    reads (if r.Success? then Root(r.value) else {}), (if r.Success? then Foot(r.value) else {})
  {
    if r.Failure? then spec == Failure(r.error) else Ok(r.value) && spec == Success(View(r.value))
  }

  ghost predicate ComputesO(r: Result<Option<Ref>, Error>, spec: Result<Option<JSON>, Error>)
    reads (if r.Success? then RootO(r.value) else {}), (if r.Success? then FootO(r.value) else {})
  {
    if r.Failure? then spec == Failure(r.error) else OkO(r.value) && spec == Success(ViewO(r.value))
  }

  /** What an edit with this value is: no value means removal. */
  ghost function EditOf(value: Option<Ref>): P.Edit
    reads RootO(value)
  {
    if value.None? then P.Delete else P.Insert(View(value.value))
  }

  /** `_get`: a reference into the document, or Void. */
  method GetRef(doc: Option<Ref>, segs: Path) returns (r: Result<Option<Ref>, Error>)
    requires OkO(doc)
    ensures ComputesO(r, P.Get(ViewO(doc), segs))
  {
    var cur := doc;
    var i := 0;
    assert segs[0..] == segs;
    while i < |segs|
      invariant 0 <= i <= |segs| && OkO(cur)
      invariant P.Get(ViewO(cur), segs[i..]) == P.Get(ViewO(doc), segs)
    {
      assert segs[i..][1..] == segs[i + 1..];
      if cur.None? {
        return Success(None);
      }
      match cur.value {
      case ObjRef(o) =>
        cur := o.Get(segs[i]);
      case ArrRef(a) =>
        var idx := ParseArrayIndex(segs[i], false);
        if idx.Failure? {
          return Failure(idx.error);
        }
        var k := idx.value.value;
        if k >= |a.items| {
          return Success(None);
        }
        assert Inside(a.items[k], a.model.items[k], a, a.Repr);
        cur := Some(a.items[k]);
      case _ =>
        return Success(None);
      }
      i := i + 1;
    }
    r := Success(cur);
  }

  /** `_mutate` at the last segment, on an object. */
  method ObjectLeaf(o: JsonObject, seg: string, value: Option<Ref>) returns (r: Result<Ref, Error>)
    requires o.Valid() && OkO(value)
    ensures Computes(r, P.EditLeaf(o.model, seg, EditOf(value)))
    ensures r.Success? ==> fresh(Foot(r.value))
  {
    hide SetField, RemoveField, Lookup;
    var out := o.Clone();
    if value.None? {
      var found := out.Has(seg);
      if !found {
        return Failure(PatchErr);
      }
      var _ := out.Remove(seg);
    } else {
      var v := CloneRef(value.value);
      out.Set(seg, Some(v));
    }
    r := Success(ObjRef(out));
  }

  method NewArray(items: seq<Ref>, ghost views: seq<JSON>, ghost feet: set<object>) returns (r: Ref)
    requires |views| == |items|
    requires forall i :: 0 <= i < |items| ==> Ok(items[i]) && View(items[i]) == views[i] && Foot(items[i]) <= feet
    ensures Ok(r) && View(r) == Arr(views) && fresh(Foot(r) - feet)
  {
    var a := new JsonArray(items, views, feet);
    r := ArrRef(a);
  }

  method DeleteItem(a: JsonArray, k: nat) returns (r: Ref)
    requires a.Valid() && k < |a.items|
    ensures Ok(r) && fresh(Foot(r)) && View(r) == Arr(a.model.items[..k] + a.model.items[k + 1..])
  {
    var items, feet := CloneRefs(a.items, a.model.items, a, a.Repr);
    r := NewArray(items[..k] + items[k + 1..], a.model.items[..k] + a.model.items[k + 1..], feet);
  }

  method InsertItem(a: JsonArray, k: nat, value: Ref) returns (r: Ref)
    requires a.Valid() && Ok(value) && k <= |a.items|
    ensures Ok(r) && fresh(Foot(r)) && View(r) == Arr(a.model.items[..k] + [View(value)] + a.model.items[k..])
  {
    var items, feet := CloneRefs(a.items, a.model.items, a, a.Repr);
    var v := CloneRef(value);
    r := NewArray(items[..k] + [v] + items[k..], a.model.items[..k] + [View(value)] + a.model.items[k..], feet + Foot(v));
  }

  /** `_mutate` at the last segment, on an array. */
  method ArrayLeaf(a: JsonArray, seg: string, value: Option<Ref>) returns (r: Result<Ref, Error>)
    requires a.Valid() && OkO(value)
    ensures Computes(r, P.EditLeaf(a.model, seg, EditOf(value)))
    ensures r.Success? ==> fresh(Foot(r.value))
  {
    var idx := ParseArrayIndex(seg, value.Some?);
    if idx.Failure? {
      return Failure(idx.error);
    }
    var n := |a.items|;
    var out;
    if value.None? {
      if idx.value.value >= n {
        return Failure(PatchErr);
      }
      out := DeleteItem(a, idx.value.value);
    } else if idx.value.None? || idx.value.value == n {
      out := InsertItem(a, n, value.value);
      assert a.model.items[..n] + [View(value.value)] + a.model.items[n..] == a.model.items + [View(value.value)];
    } else if idx.value.value < n {
      out := InsertItem(a, idx.value.value, value.value);
    } else {
      return Failure(PatchErr);
    }
    r := Success(out);
  }

  method ReplaceItem(a: JsonArray, k: nat, segs: Path, value: Option<Ref>) returns (r: Result<Ref, Error>)
    requires a.Valid() && OkO(value) && k < |a.items| && segs != []
    ensures var c := P.Mutate(a.model.items[k], segs, EditOf(value));
            Computes(r, if c.Failure? then c else Success(Arr(a.model.items[k := c.value])))
    ensures r.Success? ==> fresh(Foot(r.value))
    decreases |segs|, 1
  {
    hide P.Mutate;
    var items, feet := CloneRefs(a.items, a.model.items, a, a.Repr);
    var c := MutateRef(items[k], segs, value);
    if c.Failure? {
      return c;
    }
    var out := WithItem(items, a.model.items, feet, k, c.value);
    r := Success(out);
  }

  method WithItem(items: seq<Ref>, ghost views: seq<JSON>, ghost feet: set<object>, k: nat, item: Ref) returns (r: Ref)
    requires k < |items| == |views| && Ok(item)
    requires forall i :: 0 <= i < |items| ==> Ok(items[i]) && View(items[i]) == views[i] && Foot(items[i]) <= feet
    ensures Ok(r) && View(r) == Arr(views[k := View(item)]) && fresh(Foot(r) - feet - Foot(item))
  {
    r := NewArray(items[k := item], views[k := View(item)], feet + Foot(item));
  }

  /** A copy of the object with one field set to a node that is not part of it. */
  method WithField(o: JsonObject, seg: string, v: Ref) returns (r: Ref)
    requires o.Valid() && Ok(v)
    ensures Ok(r) && View(r) == Obj(SetField(o.model.fields, seg, View(v))) && fresh(Foot(r) - Foot(v))
  {
    var out := o.Clone();
    out.Set(seg, Some(v));
    r := ObjRef(out);
  }

  method ReplaceField(o: JsonObject, seg: string, segs: Path, value: Option<Ref>) returns (r: Result<Ref, Error>)
    requires o.Valid() && OkO(value) && segs != []
    ensures var child := Lookup(o.model.fields, seg);
            if child.None? then r == Failure(PatchErr)
            else
              var c := P.Mutate(child.value, segs, EditOf(value));
              Computes(r, if c.Failure? then c else Success(Obj(SetField(o.model.fields, seg, c.value))))
    ensures r.Success? ==> fresh(Foot(r.value))
    decreases |segs|, 1
  {
    hide P.Mutate, SetField, Lookup;
    var child := o.Get(seg);
    if child.None? {
      return Failure(PatchErr);
    }
    var c := MutateRef(child.value, segs, value);
    if c.Failure? {
      return c;
    }
    var out := WithField(o, seg, c.value);
    r := Success(out);
  }

  /** `_mutate`: a new tree with the edit, the old tree untouched. No value means removal. */
  method MutateRef(doc: Ref, segs: Path, value: Option<Ref>) returns (r: Result<Ref, Error>)
    requires Ok(doc) && OkO(value) && segs != []
    ensures Computes(r, P.Mutate(View(doc), segs, EditOf(value)))
    ensures r.Success? ==> fresh(Foot(r.value))
    decreases |segs|, 0
  {
    match doc
    case ObjRef(o) =>
      if |segs| == 1 {
        r := ObjectLeaf(o, segs[0], value);
      } else {
        r := ReplaceField(o, segs[0], segs[1..], value);
      }
    case ArrRef(a) =>
      if |segs| == 1 {
        r := ArrayLeaf(a, segs[0], value);
      } else {
        var idx := ParseArrayIndex(segs[0], false);
        if idx.Failure? {
          return Failure(idx.error);
        }
        if idx.value.value >= |a.items| {
          return Failure(PatchErr);
        }
        r := ReplaceItem(a, idx.value.value, segs[1..], value);
      }
    case _ =>
      r := Failure(PatchErr);
  }

  // ----- the operations

  /** A patch operation whose value, when it has one, is a node. */
  datatype NodeOp =
    | Add(path: string, value: Option<Ref>)
    | Remove(path: string)
    | Replace(path: string, value: Option<Ref>)
    | Test(path: string, value: Option<Ref>)
    | Move(path: string, from: string)
    | Copy(path: string, from: string)
  {
    function Value(): Option<Ref> {
      if Add? || Replace? || Test? then value else None
    }
  }

  ghost function OpView(op: NodeOp): P.PatchOp
    reads RootO(op.Value())
  {
    match op
    case Add(path, value) => P.Add(path, ViewO(value))
    case Remove(path) => P.Remove(path)
    case Replace(path, value) => P.Replace(path, ViewO(value))
    case Test(path, value) => P.Test(path, ViewO(value))
    case Move(path, from) => P.Move(path, from)
    case Copy(path, from) => P.Copy(path, from)
  }

  /** `_add`. */
  method AddRef(doc: Option<Ref>, segs: Path, value: Option<Ref>) returns (r: Result<Option<Ref>, Error>)
    requires OkO(doc) && OkO(value)
    ensures value.None? ==> r == Failure(PatchErr)
    ensures value.Some? ==> ComputesO(r, P.AddAt(ViewO(doc), segs, View(value.value)))
    ensures r.Success? ==> OkO(r.value) && fresh(FootO(r.value))
  {
    if value.None? {
      return Failure(PatchErr);
    }
    if segs == [] {
      var v := CloneRef(value.value);
      return Success(Some(v));
    }
    if doc.None? {
      return Failure(PatchErr);
    }
    var d := MutateRef(doc.value, segs, value);
    if d.Failure? {
      return Failure(d.error);
    }
    r := Success(Some(d.value));
  }

  /** `_remove`. */
  method RemoveRef(doc: Option<Ref>, segs: Path) returns (r: Result<Option<Ref>, Error>)
    requires OkO(doc)
    ensures ComputesO(r, P.RemoveAt(ViewO(doc), segs))
    ensures r.Success? ==> fresh(FootO(r.value))
  {
    if segs == [] {
      return Success(None);
    }
    if doc.None? {
      return Failure(PatchErr);
    }
    var d := MutateRef(doc.value, segs, None);
    if d.Failure? {
      return Failure(d.error);
    }
    r := Success(Some(d.value));
  }

  method ReplaceRef(doc: Option<Ref>, segs: Path, value: Option<Ref>, ghost op: P.PatchOp) returns (r: Result<Option<Ref>, Error>)
    requires OkO(doc) && OkO(value)
    requires op.Replace? && op.value == ViewO(value) && ParsePointer(op.path) == Success(segs)
    ensures ComputesO(r, P.ApplyOp(ViewO(doc), op, P.AsCoded))
    ensures r.Success? ==> fresh(FootO(r.value))
  {
    hide P.Get, P.EditAt, ParsePointer;
    var current := GetRef(doc, segs);
    if current.Failure? {
      return current;
    }
    if current.value.None? {
      return Failure(PatchErr);
    }
    if segs == [] {
      if value.None? {
        return Success(None);
      }
      var v := CloneRef(value.value);
      return Success(Some(v));
    }
    r := AddRef(doc, segs, value);
  }

  method TestRef(doc: Option<Ref>, segs: Path, value: Option<Ref>, ghost op: P.PatchOp) returns (r: Result<Option<Ref>, Error>)
    requires OkO(doc) && OkO(value)
    requires op.Test? && op.value == ViewO(value) && ParsePointer(op.path) == Success(segs)
    ensures ComputesO(r, P.ApplyOp(ViewO(doc), op, P.AsCoded))
    ensures r.Success? ==> r.value == doc
  {
    hide P.Get, ParsePointer, SlotsEqual;
    var current := GetRef(doc, segs);
    if current.Failure? {
      return current;
    }
    var a := LoadO(current.value);
    var b := LoadO(value);
    if !SlotsEqual(a, b) {
      return Failure(PatchErr);
    }
    r := Success(doc);
  }

  method LoadO(r: Option<Ref>) returns (v: Option<JSON>)
    requires OkO(r)
    ensures v == ViewO(r)
  {
    if r.None? {
      return None;
    }
    var x := Load(r.value);
    v := Some(x);
  }

  method MoveRef(doc: Option<Ref>, segs: Path, path: string, from: string) returns (r: Result<Option<Ref>, Error>)
    requires OkO(doc) && ParsePointer(path) == Success(segs)
    ensures ComputesO(r, P.ApplyOp(ViewO(doc), P.Move(path, from), P.AsCoded))
    ensures r.Success? ==> fresh(FootO(r.value))
  {
    hide P.Get, P.AddAt, P.RemoveAt, ParsePointer, MoveGuard;
    if MoveGuard(from, path) {
      return Failure(PatchErr);
    }
    var source := ParsePointer(from);
    if source.Failure? {
      return Failure(source.error);
    }
    var v := GetRef(doc, source.value);
    if v.Failure? {
      return v;
    }
    if v.value.None? {
      return Failure(PatchErr);
    }
    var d := RemoveRef(doc, source.value);
    if d.Failure? {
      return d;
    }
    r := AddRef(d.value, segs, v.value);
  }

  method CopyRef(doc: Option<Ref>, segs: Path, path: string, from: string) returns (r: Result<Option<Ref>, Error>)
    requires OkO(doc) && ParsePointer(path) == Success(segs)
    ensures ComputesO(r, P.ApplyOp(ViewO(doc), P.Copy(path, from), P.AsCoded))
    ensures r.Success? ==> fresh(FootO(r.value))
  {
    hide P.Get, P.AddAt, ParsePointer;
    var source := ParsePointer(from);
    if source.Failure? {
      return Failure(source.error);
    }
    var v := GetRef(doc, source.value);
    if v.Failure? {
      return v;
    }
    if v.value.None? {
      return Failure(PatchErr);
    }
    r := AddRef(doc, segs, v.value);
  }

  /** `_apply_op`: the document itself after a `test`, otherwise only new nodes. */
  method ApplyOpRef(doc: Option<Ref>, op: NodeOp) returns (r: Result<Option<Ref>, Error>)
    requires OkO(doc) && OkO(op.Value())
    ensures ComputesO(r, P.ApplyOp(ViewO(doc), OpView(op), P.AsCoded))
    ensures r.Success? ==> (r.value == doc || fresh(FootO(r.value)))
  {
    hide P.Get, P.AddAt, P.RemoveAt, ParsePointer;
    var segs := ParsePointer(op.path);
    if segs.Failure? {
      return Failure(segs.error);
    }
    match op
    case Add(_, value) => r := AddRef(doc, segs.value, value);
    case Remove(_) => r := RemoveRef(doc, segs.value);
    case Replace(_, value) => r := ReplaceRef(doc, segs.value, value, OpView(op));
    case Test(_, value) => r := TestRef(doc, segs.value, value, OpView(op));
    case Move(path, from) => r := MoveRef(doc, segs.value, path, from);
    case Copy(path, from) => r := CopyRef(doc, segs.value, path, from);
  }

  lemma {:induction false} ApplyFrom(doc: Option<JSON>, ops: seq<P.PatchOp>, i: nat)
    requires i < |ops|
    ensures P.ApplyOps(doc, ops[i..], P.AsCoded)
            == (var d := P.ApplyOp(doc, ops[i], P.AsCoded);
                if d.Failure? then d else P.ApplyOps(d.value, ops[i + 1..], P.AsCoded))
  {
    assert ops[i..][0] == ops[i] && ops[i..][1..] == ops[i + 1..];
  }

  lemma {:induction false} ApplyNone(ops: seq<P.PatchOp>)
    ensures ops[0..] == ops
    ensures forall d :: P.ApplyOps(d, ops[|ops|..], P.AsCoded) == Success(d)
  {
  }

  /** `apply_patch` without a schema. No `modifies`: whether it succeeds or fails midway, no node
      of the document or of the patch changes; and the result shares no node with either. */
  method ApplyPatchRef(document: Ref, ops: seq<NodeOp>, ghost views: seq<P.PatchOp>) returns (r: Result<Ref, Error>)
    requires Ok(document) && |views| == |ops|
    requires forall i :: 0 <= i < |ops| ==> OkO(ops[i].Value()) && OpView(ops[i]) == views[i]
    ensures Computes(r, P.ApplyPatch(View(document), views, P.AsCoded))
    ensures r.Success? ==> fresh(Foot(r.value))
  {
    hide P.ApplyOp, P.ApplyOps;
    ApplyNone(views);
    var copy := CloneRef(document);
    var working := Some(copy);
    var i := 0;
    while i < |ops|
      invariant 0 <= i <= |ops| && OkO(working) && fresh(FootO(working))
      invariant P.ApplyOps(ViewO(working), views[i..], P.AsCoded) == P.ApplyOps(Some(View(document)), views, P.AsCoded)
    {
      ApplyFrom(ViewO(working), views, i);
      var next := ApplyOpRef(working, ops[i]);
      if next.Failure? {
        return Failure(next.error);
      }
      working := next.value;
      i := i + 1;
    }
    if working.None? {
      return Failure(PatchErr);
    }
    r := Success(working.value);
  }
}
