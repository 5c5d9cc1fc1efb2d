/** `_normalize` as it runs, on nodes: the two object loops set fields of `out` in place, the
    array loop fills `items`. No node of the input changes and the result is all new. */
module SchemaRun {
  import opened Wrappers
  import opened Number
  import opened Value
  import opened Schema
  import opened Nodes
  import opened NodePatch

  /** `_normalize`. */
  method NormalizeRef(value: Ref, e: Entry) returns (r: Result<Ref, Error>)
    requires Ok(value)
    ensures Computes(r, Normalize(View(value), e))
    ensures r.Success? ==> fresh(Foot(r.value))
    decreases e, 2
  {
    hide Children, Unknowns, Elements;
    if value.NullRef? {
      return if e.kind.NullKind? || e.nullable then Success(NullRef) else Failure(SchemaErr);
    }
    if !KindMatches(value, e) {
      return Failure(SchemaErr);
    }
    match value
    case ObjRef(o) =>
      r := NormalizeObject(o, e);
    case ArrRef(a) =>
      r := NormalizeArray(a, e);
    case StrRef(s) =>
      r := if StringOk(s, e) then Success(value) else Failure(SchemaErr);
    case NumRef(text) =>
      var rat := ParseJsonNumberRat(text);
      r := if rat.Failure? then Failure(rat.error) else if NumberOk(text, e) then Success(value) else Failure(SchemaErr);
    case BoolRef(_) =>
      r := Success(value);
  }

  /** `isinstance(value, kind_ok)`. */
  predicate KindMatches(value: Ref, e: Entry) {
    match value
    case NullRef => e.kind.NullKind?
    case BoolRef(_) => e.kind.BooleanKind?
    case StrRef(_) => e.kind.StringKind?
    case NumRef(_) => e.kind.NumberKind?
    case ArrRef(_) => e.kind.ArrayKind?
    case ObjRef(_) => e.kind.ObjectKind?
  }

  /** One turn of the first object loop: the field's value normalised, its default normalised, or
      nothing, set in `out`. The error when the turn raises. */
  method NormalizeChild(out: JsonObject, value: Option<Ref>, child: Entry) returns (e: Option<Error>)
    requires out.Valid() && OkO(value) && out !in FootO(value)
    modifies out
    ensures out.Valid() && fresh(out.Repr - old(out.Repr))
    ensures var spec := old(ChildSlot(ViewO(value), child));
            if e.Some? then spec == Failure(e.value)
            else spec.Success?
                 && out.model == Obj(if spec.value.Some? then SetField(old(out.model.fields), child.name, spec.value.value)
                                     else old(out.model.fields))
    decreases child, 3
  {
    hide Normalize, SetField;
    var v: Result<Ref, Error>;
    if value.Some? {
      v := NormalizeRef(value.value, child);
    } else if child.default.Some? {
      var default := Store(child.default.value);
      v := NormalizeRef(default, child);
    } else {
      return if child.required then Some(SchemaErr) else None;
    }
    if v.Failure? {
      return Some(v.error);
    }
    out.Set(child.name, Some(v.value));
    e := None;
  }

  /** `_normalize_object`. */
  method NormalizeObject(o: JsonObject, e: Entry) returns (r: Result<Ref, Error>)
    requires o.Valid() && e.kind.ObjectKind?
    ensures Computes(r, Normalize(o.model, e))
    ensures r.Success? ==> fresh(Foot(r.value))
    decreases e, 1
  {
    ObjectSpec(o.model.fields, e);
    hide Normalize, Children, Unknowns, Dict;
    var out := new JsonObject([], [], {});
    var error := SetChildren(o, e, out);
    if error.Some? {
      return Failure(error.value);
    }
    KeepUnknowns(o, e, out);
    r := Success(ObjRef(out));
  }

  /** The first object loop, over the schema's children. */
  method SetChildren(o: JsonObject, e: Entry, out: JsonObject) returns (error: Option<Error>)
    requires o.Valid() && out.Valid() && out !in o.Repr
    modifies out
    ensures out.Valid() && fresh(out.Repr - old(out.Repr)) && out.model.Obj?
    ensures Children(Dict(o.model.fields), e, 0, old(out.model.fields))
            == if error.Some? then Failure(error.value) else Success(out.model.fields)
    decreases e, 0, |e.children| + 1
  {
    hide Children, Dict;
    ghost var spec := Children(Dict(o.model.fields), e, 0, out.model.fields);
    var source;
    ghost var at;
    source, at := o.AsDict();
    var i := 0;
    while i < |e.children|
      invariant 0 <= i <= |e.children|
      invariant o.Valid() && o.model == old(o.model) && o.IsDict(source, at)
      invariant out.Valid() && fresh(out.Repr - old(out.Repr)) && out.model.Obj?
      invariant Children(Dict(o.model.fields), e, i, out.model.fields) == spec
    {
      error := SetChild(o, source, at, e, i, out);
      if error.Some? {
        return;
      }
      i := i + 1;
    }
    ChildrenStep(Dict(o.model.fields), e, i, out.model.fields);
    error := None;
  }

  method SetChild(o: JsonObject, source: map<string, Ref>, ghost at: map<string, nat>, e: Entry, i: nat, out: JsonObject)
    returns (error: Option<Error>)
    requires o.Valid() && o.IsDict(source, at) && out.Valid() && out !in o.Repr && i < |e.children|
    modifies out
    ensures out.Valid() && fresh(out.Repr - old(out.Repr)) && out.model.Obj?
    ensures Children(Dict(o.model.fields), e, i, old(out.model.fields))
            == if error.Some? then Failure(error.value) else Children(Dict(o.model.fields), e, i + 1, out.model.fields)
    decreases e, 0, 0
  {
    hide Children, ChildSlot, Dict, SetField;
    ChildrenStep(Dict(o.model.fields), e, i, out.model.fields);
    var child := e.children[i];
    var value := FromDict(o, source, at, child.name);
    assert ViewO(value) == Slot(Dict(o.model.fields), child.name);
    error := NormalizeChild(out, value, child);
  }

  lemma {:induction false} ObjectSpec(fs: seq<Field>, e: Entry)
    requires e.kind.ObjectKind?
    ensures var known := Children(Dict(fs), e, 0, []);
            Normalize(Obj(fs), e) == if known.Failure? then Failure(known.error) else Success(Obj(Unknowns(known.value, fs, e)))
  {
  }

  lemma {:induction false} ChildrenStep(source: map<string, JSON>, e: Entry, i: nat, out: seq<Field>)
    requires i <= |e.children|
    ensures i == |e.children| ==> Children(source, e, i, out) == Success(out)
    ensures i < |e.children| ==>
              var c := e.children[i];
              var v := ChildSlot(Slot(source, c.name), c);
              Children(source, e, i, out)
              == if v.Failure? then Failure(v.error)
                 else Children(source, e, i + 1, if v.value.Some? then SetField(out, c.name, v.value.value) else out)
  {
  }

  /** The second object loop: clones of the fields the schema does not know. */
  method KeepUnknowns(o: JsonObject, e: Entry, out: JsonObject)
    requires o.Valid() && out.Valid() && out !in o.Repr
    modifies out
    ensures out.Valid() && fresh(out.Repr - old(out.Repr))
    ensures out.model == Obj(Unknowns(old(out.model.fields), o.model.fields, e))
  {
    hide SetField;
    ghost var fs := o.model.fields;
    ghost var result := Unknowns(out.model.fields, fs, e);
    assert fs[0..] == fs;
    var n := 0;
    while n < |o.fields|
      invariant 0 <= n <= |o.fields|
      invariant o.Valid() && o.model == Obj(fs)
      invariant out.Valid() && fresh(out.Repr - old(out.Repr)) && out.model.Obj?
      invariant Unknowns(out.model.fields, fs[n..], e) == result
    {
      assert fs[n..][0] == fs[n] && fs[n..][1..] == fs[n + 1..];
      if !IsChildName(e, o.fields[n].key) {
        FieldOk(o, n);
        var v := CloneRef(o.fields[n].value);
        out.Set(o.fields[n].key, Some(v));
      }
      n := n + 1;
    }
  }

  /** `_normalize_array`. */
  method NormalizeArray(a: JsonArray, e: Entry) returns (r: Result<Ref, Error>)
    requires a.Valid() && e.kind.ArrayKind?
    ensures Computes(r, Normalize(a.model, e))
    ensures r.Success? ==> fresh(Foot(r.value))
    decreases e, 1
  {
    if e.items.None? {
      var c := a.Clone();
      return Success(ArrRef(c));
    }
    hide Normalize, Elements;
    var items, error;
    ghost var views, feet;
    items, error, views, feet := NormalizeItems(a, e);
    if error.Some? {
      ArrayFails(a.model.items, e, error.value);
      return Failure(error.value);
    }
    ArraySucceeds(a.model.items, e, views);
    var out := NewArray(items, views, feet);
    r := Success(out);
  }

  method NormalizeItems(a: JsonArray, e: Entry)
    returns (items: seq<Ref>, error: Option<Error>, ghost views: seq<JSON>, ghost feet: set<object>)
    requires a.Valid() && e.items.Some?
    ensures |items| == |views| && fresh(feet)
    ensures forall j :: 0 <= j < |items| ==> Ok(items[j]) && View(items[j]) == views[j] && Foot(items[j]) <= feet
    ensures Elements(a.model.items, e, 0) == if error.Some? then Failure(error.value) else Success(views)
    decreases e, 0
  {
    hide Normalize, Elements;
    ghost var xs := a.model.items;
    items, views, feet := [], [], {};
    ElementsStep(xs, e, 0, []);
    var i := 0;
    while i < |a.items|
      invariant 0 <= i <= |a.items| && |items| == |views| == i && fresh(feet)
      invariant forall j :: 0 <= j < i ==> Ok(items[j]) && View(items[j]) == views[j] && Foot(items[j]) <= feet
      invariant Elements(xs, e, 0) == Before(views, Elements(xs, e, i))
    {
      ElementsStep(xs, e, i, views);
      ItemOk(a, i);
      var v := NormalizeRef(a.items[i], e.items.value);
      if v.Failure? {
        error := Some(v.error);
        return;
      }
      items := items + [v.value];
      views := views + [View(v.value)];
      feet := feet + Foot(v.value);
      i := i + 1;
    }
    error := None;
    ElementsStep(xs, e, i, views);
  }

  function Before(views: seq<JSON>, rest: Result<seq<JSON>, Error>): Result<seq<JSON>, Error> {
    if rest.Failure? then rest else Success(views + rest.value)
  }

  lemma {:induction false} ElementsStep(xs: seq<JSON>, e: Entry, i: nat, views: seq<JSON>)
    requires e.items.Some? && i <= |xs|
    ensures Before([], Elements(xs, e, i)) == Elements(xs, e, i)
    ensures i == |xs| ==> Before(views, Elements(xs, e, i)) == Success(views)
    ensures i < |xs| ==>
              var v := Normalize(xs[i], e.items.value);
              Before(views, Elements(xs, e, i))
              == if v.Failure? then Failure(v.error) else Before(views + [v.value], Elements(xs, e, i + 1))
  {
    assert Elements(xs, e, i).Success? ==> [] + Elements(xs, e, i).value == Elements(xs, e, i).value;
    if i == |xs| {
      assert views + [] == views;
    } else {
      var v, rest := Normalize(xs[i], e.items.value), Elements(xs, e, i + 1);
      if v.Success? && rest.Success? {
        assert views + ([v.value] + rest.value) == (views + [v.value]) + rest.value;
      }
    }
  }

  lemma {:induction false} ArrayFails(xs: seq<JSON>, e: Entry, error: Error)
    requires e.kind.ArrayKind? && e.items.Some? && Elements(xs, e, 0) == Failure(error)
    ensures Normalize(Arr(xs), e) == Failure(error)
  {
  }

  lemma {:induction false} ArraySucceeds(xs: seq<JSON>, e: Entry, ys: seq<JSON>)
    requires e.kind.ArrayKind? && e.items.Some? && Elements(xs, e, 0) == Success(ys)
    ensures Normalize(Arr(xs), e) == Success(Arr(ys))
  {
  }
}
