/** JSON values as mutable nodes. `model` is the value a node stands for; a subtree may be
    shared, but no node contains itself. Scalar nodes are never updated and appear as values. */
module Nodes {
  import opened Wrappers
  import opened Value

  datatype Ref =
    | NullRef
    | BoolRef(b: bool)
    | StrRef(s: string)
    | NumRef(text: string)
    | ArrRef(arr: JsonArray)
    | ObjRef(obj: JsonObject)

  datatype NodeField = NodeField(key: string, value: Ref)

  ghost function Root(r: Ref): set<object> {
    match r
    case ArrRef(a) => {a}
    case ObjRef(o) => {o}
    case _ => {}
  }

  /** Every mutable node reachable from a reference. */
  ghost function Foot(r: Ref): set<object>
    reads Root(r)
  {
    match r
    case ArrRef(a) => a.Repr
    case ObjRef(o) => o.Repr
    case _ => {}
  }

  ghost function View(r: Ref): JSON
    reads Root(r)
  {
    match r
    case NullRef => Null
    case BoolRef(b) => Bool(b)
    case StrRef(s) => Str(s)
    case NumRef(text) => Num(text)
    case ArrRef(a) => a.model
    case ObjRef(o) => o.model
  }

  ghost predicate Ok(r: Ref)
    reads Root(r), Foot(r)
  {
    match r
    case ArrRef(a) => a.Valid()
    case ObjRef(o) => o.Valid()
    case _ => true
  }

  /** A child reference that stands for v, below `owner` and inside its footprint. */
  ghost predicate Inside(r: Ref, v: JSON, owner: object, repr: set<object>)
    requires owner in repr
    reads repr
    decreases repr, 0
  {
    match r
    case ArrRef(a) => a in repr && a.Repr <= repr && owner !in a.Repr && a.Valid() && a.model == v
    case ObjRef(o) => o in repr && o.Repr <= repr && owner !in o.Repr && o.Valid() && o.model == v
    case NullRef => v == Null
    case BoolRef(b) => v == Bool(b)
    case StrRef(s) => v == Str(s)
    case NumRef(text) => v == Num(text)
  }

  class JsonArray {
    var items: seq<Ref>
    ghost var model: JSON
    ghost var Repr: set<object>

    ghost predicate Valid()
      reads this, Repr
      ensures Valid() ==> this in Repr
      decreases Repr, 1
    {
      && this in Repr
      && model.Arr? && |model.items| == |items|
      && forall i :: 0 <= i < |items| ==> Inside(items[i], model.items[i], this, Repr)
    }

    constructor (items: seq<Ref>, ghost views: seq<JSON>, ghost feet: set<object>)
      requires |views| == |items|
      requires forall i :: 0 <= i < |items| ==> Ok(items[i]) && View(items[i]) == views[i] && Foot(items[i]) <= feet
      ensures Valid() && model == Arr(views) && Repr == {this} + feet && this !in feet
    {
      this.items := items;
      this.model := Arr(views);
      this.Repr := {this} + feet;
    }

    /** A deep copy: the same value, no shared node. */
    method Clone() returns (c: JsonArray)
      requires Valid()
      ensures c.Valid() && c.model == model && fresh(c.Repr)
      decreases Repr, 0
    {
      var out, feet := CloneRefs(items, model.items, this, Repr);
      c := new JsonArray(out, model.items, feet);
    }
  }

  /** The comprehension `[clone_value(v) for v in items]`. */
  method CloneRefs(items: seq<Ref>, ghost views: seq<JSON>, ghost owner: object, ghost repr: set<object>)
    returns (out: seq<Ref>, ghost feet: set<object>)
    requires owner in repr && |views| == |items|
    requires forall i :: 0 <= i < |items| ==> Inside(items[i], views[i], owner, repr)
    ensures |out| == |items| && fresh(feet)
    ensures forall i :: 0 <= i < |out| ==> Ok(out[i]) && View(out[i]) == views[i] && Foot(out[i]) <= feet
    decreases repr - {owner}, 3
  {
    out := [];
    feet := {};
    for i := 0 to |items|
      invariant |out| == i && fresh(feet)
      invariant forall j :: 0 <= j < i ==> Ok(out[j]) && View(out[j]) == views[j] && Foot(out[j]) <= feet
    {
      assert Inside(items[i], views[i], owner, repr);
      var c := CloneRef(items[i]);
      out := out + [c];
      feet := feet + Foot(c);
    }
  }

  /** `clone_value`. */
  method CloneRef(r: Ref) returns (c: Ref)
    requires Ok(r)
    ensures Ok(c) && View(c) == View(r) && fresh(Foot(c))
    decreases Foot(r), 2
  {
    match r
    case ArrRef(a) =>
      var n := a.Clone();
      c := ArrRef(n);
    case ObjRef(o) =>
      var n := o.Clone();
      c := ObjRef(n);
    case _ =>
      c := r;
  }

  class JsonObject {
    var fields: seq<NodeField>
    ghost var model: JSON
    ghost var Repr: set<object>

    ghost predicate Valid()
      reads this, Repr
      ensures Valid() ==> this in Repr
      decreases Repr, 1
    {
      && this in Repr
      && model.Obj? && |model.fields| == |fields|
      && forall i :: 0 <= i < |fields| ==>
           fields[i].key == model.fields[i].key && Inside(fields[i].value, model.fields[i].value, this, Repr)
    }

    constructor (fields: seq<NodeField>, ghost views: seq<Field>, ghost feet: set<object>)
      requires |views| == |fields|
      requires forall i :: 0 <= i < |fields| ==>
                 fields[i].key == views[i].key && Ok(fields[i].value)
                 && View(fields[i].value) == views[i].value && Foot(fields[i].value) <= feet
      ensures Valid() && model == Obj(views) && Repr == {this} + feet && this !in feet
    {
      this.fields := fields;
      this.model := Obj(views);
      this.Repr := {this} + feet;
    }

    method Clone() returns (c: JsonObject)
      requires Valid()
      ensures c.Valid() && c.model == model && fresh(c.Repr)
      decreases Repr, 0
    {
      var out: seq<NodeField> := [];
      ghost var feet: set<object> := {};
      for i := 0 to |fields|
        invariant |out| == i && fresh(feet)
        invariant forall j :: 0 <= j < i ==>
                    out[j].key == model.fields[j].key && Ok(out[j].value)
                    && View(out[j].value) == model.fields[j].value && Foot(out[j].value) <= feet
      {
        assert Inside(fields[i].value, model.fields[i].value, this, Repr);
        var v := CloneRef(fields[i].value);
        out := out + [NodeField(fields[i].key, v)];
        feet := feet + Foot(v);
      }
      c := new JsonObject(out, model.fields, feet);
    }

    /** The index of the first field of that name, |fields| when there is none. */
    method IndexOf(key: string) returns (i: nat)
      requires Valid()
      ensures i <= |fields| && (i < |fields| ==> fields[i].key == key)
      ensures forall j :: 0 <= j < i ==> fields[j].key != key
    {
      i := 0;
      while i < |fields| && fields[i].key != key
        invariant i <= |fields| && forall j :: 0 <= j < i ==> fields[j].key != key
      {
        i := i + 1;
      }
    }

    /** `get`; None is Void. */
    method Get(key: string) returns (r: Option<Ref>)
      requires Valid()
      ensures r.Some? <==> Lookup(model.fields, key).Some?
      ensures r.Some? ==> Ok(r.value) && View(r.value) == Lookup(model.fields, key).value
                          && Foot(r.value) <= Repr && this !in Foot(r.value)
    {
      var i := IndexOf(key);
      FirstAt(model.fields, key, i);
      if i == |fields| {
        return None;
      }
      assert Inside(fields[i].value, model.fields[i].value, this, Repr);
      r := Some(fields[i].value);
    }

    method Has(key: string) returns (found: bool)
      requires Valid()
      ensures found <==> Lookup(model.fields, key).Some?
    {
      var i := IndexOf(key);
      FirstAt(model.fields, key, i);
      found := i < |fields|;
    }

    /** `m` is the dictionary of the fields; `at` says which field each entry is. */
    ghost predicate IsDict(m: map<string, Ref>, at: map<string, nat>)
      requires model.Obj?
      reads this
    {
      && m.Keys == at.Keys == Dict(model.fields).Keys
      && forall k :: k in m ==>
           && at[k] < |fields| && at[k] < |model.fields|
           && m[k] == fields[at[k]].value && Dict(model.fields)[k] == model.fields[at[k]].value
    }

    /** `{k: v for k, v in items_non_void()}`. */
    method AsDict() returns (m: map<string, Ref>, ghost at: map<string, nat>)
      requires Valid()
      ensures IsDict(m, at)
    {
      m, at := map[], map[];
      var i := 0;
      while i < |fields|
        invariant 0 <= i <= |fields| && m.Keys == at.Keys == Dict(model.fields[..i]).Keys
        invariant forall k :: k in m ==>
                    at[k] < |fields| && m[k] == fields[at[k]].value && Dict(model.fields[..i])[k] == model.fields[at[k]].value
      {
        assert model.fields[..i + 1] == model.fields[..i] + [model.fields[i]];
        DictAppend(model.fields[..i], model.fields[i]);
        m := m[fields[i].key := fields[i].value];
        at := at[fields[i].key := i];
        i := i + 1;
      }
      assert model.fields[..i] == model.fields;
    }

    /** `set`; Void removes. Only this node changes. */
    method Set(key: string, value: Option<Ref>)
      requires Valid()
      requires value.Some? ==> Ok(value.value) && this !in Foot(value.value)
      modifies this
      ensures Valid() && Repr == old(Repr) + (if value.Some? then Foot(value.value) else {})
      ensures model == Obj(if value.Some? then SetField(old(model.fields), key, View(value.value))
                           else RemoveField(old(model.fields), key))
    {
      if value.None? {
        var _ := Remove(key);
        return;
      }
      var i := IndexOf(key);
      SetAt(model.fields, key, View(value.value), i);
      Put(i, key, value.value);
    }

    /** Overwrite the field at i, or append when i is past the end. */
    method Put(i: nat, key: string, value: Ref)
      requires Valid() && i <= |fields|
      requires Ok(value) && this !in Foot(value)
      modifies this
      ensures Valid() && Repr == old(Repr) + Foot(value)
      ensures var fs := old(model.fields);
              model == Obj(if i < |fs| then fs[i := Field(key, View(value))] else fs + [Field(key, View(value))])
    {
      ghost var repr := Repr + Foot(value);
      assert forall j :: 0 <= j < |fields| ==> Inside(fields[j].value, model.fields[j].value, this, repr);
      assert Inside(value, View(value), this, repr);
      ghost var fs := model.fields;
      if i < |fields| {
        fields := fields[i := NodeField(key, value)];
        model := Obj(fs[i := Field(key, View(value))]);
      } else {
        fields := fields + [NodeField(key, value)];
        model := Obj(fs + [Field(key, View(value))]);
      }
      Repr := repr;
    }

    method Remove(key: string) returns (removed: bool)
      requires Valid()
      modifies this
      ensures Valid() && Repr == old(Repr)
      ensures model == Obj(RemoveField(old(model.fields), key))
      ensures removed <==> Lookup(old(model.fields), key).Some?
    {
      hide RemoveField, Lookup;
      var i := IndexOf(key);
      FirstAt(model.fields, key, i);
      RemoveAtIndex(model.fields, key, i);
      removed := i < |fields|;
      if removed {
        fields := fields[..i] + fields[i + 1..];
      }
      model := Obj(RemoveField(model.fields, key));
    }
  }

  lemma {:induction false} FieldOk(o: JsonObject, i: nat)
    requires o.Valid() && i < |o.fields|
    ensures var r := o.fields[i].value;
            Ok(r) && View(r) == o.model.fields[i].value && Foot(r) <= o.Repr && o !in Foot(r)
  {
    assert Inside(o.fields[i].value, o.model.fields[i].value, o, o.Repr);
  }

  /** `m.get(key)`; None is Void. */
  method FromDict(o: JsonObject, m: map<string, Ref>, ghost at: map<string, nat>, key: string) returns (r: Option<Ref>)
    requires o.Valid() && o.IsDict(m, at)
    ensures r.Some? <==> key in Dict(o.model.fields)
    ensures r.Some? ==> Ok(r.value) && View(r.value) == Dict(o.model.fields)[key] && Foot(r.value) <= o.Repr && o !in Foot(r.value)
  {
    if key !in m {
      return None;
    }
    FieldOk(o, at[key]);
    r := Some(m[key]);
  }

  lemma {:induction false} ItemOk(a: JsonArray, i: nat)
    requires a.Valid() && i < |a.items|
    ensures var r := a.items[i];
            Ok(r) && View(r) == a.model.items[i] && Foot(r) <= a.Repr && a !in Foot(r)
  {
    assert Inside(a.items[i], a.model.items[i], a, a.Repr);
  }

  /** New nodes for a value. */
  method Store(v: JSON) returns (r: Ref)
    ensures Ok(r) && View(r) == v && fresh(Foot(r))
    decreases v
  {
    match v
    case Null => r := NullRef;
    case Bool(b) => r := BoolRef(b);
    case Str(s) => r := StrRef(s);
    case Num(text) => r := NumRef(text);
    case Arr(vs) =>
      var items: seq<Ref> := [];
      ghost var feet: set<object> := {};
      for i := 0 to |vs|
        invariant |items| == i && fresh(feet)
        invariant forall j :: 0 <= j < i ==> Ok(items[j]) && View(items[j]) == vs[j] && Foot(items[j]) <= feet
      {
        var c := Store(vs[i]);
        items := items + [c];
        feet := feet + Foot(c);
      }
      var a := new JsonArray(items, vs, feet);
      r := ArrRef(a);
    case Obj(fs) =>
      var fields: seq<NodeField> := [];
      ghost var feet: set<object> := {};
      for i := 0 to |fs|
        invariant |fields| == i && fresh(feet)
        invariant forall j :: 0 <= j < i ==>
                    fields[j].key == fs[j].key && Ok(fields[j].value) && View(fields[j].value) == fs[j].value && Foot(fields[j].value) <= feet
      {
        var c := Store(fs[i].value);
        fields := fields + [NodeField(fs[i].key, c)];
        feet := feet + Foot(c);
      }
      var o := new JsonObject(fields, fs, feet);
      r := ObjRef(o);
  }

  /** The value a tree of nodes stands for. */
  method Load(r: Ref) returns (v: JSON)
    requires Ok(r)
    ensures v == View(r)
    decreases Foot(r), 2
  {
    match r
    case NullRef => v := Null;
    case BoolRef(b) => v := Bool(b);
    case StrRef(s) => v := Str(s);
    case NumRef(text) => v := Num(text);
    case ArrRef(a) =>
      var items: seq<JSON> := [];
      for i := 0 to |a.items|
        invariant items == a.model.items[..i]
      {
        assert Inside(a.items[i], a.model.items[i], a, a.Repr);
        var x := Load(a.items[i]);
        items := items + [x];
      }
      v := Arr(items);
    case ObjRef(o) =>
      var fields: seq<Field> := [];
      for i := 0 to |o.fields|
        invariant fields == o.model.fields[..i]
      {
        assert Inside(o.fields[i].value, o.model.fields[i].value, o, o.Repr);
        var x := Load(o.fields[i].value);
        fields := fields + [Field(o.fields[i].key, x)];
      }
      v := Obj(fields);
  }

  // ----- the value functions, by index

  lemma {:induction false} FirstAt(fs: seq<Field>, k: string, i: nat)
    requires i <= |fs| && (i < |fs| ==> fs[i].key == k) && forall j :: 0 <= j < i ==> fs[j].key != k
    ensures Lookup(fs, k) == if i < |fs| then Some(fs[i].value) else None
  {
    if i > 0 {
      FirstAt(fs[1..], k, i - 1);
    }
  }

  lemma {:induction false} SetAt(fs: seq<Field>, k: string, v: JSON, i: nat)
    requires i <= |fs| && (i < |fs| ==> fs[i].key == k) && forall j :: 0 <= j < i ==> fs[j].key != k
    ensures SetField(fs, k, v) == if i < |fs| then fs[i := Field(k, v)] else fs + [Field(k, v)]
  {
    if i > 0 {
      SetAt(fs[1..], k, v, i - 1);
    }
  }

  lemma {:induction false} RemoveAtIndex(fs: seq<Field>, k: string, i: nat)
    requires i <= |fs| && (i < |fs| ==> fs[i].key == k) && forall j :: 0 <= j < i ==> fs[j].key != k
    ensures RemoveField(fs, k) == if i < |fs| then fs[..i] + fs[i + 1..] else fs
  {
    if i > 0 {
      RemoveAtIndex(fs[1..], k, i - 1);
      if i < |fs| {
        assert fs[1..][..i - 1] == fs[1..i] && fs[1..][i..] == fs[i + 1..];
        assert [fs[0]] + (fs[1..i] + fs[i + 1..]) == fs[..i] + fs[i + 1..];
      } else {
        assert [fs[0]] + fs[1..] == fs;
      }
    }
  }
}
