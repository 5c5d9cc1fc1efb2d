/** Laws relating `_get`, `_add` and `_remove`, and what RFC 6902 asks of `replace`. */
module PatchLaws {
  import opened Wrappers
  import opened Pointer
  import opened Value
  import opened Patch

  // ----- well-formed values stay well-formed

  predicate EditWF(e: Edit) {
    e.Delete? || WF(e.v)
  }

  lemma {:induction false} SetFieldWF(fs: seq<Field>, k: string, v: JSON)
    requires WF(Obj(fs)) && WF(v)
    ensures WF(Obj(SetField(fs, k, v)))
  {
    DistinctSet(fs, k, v);
    SetFieldMembers(fs, k, v);
  }

  lemma {:induction false} SetFieldMembers(fs: seq<Field>, k: string, v: JSON)
    ensures forall f :: f in SetField(fs, k, v) ==> f in fs || f.value == v
  {
    if fs != [] && fs[0].key != k {
      SetFieldMembers(fs[1..], k, v);
    }
  }

  lemma {:induction false} RemoveFieldWF(fs: seq<Field>, k: string)
    requires WF(Obj(fs))
    ensures WF(Obj(RemoveField(fs, k)))
  {
    DistinctRemove(fs, k);
    RemoveFieldMembers(fs, k);
    var out := RemoveField(fs, k);
    forall i | 0 <= i < |out| ensures WF(out[i].value) {
      assert out[i] in fs;
    }
  }

  lemma {:induction false} RemoveFieldMembers(fs: seq<Field>, k: string)
    ensures forall f :: f in RemoveField(fs, k) ==> f in fs
  {
    if fs != [] && fs[0].key != k {
      RemoveFieldMembers(fs[1..], k);
    }
  }

  lemma {:induction false} LeafWF(doc: JSON, seg: string, e: Edit)
    requires WF(doc) && EditWF(e)
    ensures var r := EditLeaf(doc, seg, e); r.Success? ==> WF(r.value)
  {
    if doc.Obj? {
      if e.Delete? { RemoveFieldWF(doc.fields, seg); } else { SetFieldWF(doc.fields, seg, e.v); }
    }
  }

  lemma {:induction false} MutateWF(doc: JSON, segs: Path, e: Edit)
    requires segs != [] && WF(doc) && EditWF(e)
    ensures var r := Mutate(doc, segs, e); r.Success? ==> WF(r.value)
    decreases |segs|
  {
    if |segs| == 1 {
      LeafWF(doc, segs[0], e);
    } else if doc.Obj? {
      var child := Lookup(doc.fields, segs[0]);
      if child.Some? {
        LookupWF(doc.fields, segs[0]);
        MutateWF(child.value, segs[1..], e);
        var c := Mutate(child.value, segs[1..], e);
        if c.Success? { SetFieldWF(doc.fields, segs[0], c.value); }
      }
    } else if doc.Arr? {
      var i := ParseArrayIndex(segs[0], false);
      if i.Success? && i.value.value < |doc.items| {
        MutateWF(doc.items[i.value.value], segs[1..], e);
      }
    }
  }

  predicate SlotWF(d: Option<JSON>) {
    d.Some? ==> WF(d.value)
  }

  predicate ChangeWF(c: Change) {
    c.RemoveValue? || WF(c.v)
  }

  lemma {:induction false} StepWF(doc: Option<JSON>, step: Step, sem: ReplaceMeaning)
    requires SlotWF(doc) && ChangeWF(step.change)
    ensures var r := ApplyStep(doc, step, sem); r.Success? ==> SlotWF(r.value)
  {
    if doc.Some? && step.segs != [] {
      match step.change
      case AddValue(v) => MutateWF(doc.value, step.segs, Insert(v));
      case RemoveValue => MutateWF(doc.value, step.segs, Delete);
      case ReplaceValue(v) =>
        MutateWF(doc.value, step.segs, Insert(v));
        MutateWF(doc.value, step.segs, Overwrite(v));
    }
  }

  lemma {:induction false} StepsWF(doc: Option<JSON>, steps: seq<Step>, sem: ReplaceMeaning)
    requires SlotWF(doc) && forall i :: 0 <= i < |steps| ==> ChangeWF(steps[i].change)
    ensures var r := ApplySteps(doc, steps, sem); r.Success? ==> SlotWF(r.value)
    decreases |steps|
  {
    if steps != [] {
      StepWF(doc, steps[0], sem);
      var d := ApplyStep(doc, steps[0], sem);
      if d.Success? {
        StepsWF(d.value, steps[1..], sem);
      }
    }
  }

  // ----- where a path ends

  /** The child a segment selects, as `_mutate` descends: None where it raises. */
  function Child(doc: JSON, seg: string): Option<JSON> {
    match doc
    case Obj(fs) => Lookup(fs, seg)
    case Arr(items) =>
      var i := ParseArrayIndex(seg, false);
      if i.Success? && i.value.value < |items| then Some(items[i.value.value]) else None
    case _ => None
  }

  /** The container that the last segment of a path is looked up in. */
  function Parent(doc: JSON, segs: Path): Option<JSON>
    requires segs != []
    decreases |segs|
  {
    if |segs| == 1 then Some(doc)
    else if Child(doc, segs[0]).None? then None
    else Parent(Child(doc, segs[0]).value, segs[1..])
  }

  predicate AtArray(doc: JSON, segs: Path)
    requires segs != []
  {
    Parent(doc, segs).Some? && Parent(doc, segs).value.Arr?
  }

  /** The path names the append position of an array. */
  predicate Appends(doc: JSON, segs: Path)
    requires segs != []
  {
    AtArray(doc, segs) && segs[|segs| - 1] == "-"
  }

  /** `doc` with one child exchanged. */
  function WithChild(doc: JSON, seg: string, c: JSON): JSON
    requires Child(doc, seg).Some?
  {
    match doc
    case Obj(fs) => Obj(SetField(fs, seg, c))
    case Arr(items) => Arr(items[ParseArrayIndex(seg, false).value.value := c])
  }

  lemma {:induction false} MutateDeeper(doc: JSON, segs: Path, e: Edit)
    requires |segs| > 1
    ensures var c := Child(doc, segs[0]);
            var r := Mutate(doc, segs, e);
            && (c.None? ==> r.Failure?)
            && (c.Some? ==>
                  var d := Mutate(c.value, segs[1..], e);
                  r == if d.Failure? then d else Success(WithChild(doc, segs[0], d.value)))
  {
  }

  lemma {:induction false} GetDeeper(doc: JSON, segs: Path)
    requires segs != [] && Child(doc, segs[0]).Some?
    ensures Get(Some(doc), segs) == Get(Child(doc, segs[0]), segs[1..])
  {
  }

  lemma {:induction false} ChildOfWithChild(doc: JSON, seg: string, c: JSON)
    requires Child(doc, seg).Some?
    ensures Child(WithChild(doc, seg, c), seg) == Some(c)
  {
    if doc.Obj? { LookupSet(doc.fields, seg, c, seg); }
  }

  lemma {:induction false} WithChildTwice(doc: JSON, seg: string, c: JSON, d: JSON)
    requires Child(doc, seg).Some? && Child(WithChild(doc, seg, c), seg).Some?
    ensures WithChild(WithChild(doc, seg, c), seg, d) == WithChild(doc, seg, d)
    ensures WithChild(doc, seg, d) == doc <==> Child(doc, seg) == Some(d)
  {
    if doc.Obj? {
      SetSet(doc.fields, seg, c, d);
      LookupSet(doc.fields, seg, d, seg);
      if Lookup(doc.fields, seg) == Some(d) { SetSame(doc.fields, seg); }
    }
  }

  // ----- add, then get

  lemma {:induction false} LeafGet(doc: JSON, seg: string, v: JSON)
    requires EditLeaf(doc, seg, Insert(v)).Success?
    ensures Get(Some(EditLeaf(doc, seg, Insert(v)).value), [seg])
            == if doc.Arr? && seg == "-" then Failure(ValueErr) else Success(Some(v))
  {
    var d := EditLeaf(doc, seg, Insert(v)).value;
    if doc.Obj? {
      LookupSet(doc.fields, seg, v, seg);
    }
  }

  /** What was added is what is read back; only the append position `-` cannot be read. */
  lemma {:induction false} GetAfterAdd(doc: JSON, segs: Path, v: JSON)
    requires segs != [] && Mutate(doc, segs, Insert(v)).Success?
    ensures Get(Some(Mutate(doc, segs, Insert(v)).value), segs)
            == if Appends(doc, segs) then Failure(ValueErr) else Success(Some(v))
    decreases |segs|
  {
    if |segs| == 1 {
      LeafGet(doc, segs[0], v);
      assert segs == [segs[0]];
    } else {
      MutateDeeper(doc, segs, Insert(v));
      var c := Child(doc, segs[0]).value;
      GetAfterAdd(c, segs[1..], v);
      var d := Mutate(c, segs[1..], Insert(v)).value;
      ChildOfWithChild(doc, segs[0], d);
      GetDeeper(WithChild(doc, segs[0], d), segs);
    }
  }

  // ----- an edit leaves alone what diverges from it at an object key

  /** The two paths part ways at two different keys of one object. */
  predicate PartAtKey(doc: JSON, p: Path, q: Path)
    decreases |p|
  {
    && p != [] && q != []
    && if p[0] == q[0] then Child(doc, p[0]).Some? && PartAtKey(Child(doc, p[0]).value, p[1..], q[1..])
       else doc.Obj?
  }

  lemma {:induction false} EditElsewhere(doc: JSON, p: Path, e: Edit, q: Path)
    requires p != [] && Mutate(doc, p, e).Success? && PartAtKey(doc, p, q)
    ensures Get(Some(Mutate(doc, p, e).value), q) == Get(Some(doc), q)
    decreases |p|
  {
    if p[0] != q[0] {
      var fs, gs := doc.fields, Mutate(doc, p, e).value.fields;
      assert Lookup(gs, q[0]) == Lookup(fs, q[0]) by {
        if |p| > 1 {
          LookupSet(fs, p[0], Mutate(Lookup(fs, p[0]).value, p[1..], e).value, q[0]);
        } else if e.Delete? {
          LookupRemoveOther(fs, p[0], q[0]);
        } else {
          LookupSet(fs, p[0], e.v, q[0]);
        }
      }
    } else {
      MutateDeeper(doc, p, e);
      var c := Child(doc, p[0]).value;
      EditElsewhere(c, p[1..], e, q[1..]);
      var d := Mutate(c, p[1..], e).value;
      ChildOfWithChild(doc, p[0], d);
      GetDeeper(WithChild(doc, p[0], d), q);
      GetDeeper(doc, q);
    }
  }

  // ----- add, then remove

  lemma {:induction false} LeafUndo(doc: JSON, seg: string, v: JSON)
    requires WF(doc) && EditLeaf(doc, seg, Insert(v)).Success? && !(doc.Arr? && seg == "-")
    ensures var r := EditLeaf(EditLeaf(doc, seg, Insert(v)).value, seg, Delete);
            r.Success? && (r.value == doc <==> doc.Arr? || Child(doc, seg).None?)
  {
    if doc.Obj? {
      var fs := doc.fields;
      LookupSet(fs, seg, v, seg);
      DistinctSet(fs, seg, v);
      LookupRemoved(SetField(fs, seg, v), seg);
      if Lookup(fs, seg).None? { RemoveAppended(fs, seg, v); }
    } else {
      var xs := doc.items;
      var i := ParseArrayIndex(seg, true).value.value;
      var ys := EditLeaf(doc, seg, Insert(v)).value.items;
      assert ys == xs[..i] + [v] + xs[i..];
      assert ys[..i] + ys[i + 1..] == xs;
    }
  }

  /** Removing at the same path undoes an addition, field order included, exactly when the
      path was absent or addresses an array position. */
  lemma {:induction false} RemoveUndoesAdd(doc: JSON, segs: Path, v: JSON)
    requires segs != [] && WF(doc) && Mutate(doc, segs, Insert(v)).Success? && !Appends(doc, segs)
    ensures var r := Mutate(Mutate(doc, segs, Insert(v)).value, segs, Delete);
            r.Success? && (r.value == doc <==> AtArray(doc, segs) || Get(Some(doc), segs) == Success(None))
    decreases |segs|
  {
    var seg := segs[0];
    if |segs| == 1 {
      LeafUndo(doc, seg, v);
      assert segs == [seg];
    } else {
      MutateDeeper(doc, segs, Insert(v));
      var c := Child(doc, seg).value;
      if doc.Obj? { LookupWF(doc.fields, seg); }
      RemoveUndoesAdd(c, segs[1..], v);
      var d := Mutate(c, segs[1..], Insert(v)).value;
      var e := Mutate(d, segs[1..], Delete).value;
      ChildOfWithChild(doc, seg, d);
      MutateDeeper(WithChild(doc, seg, d), segs, Delete);
      WithChildTwice(doc, seg, d, e);
      GetDeeper(doc, segs);
    }
  }

  // ----- section 4.3 of RFC 6902

  lemma {:induction false} FieldOverwrite(fs: seq<Field>, k: string, v: JSON)
    requires Distinct(fs)
    ensures ValuesEqual(Obj(SetField(fs, k, v)), Obj(SetField(RemoveField(fs, k), k, v)))
  {
    hide ValuesEqual, SetField, RemoveField;
    var gs, hs := SetField(fs, k, v), SetField(RemoveField(fs, k), k, v);
    DistinctSet(fs, k, v);
    DistinctRemove(fs, k);
    DistinctSet(RemoveField(fs, k), k, v);
    EqualReflexive(v);
    forall j ensures SlotsEqual(Lookup(gs, j), Lookup(hs, j)) {
      LookupSet(fs, k, v, j);
      LookupSet(RemoveField(fs, k), k, v, j);
      if j != k {
        LookupRemoveOther(fs, k, j);
        if Lookup(fs, j).Some? { EqualReflexive(Lookup(fs, j).value); }
      }
    }
    SameFieldsEqual(gs, hs);
  }

  lemma {:induction false} LeafOverwrite(doc: JSON, seg: string, v: JSON)
    requires WF(doc)
    requires Child(doc, seg).Some?
    ensures var w, d := EditLeaf(doc, seg, Overwrite(v)), EditLeaf(doc, seg, Delete);
            && w.Success? && d.Success?
            && EditLeaf(d.value, seg, Insert(v)).Success?
            && ValuesEqual(w.value, EditLeaf(d.value, seg, Insert(v)).value)
  {
    hide ValuesEqual;
    if doc.Obj? {
      FieldOverwrite(doc.fields, seg, v);
    } else {
      var xs := doc.items;
      var i := ParseArrayIndex(seg, false).value.value;
      assert seg != "-";
      assert ParseArrayIndex(seg, true) == ParseArrayIndex(seg, false);
      var ys := xs[..i] + xs[i + 1..];
      assert ys[..i] + [v] + ys[i..] == xs[i := v];
      assert i == |ys| ==> ys + [v] == xs[i := v];
      EqualReflexive(Arr(xs[i := v]));
    }
  }

  lemma {:induction false} WithChildEqual(doc: JSON, seg: string, c: JSON, d: JSON)
    requires WF(doc) && Child(doc, seg).Some? && ValuesEqual(c, d)
    ensures ValuesEqual(WithChild(doc, seg, c), WithChild(doc, seg, d))
  {
    if doc.Obj? {
      var fs := doc.fields;
      DistinctSet(fs, seg, c);
      DistinctSet(fs, seg, d);
      forall k ensures SlotsEqual(Lookup(SetField(fs, seg, c), k), Lookup(SetField(fs, seg, d), k)) {
        LookupSet(fs, seg, c, k);
        LookupSet(fs, seg, d, k);
        if Lookup(fs, k).Some? { EqualReflexive(Lookup(fs, k).value); }
      }
      SameFieldsEqual(SetField(fs, seg, c), SetField(fs, seg, d));
    } else {
      forall i | 0 <= i < |doc.items| ensures ValuesEqual(doc.items[i], doc.items[i]) {
        EqualReflexive(doc.items[i]);
      }
    }
  }

  /** Below a present target, overwriting is a removal followed by an addition at the same place. */
  lemma {:induction false} OverwriteIsRemoveThenAdd(doc: JSON, segs: Path, v: JSON)
    requires segs != [] && WF(doc) && Get(Some(doc), segs).Success? && Get(Some(doc), segs).value.Some?
    ensures var w, d := Mutate(doc, segs, Overwrite(v)), Mutate(doc, segs, Delete);
            && w.Success? && d.Success?
            && Mutate(d.value, segs, Insert(v)).Success?
            && ValuesEqual(w.value, Mutate(d.value, segs, Insert(v)).value)
    decreases |segs|
  {
    var seg := segs[0];
    if |segs| == 1 {
      LeafOverwrite(doc, seg, v);
    } else {
      GetDeeper(doc, segs);
      var c := Child(doc, seg).value;
      if doc.Obj? { LookupWF(doc.fields, seg); }
      OverwriteIsRemoveThenAdd(c, segs[1..], v);
      MutateDeeper(doc, segs, Overwrite(v));
      MutateDeeper(doc, segs, Delete);
      var w, d := Mutate(c, segs[1..], Overwrite(v)).value, Mutate(c, segs[1..], Delete).value;
      ChildOfWithChild(doc, seg, d);
      MutateDeeper(WithChild(doc, seg, d), segs, Insert(v));
      var r := Mutate(d, segs[1..], Insert(v)).value;
      WithChildTwice(doc, seg, d, r);
      WithChildEqual(doc, seg, w, r);
    }
  }
}
