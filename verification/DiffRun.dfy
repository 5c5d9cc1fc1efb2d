/** `_diff_into` as it runs: recursive calls append to one shared operation list. */
module DiffRun {
  import opened Wrappers
  import opened Text
  import opened Pointer
  import opened Value
  import opened Patch
  import opened Diff
  import opened Schema
  import opened Nodes
  import opened NodePatch

  /** The shared `ops` list: what its operations stand for, and the nodes they hold. */
  class OpList {
    var ops: seq<NodeOp>
    ghost var views: seq<PatchOp>
    ghost var feet: set<object>

    ghost predicate Valid()
      reads this, feet
    {
      this !in feet && Hold(ops, views, feet)
    }

    constructor ()
      ensures Valid() && views == [] && feet == {}
    {
      ops, views, feet := [], [], {};
    }

    method Append(op: NodeOp, ghost view: PatchOp)
      requires Valid() && OkO(op.Value()) && OpView(op) == view && this !in FootO(op.Value())
      modifies this
      ensures Valid() && views == old(views) + [view] && feet == old(feet) + FootO(op.Value())
    {
      ops := ops + [op];
      views := views + [view];
      feet := feet + FootO(op.Value());
    }
  }

  /** Operations that stand for `views` and hold no node outside `feet`. */
  ghost predicate Hold(ops: seq<NodeOp>, views: seq<PatchOp>, feet: set<object>)
    reads feet
  {
    && |views| == |ops|
    && forall i :: 0 <= i < |ops| ==>
         RootO(ops[i].Value()) <= feet && FootO(ops[i].Value()) <= feet && OkO(ops[i].Value()) && OpView(ops[i]) == views[i]
  }

  /** The steps for a slot that may be Void on either side. */
  function SlotSteps(before: Option<JSON>, after: Option<JSON>): seq<Step> {
    if before.None? && after.None? then []
    else if before.None? then [Step([], AddValue(after.value))]
    else if after.None? then [Step([], RemoveValue)]
    else DiffSteps(before.value, after.value)
  }

  lemma {:induction false} EmitUnder(path: Path, k: string, steps: seq<Step>)
    ensures EmitAll(path + [k], steps) == EmitAll(path, UnderAll(k, steps))
  {
    if steps != [] {
      EmitUnder(path, k, steps[1..]);
      assert (path + [k]) + steps[0].segs == path + ([k] + steps[0].segs);
    }
  }

  lemma {:induction false} EmitAppend(path: Path, a: seq<Step>, b: seq<Step>)
    ensures EmitAll(path, a + b) == EmitAll(path, a) + EmitAll(path, b)
  {
    if a == [] {
      assert a + b == b;
    } else {
      assert (a + b)[1..] == a[1..] + b;
      EmitAppend(path, a[1..], b);
    }
  }

  lemma {:induction false} EmitOne(path: Path, k: string, change: Change)
    ensures EmitAll(path, [Step([k], change)]) == [Emit(path + [k], Step([], change))]
  {
    assert path + [k] + [] == path + [k];
    assert [Step([k], change)][1..] == [];
  }

  lemma {:induction false} SlotUnder(k: string, v: JSON)
    ensures UnderAll(k, [Step([], AddValue(v))]) == [Step([k], AddValue(v))]
  {
    assert [Step([], AddValue(v))][1..] == [];
    assert [k] + [] == [k];
  }

  lemma {:induction false} FieldStepSlot(before: JSON, after: JSON, j: nat)
    requires before.Obj? && after.Obj? && j < |after.fields|
    ensures var g := after.fields[j];
            FieldStep(before, after, j) == UnderAll(g.key, SlotSteps(Slot(Dict(before.fields), g.key), Some(g.value)))
  {
    SlotUnder(after.fields[j].key, after.fields[j].value);
  }

  /** The cases of `_diff_into`: Void on a side. */
  lemma {:induction false} SlotShape(path: Path, before: Option<JSON>, after: Option<JSON>)
    ensures before.None? && after.None? ==> SlotsEqual(before, after)
    ensures SlotsEqual(before, after) ==> EmitAll(path, SlotSteps(before, after)) == []
    ensures before.None? && after.Some? ==>
              EmitAll(path, SlotSteps(before, after)) == [Emit(path, Step([], AddValue(after.value)))]
    ensures before.Some? && after.None? ==> EmitAll(path, SlotSteps(before, after)) == [Emit(path, Step([], RemoveValue))]
  {
    hide ValuesEqual, Emit;
    var steps := SlotSteps(before, after);
    assert |steps| == 1 ==> steps[1..] == [];
  }

  /** The cases of `_diff_into`: two values. */
  lemma {:induction false} ValueShape(path: Path, b: JSON, a: JSON)
    requires !ValuesEqual(b, a)
    ensures b.Obj? && a.Obj? ==> DiffSteps(b, a) == FieldSteps(b, a, 0) + RemoveKeySteps(DroppedKeys(b.fields, a.fields))
    ensures b.Arr? && a.Arr? ==>
              var m := Min(|b.items|, |a.items|);
              DiffSteps(b, a) == ItemSteps(b, a, 0) + (RemoveTailSteps(|b.items|, m) + AddTailSteps(a.items, m))
    ensures !(b.Obj? && a.Obj?) && !(b.Arr? && a.Arr?) ==>
              EmitAll(path, DiffSteps(b, a)) == [Emit(path, Step([], ReplaceValue(a)))]
  {
    hide FieldSteps, ItemSteps, RemoveKeySteps, RemoveTailSteps, AddTailSteps, Emit;
    var steps := DiffSteps(b, a);
    assert |steps| == 1 ==> steps[1..] == [];
  }

  /** `_diff_into`: exactly the steps of the slot, under the path, after what was there; the
      values they carry are clones. No node of either side changes. */
  method DiffInto(before: Option<Ref>, after: Option<Ref>, path: Path, list: OpList)
    requires OkO(before) && OkO(after) && list.Valid() && list !in FootO(before) && list !in FootO(after)
    modifies list
    ensures list.Valid() && fresh(list.feet - old(list.feet))
    ensures list.views == old(list.views) + EmitAll(path, SlotSteps(old(ViewO(before)), old(ViewO(after))))
    decreases FootO(after), 3
  {
    hide SlotSteps, SlotsEqual, EmitAll, Emit;
    var x := LoadO(before);
    var y := LoadO(after);
    SlotShape(path, x, y);
    assert list.views + [] == list.views;
    if SlotsEqual(x, y) {
    } else if before.None? {
      AppendAddition(path, after.value, list);
    } else if after.None? {
      AppendRemoval(path, list);
    } else {
      BothPresent(x, y);
      DiffValues(before.value, after.value, x.value, y.value, path, list);
    }
  }

  lemma {:induction false} BothPresent(before: Option<JSON>, after: Option<JSON>)
    requires before.Some? && after.Some?
    ensures SlotSteps(before, after) == DiffSteps(before.value, after.value)
    ensures SlotsEqual(before, after) <==> ValuesEqual(before.value, after.value)
  {
  }

  method DiffValues(before: Ref, after: Ref, ghost b: JSON, ghost a: JSON, path: Path, list: OpList)
    requires Ok(before) && Ok(after) && View(before) == b && View(after) == a && !ValuesEqual(b, a)
    requires list.Valid() && list !in Foot(before) && list !in Foot(after)
    modifies list
    ensures list.Valid() && fresh(list.feet - old(list.feet))
    ensures list.views == old(list.views) + EmitAll(path, DiffSteps(b, a))
    decreases Foot(after), 2
  {
    ValueShape(path, b, a);
    hide DiffSteps, EmitAll, Emit, ValuesEqual, FieldSteps, ItemSteps, RemoveKeySteps, RemoveTailSteps, AddTailSteps;
    if before.ObjRef? && after.ObjRef? {
      DiffFields(before.obj, after.obj, path, list);
    } else if before.ArrRef? && after.ArrRef? {
      DiffItems(before.arr, after.arr, path, list);
    } else {
      KindsAgree(before, after);
      AppendReplacement(path, after, list);
    }
  }

  lemma {:induction false} KindsAgree(before: Ref, after: Ref)
    requires Ok(before) && Ok(after)
    ensures View(before).Obj? <==> before.ObjRef?
    ensures View(before).Arr? <==> before.ArrRef?
    ensures View(after).Obj? <==> after.ObjRef?
    ensures View(after).Arr? <==> after.ArrRef?
  {
  }

  /** Text that a list grew by, in two parts. */
  lemma {:induction false} Grown(a: seq<PatchOp>, path: Path, first: seq<Step>, rest: seq<Step>)
    ensures a + EmitAll(path, first + rest) == (a + EmitAll(path, first)) + EmitAll(path, rest)
    ensures a + EmitAll(path, []) == a
  {
    EmitAppend(path, first, rest);
    assert (a + EmitAll(path, first)) + EmitAll(path, rest) == a + (EmitAll(path, first) + EmitAll(path, rest));
  }

  method DiffFields(b: JsonObject, a: JsonObject, path: Path, list: OpList)
    requires b.Valid() && a.Valid() && list.Valid() && list !in b.Repr && list !in a.Repr
    modifies list
    ensures list.Valid() && fresh(list.feet - old(list.feet))
    ensures list.views == old(list.views)
                          + EmitAll(path, FieldSteps(old(b.model), old(a.model), 0)
                                          + RemoveKeySteps(DroppedKeys(old(b.model.fields), old(a.model.fields))))
    decreases a.Repr, 1
  {
    hide EmitAll, DroppedKeys, SlotSteps, FieldStep, FieldSteps, UnderAll, Dict, RemoveKeySteps;
    ghost var bv, av := b.model, a.model;
    ghost var goal := list.views + EmitAll(path, FieldSteps(bv, av, 0));
    var beforeMap;
    ghost var at;
    beforeMap, at := b.AsDict();
    var j := 0;
    while j < |a.fields|
      invariant 0 <= j <= |a.fields|
      invariant b.Valid() && a.Valid() && b.model == bv && a.model == av && b.IsDict(beforeMap, at)
      invariant list.Valid() && fresh(list.feet - old(list.feet))
      invariant list.views + EmitAll(path, FieldSteps(bv, av, j)) == goal
    {
      DiffField(b, beforeMap, at, a, j, path, list);
      j := j + 1;
    }
    NoFields(bv, av);
    Grown(list.views, path, [], []);
    ghost var dropped := DroppedKeys(bv.fields, av.fields);
    Grown(old(list.views), path, FieldSteps(bv, av, 0), RemoveKeySteps(dropped));
    var keys := DroppedOf(b, a);
    RemoveKeys(keys, path, list);
  }

  lemma {:induction false} NoFields(b: JSON, a: JSON)
    requires b.Obj? && a.Obj?
    ensures FieldSteps(b, a, |a.fields|) == []
  {
  }

  method DiffField(b: JsonObject, m: map<string, Ref>, ghost at: map<string, nat>, a: JsonObject, j: nat, path: Path, list: OpList)
    requires b.Valid() && b.IsDict(m, at) && a.Valid() && j < |a.fields|
    requires list.Valid() && list !in b.Repr && list !in a.Repr
    modifies list
    ensures list.Valid() && fresh(list.feet - old(list.feet))
    ensures list.views + EmitAll(path, FieldSteps(old(b.model), old(a.model), j + 1))
            == old(list.views) + EmitAll(path, FieldSteps(old(b.model), old(a.model), j))
    decreases a.Repr, 0
  {
    hide EmitAll, SlotSteps, FieldStep, UnderAll, Dict, RemoveKeySteps;
    ghost var bv, av := b.model, a.model;
    var k := a.fields[j].key;
    var was := FromDict(b, m, at, k);
    FieldOk(a, j);
    assert ViewO(was) == Slot(Dict(bv.fields), k);
    FieldStepSlot(bv, av, j);
    EmitUnder(path, k, SlotSteps(ViewO(was), Some(av.fields[j].value)));
    Grown(list.views, path, FieldStep(bv, av, j), FieldSteps(bv, av, j + 1));
    DiffInto(was, Some(a.fields[j].value), path + [k], list);
  }

  /** `sorted(set(before_map) - set(after_map))`. */
  method DroppedOf(b: JsonObject, a: JsonObject) returns (keys: seq<string>)
    requires b.Valid() && a.Valid()
    ensures keys == DroppedKeys(b.model.fields, a.model.fields)
  {
    var before := Load(ObjRef(b));
    var after := Load(ObjRef(a));
    keys := DroppedKeys(before.fields, after.fields);
  }

  method RemoveKeys(keys: seq<string>, path: Path, list: OpList)
    requires list.Valid()
    modifies list
    ensures list.Valid() && list.feet == old(list.feet)
    ensures list.views == old(list.views) + EmitAll(path, RemoveKeySteps(keys))
  {
    hide EmitAll, FormatPointer;
    ghost var goal := list.views + EmitAll(path, RemoveKeySteps(keys));
    var i := 0;
    assert keys[0..] == keys;
    while i < |keys|
      invariant 0 <= i <= |keys| && list.Valid() && list.feet == old(list.feet)
      invariant list.views + EmitAll(path, RemoveKeySteps(keys[i..])) == goal
    {
      assert keys[i..][1..] == keys[i + 1..];
      Grown(list.views, path, [Step([keys[i]], RemoveValue)], RemoveKeySteps(keys[i + 1..]));
      EmitOne(path, keys[i], RemoveValue);
      AppendRemoval(path + [keys[i]], list);
      i := i + 1;
    }
    Grown(list.views, path, [], []);
  }

  method AppendRemoval(path: Path, list: OpList)
    requires list.Valid()
    modifies list
    ensures list.Valid() && list.feet == old(list.feet)
    ensures list.views == old(list.views) + [Emit(path, Step([], RemoveValue))]
  {
    hide FormatPointer;
    assert path + [] == path;
    list.Append(NodeOp.Remove(FormatPointer(path)), PatchOp.Remove(FormatPointer(path)));
  }

  method DiffItems(b: JsonArray, a: JsonArray, path: Path, list: OpList)
    requires b.Valid() && a.Valid() && list.Valid() && list !in b.Repr && list !in a.Repr
    modifies list
    ensures list.Valid() && fresh(list.feet - old(list.feet))
    ensures var bs, xs := old(b.model.items), old(a.model.items);
            var m := Min(|bs|, |xs|);
            list.views == old(list.views)
                          + EmitAll(path, ItemSteps(old(b.model), old(a.model), 0) + (RemoveTailSteps(|bs|, m) + AddTailSteps(xs, m)))
    decreases a.Repr, 1
  {
    hide EmitAll, ItemSteps, RemoveTailSteps, AddTailSteps, Decimal;
    ghost var bv, av := b.model, a.model;
    var n, m := |b.items|, Min(|b.items|, |a.items|);
    ghost var goal := list.views + EmitAll(path, ItemSteps(bv, av, 0));
    var i := 0;
    while i < m
      invariant 0 <= i <= m
      invariant b.Valid() && a.Valid() && b.model == bv && a.model == av
      invariant list.Valid() && fresh(list.feet - old(list.feet))
      invariant list.views + EmitAll(path, ItemSteps(bv, av, i)) == goal
    {
      DiffItem(b, a, i, path, list);
      i := i + 1;
    }
    NoItems(bv, av);
    Grown(list.views, path, [], []);
    ghost var rest := RemoveTailSteps(n, m) + AddTailSteps(av.items, m);
    Grown(old(list.views), path, ItemSteps(bv, av, 0), rest);
    Grown(list.views, path, RemoveTailSteps(n, m), AddTailSteps(av.items, m));
    RemoveTail(n, m, path, list);
    AddTail(a, m, path, list);
  }

  lemma {:induction false} NoItems(b: JSON, a: JSON)
    requires b.Arr? && a.Arr?
    ensures ItemSteps(b, a, Min(|b.items|, |a.items|)) == []
  {
  }

  method DiffItem(b: JsonArray, a: JsonArray, i: nat, path: Path, list: OpList)
    requires b.Valid() && a.Valid() && i < Min(|b.items|, |a.items|)
    requires list.Valid() && list !in b.Repr && list !in a.Repr
    modifies list
    ensures list.Valid() && fresh(list.feet - old(list.feet))
    ensures list.views + EmitAll(path, ItemSteps(old(b.model), old(a.model), i + 1))
            == old(list.views) + EmitAll(path, ItemSteps(old(b.model), old(a.model), i))
    decreases a.Repr, 0
  {
    hide EmitAll, UnderAll, DiffSteps, Decimal;
    ghost var bv, av := b.model, a.model;
    ItemOk(b, i);
    ItemOk(a, i);
    EmitUnder(path, Decimal(i), DiffSteps(bv.items[i], av.items[i]));
    Grown(list.views, path, UnderAll(Decimal(i), DiffSteps(bv.items[i], av.items[i])), ItemSteps(bv, av, i + 1));
    DiffInto(Some(b.items[i]), Some(a.items[i]), path + [Decimal(i)], list);
  }

  /** `range(n - 1, from - 1, -1)`. */
  method RemoveTail(n: nat, from: nat, path: Path, list: OpList)
    requires from <= n && list.Valid()
    modifies list
    ensures list.Valid() && list.feet == old(list.feet)
    ensures list.views == old(list.views) + EmitAll(path, RemoveTailSteps(n, from))
  {
    hide EmitAll, FormatPointer, Decimal;
    ghost var goal := list.views + EmitAll(path, RemoveTailSteps(n, from));
    var i := n;
    while i > from
      invariant from <= i <= n && list.Valid() && list.feet == old(list.feet)
      invariant list.views + EmitAll(path, RemoveTailSteps(i, from)) == goal
    {
      i := i - 1;
      Grown(list.views, path, [Step([Decimal(i)], RemoveValue)], RemoveTailSteps(i, from));
      EmitOne(path, Decimal(i), RemoveValue);
      AppendRemoval(path + [Decimal(i)], list);
    }
    Grown(list.views, path, [], []);
  }

  /** `range(from, len(after.items))`. */
  method AddTail(a: JsonArray, from: nat, path: Path, list: OpList)
    requires a.Valid() && from <= |a.items| && list.Valid() && list !in a.Repr
    modifies list
    ensures list.Valid() && fresh(list.feet - old(list.feet))
    ensures list.views == old(list.views) + EmitAll(path, AddTailSteps(old(a.model.items), from))
  {
    hide EmitAll, FormatPointer, Decimal;
    ghost var ys := a.model.items;
    ghost var goal := list.views + EmitAll(path, AddTailSteps(ys, from));
    var i := from;
    while i < |a.items|
      invariant from <= i <= |a.items| && a.Valid() && a.model == Arr(ys)
      invariant list.Valid() && fresh(list.feet - old(list.feet))
      invariant list.views + EmitAll(path, AddTailSteps(ys, i)) == goal
    {
      Grown(list.views, path, [Step([Decimal(i)], AddValue(ys[i]))], AddTailSteps(ys, i + 1));
      EmitOne(path, Decimal(i), AddValue(ys[i]));
      ItemOk(a, i);
      AppendAddition(path + [Decimal(i)], a.items[i], list);
      i := i + 1;
    }
    Grown(list.views, path, [], []);
  }

  method AppendAddition(path: Path, value: Ref, list: OpList)
    requires Ok(value) && list.Valid() && list !in Foot(value)
    modifies list
    ensures list.Valid() && fresh(list.feet - old(list.feet))
    ensures list.views == old(list.views) + [Emit(path, Step([], AddValue(old(View(value)))))]
  {
    hide FormatPointer;
    assert path + [] == path;
    var c := CloneRef(value);
    list.Append(NodeOp.Add(FormatPointer(path), Some(c)), PatchOp.Add(FormatPointer(path), Some(View(c))));
  }

  method AppendReplacement(path: Path, value: Ref, list: OpList)
    requires Ok(value) && list.Valid() && list !in Foot(value)
    modifies list
    ensures list.Valid() && fresh(list.feet - old(list.feet))
    ensures list.views == old(list.views) + [Emit(path, Step([], ReplaceValue(old(View(value)))))]
  {
    hide FormatPointer;
    assert path + [] == path;
    var c := CloneRef(value);
    list.Append(NodeOp.Replace(FormatPointer(path), Some(c)), PatchOp.Replace(FormatPointer(path), Some(View(c))));
  }

  /** `diff` without a schema: the operations of `DiffOps`, holding only new nodes. No `modifies`:
      neither value changes. */
  method RunDiff(before: Ref, after: Ref) returns (ops: seq<NodeOp>, ghost views: seq<PatchOp>, ghost feet: set<object>)
    requires Ok(before) && Ok(after)
    ensures views == DiffOps(View(before), View(after))
    ensures Hold(ops, views, feet) && fresh(feet)
  {
    hide DiffSteps, EmitAll;
    var list := new OpList();
    DiffInto(Some(before), Some(after), [], list);
    ops, views, feet := list.ops, list.views, list.feet;
  }
}
