/** The structural diff of two values, as patch steps. */
module Diff {
  import opened Text
  import opened Pointer
  import opened Value
  import opened Patch

  function Min(a: nat, b: nat): nat {
    if a < b then a else b
  }

  /** The keys of a field list, each once. */
  function KeysOf(fs: seq<Field>): seq<string> {
    if fs == [] then []
    else if Lookup(fs[1..], fs[0].key).Some? then KeysOf(fs[1..])
    else [fs[0].key] + KeysOf(fs[1..])
  }

  function Without(keys: seq<string>, gs: seq<Field>): seq<string> {
    if keys == [] then []
    else if keys[0] in Dict(gs) then Without(keys[1..], gs)
    else [keys[0]] + Without(keys[1..], gs)
  }

  /** `sorted(set(before_map) - set(after_map))`. */
  function DroppedKeys(fs: seq<Field>, gs: seq<Field>): seq<string> {
    Sort(Without(KeysOf(fs), gs))
  }

  function RemoveKeySteps(keys: seq<string>): seq<Step> {
    if keys == [] then [] else [Step([keys[0]], RemoveValue)] + RemoveKeySteps(keys[1..])
  }

  /** Removals of the indexes n - 1 down to `from`. */
  function RemoveTailSteps(n: nat, from: nat): seq<Step>
    decreases n
  {
    if n <= from then [] else [Step([Decimal(n - 1)], RemoveValue)] + RemoveTailSteps(n - 1, from)
  }

  /** Additions of the elements i and up, in order. */
  function AddTailSteps(ys: seq<JSON>, i: nat): seq<Step>
    decreases |ys| - i
  {
    if i >= |ys| then [] else [Step([Decimal(i)], AddValue(ys[i]))] + AddTailSteps(ys, i + 1)
  }

  /** `_diff_into` for two values, with paths relative to them. */
  function DiffSteps(before: JSON, after: JSON): seq<Step>
    decreases after
  {
    if ValuesEqual(before, after) then []
    else if before.Obj? && after.Obj? then
      FieldSteps(before, after, 0) + RemoveKeySteps(DroppedKeys(before.fields, after.fields))
    else if before.Arr? && after.Arr? then
      ItemSteps(before, after, 0)
      + (RemoveTailSteps(|before.items|, Min(|before.items|, |after.items|))
         + AddTailSteps(after.items, Min(|before.items|, |after.items|)))
    else [Step([], ReplaceValue(after))]
  }

  /** The steps for the fields j and up of the new object. */
  function FieldSteps(before: JSON, after: JSON, j: nat): seq<Step>
    requires before.Obj? && after.Obj? && j <= |after.fields|
    decreases after, |after.fields| - j
  {
    if j == |after.fields| then []
    else FieldStep(before, after, j) + FieldSteps(before, after, j + 1)
  }

  function FieldStep(before: JSON, after: JSON, j: nat): seq<Step>
    requires before.Obj? && after.Obj? && j < |after.fields|
    decreases after, 0
  {
    var g := after.fields[j];
    var was := Dict(before.fields);
    if g.key in was then UnderAll(g.key, DiffSteps(was[g.key], g.value))
    else [Step([g.key], AddValue(g.value))]
  }

  /** The steps for the shared indexes i and up of two arrays. */
  function ItemSteps(before: JSON, after: JSON, i: nat): seq<Step>
    requires before.Arr? && after.Arr? && i <= Min(|before.items|, |after.items|)
    decreases after, |after.items| - i
  {
    if i == Min(|before.items|, |after.items|) then []
    else UnderAll(Decimal(i), DiffSteps(before.items[i], after.items[i])) + ItemSteps(before, after, i + 1)
  }

  /** `diff` without a schema: the operations with their pointers. */
  function DiffOps(before: JSON, after: JSON): seq<PatchOp> {
    EmitAll([], DiffSteps(before, after))
  }

  // ----- the diff is empty exactly on equal values

  lemma {:induction false} UnderAllLength(k: string, steps: seq<Step>)
    ensures |UnderAll(k, steps)| == |steps|
  {
    if steps != [] { UnderAllLength(k, steps[1..]); }
  }

  lemma {:induction false} EmitAllLength(p: Path, steps: seq<Step>)
    ensures |EmitAll(p, steps)| == |steps|
  {
    if steps != [] { EmitAllLength(p, steps[1..]); }
  }

  lemma {:induction false} EmptyFieldSteps(before: JSON, after: JSON, j: nat)
    requires before.Obj? && after.Obj? && j <= |after.fields| && FieldSteps(before, after, j) == []
    ensures forall i :: j <= i < |after.fields| ==> FieldStep(before, after, i) == []
    decreases |after.fields| - j
  {
    if j < |after.fields| {
      EmptyFieldSteps(before, after, j + 1);
    }
  }

  lemma {:induction false} EmptyItemSteps(before: JSON, after: JSON, j: nat)
    requires before.Arr? && after.Arr? && j <= Min(|before.items|, |after.items|)
    requires ItemSteps(before, after, j) == []
    ensures forall i :: j <= i < Min(|before.items|, |after.items|) ==> DiffSteps(before.items[i], after.items[i]) == []
    decreases |after.items| - j
  {
    if j < Min(|before.items|, |after.items|) {
      EmptyItemSteps(before, after, j + 1);
      UnderAllLength(Decimal(j), DiffSteps(before.items[j], after.items[j]));
    }
  }

  lemma {:induction false} KeyDropped(keys: seq<string>, gs: seq<Field>, k: string)
    ensures k in Without(keys, gs) <==> k in keys && k !in Dict(gs)
  {
    if keys != [] {
      KeyDropped(keys[1..], gs, k);
    }
  }

  lemma {:induction false} KeysOfLookup(fs: seq<Field>, k: string)
    ensures k in KeysOf(fs) <==> Lookup(fs, k).Some?
  {
    if fs != [] {
      KeysOfLookup(fs[1..], k);
    }
  }

  lemma {:induction false} DroppedIff(fs: seq<Field>, gs: seq<Field>, k: string)
    requires Distinct(gs)
    ensures k in DroppedKeys(fs, gs) <==> Lookup(fs, k).Some? && Lookup(gs, k).None?
  {
    var keys := Without(KeysOf(fs), gs);
    KeyDropped(KeysOf(fs), gs, k);
    KeysOfLookup(fs, k);
    DictLookup(gs, k);
    assert k in Sort(keys) <==> k in multiset(Sort(keys));
  }

  /** Keys are removed in their code point order. */
  lemma {:induction false} DroppedSorted(fs: seq<Field>, gs: seq<Field>)
    ensures Sorted(DroppedKeys(fs, gs))
  {
    SortSorted(Without(KeysOf(fs), gs));
  }

  lemma {:induction false} EmptyDiff(before: JSON, after: JSON)
    requires WF(before) && WF(after) && DiffSteps(before, after) == []
    ensures ValuesEqual(before, after)
    decreases after
  {
    if before.Obj? && after.Obj? && !ValuesEqual(before, after) {
      EmptyDiffFields(before, after);
    } else if before.Arr? && after.Arr? && !ValuesEqual(before, after) {
      var n, m := |before.items|, |after.items|;
      assert RemoveTailSteps(n, Min(n, m)) == [] && AddTailSteps(after.items, Min(n, m)) == [];
      assert n == m;
      EmptyItemSteps(before, after, 0);
      forall i | 0 <= i < n ensures ValuesEqual(before.items[i], after.items[i]) {
        EmptyDiff(before.items[i], after.items[i]);
      }
    }
  }

  lemma {:induction false} EmptyDiffFields(before: JSON, after: JSON)
    requires WF(before) && WF(after) && before.Obj? && after.Obj?
    requires FieldSteps(before, after, 0) == [] && RemoveKeySteps(DroppedKeys(before.fields, after.fields)) == []
    ensures ValuesEqual(before, after)
    decreases after, 0
  {
    var fs, gs := before.fields, after.fields;
    EmptyFieldSteps(before, after, 0);
    forall k ensures SlotsEqual(Lookup(fs, k), Lookup(gs, k)) {
      DroppedIff(fs, gs, k);
      DictLookup(fs, k);
      if Lookup(gs, k).Some? {
        var j :| 0 <= j < |gs| && gs[j] == Field(k, Lookup(gs, k).value);
        assert FieldStep(before, after, j) == [];
        assert k in Dict(fs);
        var was := Dict(fs)[k];
        UnderAllLength(k, DiffSteps(was, gs[j].value));
        var i :| 0 <= i < |fs| && fs[i] == Field(k, was);
        EmptyDiff(was, gs[j].value);
      }
    }
    SameFieldsEqual(fs, gs);
  }

  /** `diff(before, after)` is empty exactly when the values are equal. */
  lemma {:induction false} EmptyIffEqual(before: JSON, after: JSON)
    requires WF(before) && WF(after)
    ensures DiffOps(before, after) == [] <==> ValuesEqual(before, after)
  {
    EmitAllLength([], DiffSteps(before, after));
    if DiffSteps(before, after) == [] {
      EmptyDiff(before, after);
    }
  }
}
