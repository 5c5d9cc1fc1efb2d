/** Typed patches: normalise, diff, check locally, send. */
module Collection {
  import opened Wrappers
  import opened Text
  import opened Pointer
  import opened Value
  import opened Patch
  import opened Diff
  import opened RoundTrip
  import opened Replays
  import opened Schema
  import opened SchemaLaws
  import opened PatchCodec
  import PatchLaws

  /** `apply_patch` with an optional schema check at the end. */
  function ApplyChecked(document: JSON, ops: seq<PatchOp>, schema: Option<Entry>, sem: ReplaceMeaning): Result<JSON, Error> {
    var working :- ApplyPatch(document, ops, sem);
    if schema.None? then Success(working) else Normalize(working, schema.value)
  }

  /** Why no patch is made: nothing changed, or a step raised. */
  datatype Refusal = NoChanges | Raised(error: Error)

  /** `create_patch_from_changes`. */
  function CreatePatchFromChanges(original: JSON, current: JSON, schema: Entry): Result<seq<PatchOp>, Refusal> {
    var before, after := Normalize(original, schema), Normalize(current, schema);
    if before.Failure? then Failure(Raised(before.error))
    else if after.Failure? then Failure(Raised(after.error))
    else
      var ops := DiffOps(before.value, after.value);
      if ops == [] then Failure(NoChanges)
      else
        var checked := ApplyChecked(before.value, ops, Some(schema), AsCoded);
        if checked.Failure? then Failure(Raised(checked.error)) else Success(ops)
  }

  /** `create_patch`, for a patch that is already parsed. */
  function CreatePatch(original: JSON, ops: seq<PatchOp>, schema: Entry): Result<seq<PatchOp>, Error> {
    var checked :- ApplyChecked(original, ops, Some(schema), AsCoded);
    Success(ops)
  }

  // ----- the values a diff carries

  predicate ChangesWF(steps: seq<Step>) {
    forall i :: 0 <= i < |steps| ==> PatchLaws.ChangeWF(steps[i].change)
  }

  lemma {:induction false} UnderChanges(k: string, steps: seq<Step>)
    requires ChangesWF(steps)
    ensures ChangesWF(UnderAll(k, steps))
  {
    if steps != [] { UnderChanges(k, steps[1..]); }
  }

  lemma {:induction false} RemovalsWF(keys: seq<string>)
    ensures ChangesWF(RemoveKeySteps(keys))
  {
    if keys != [] { RemovalsWF(keys[1..]); }
  }

  lemma {:induction false} TailWF(n: nat, from: nat)
    ensures ChangesWF(RemoveTailSteps(n, from))
  {
    if n > from { TailWF(n - 1, from); }
  }

  lemma {:induction false} AddTailWF(ys: seq<JSON>, i: nat)
    requires forall j :: 0 <= j < |ys| ==> WF(ys[j])
    ensures ChangesWF(AddTailSteps(ys, i))
    decreases |ys| - i
  {
    if i < |ys| { AddTailWF(ys, i + 1); }
  }

  lemma {:induction false} FieldChanges(b: JSON, a: JSON, j: nat)
    requires b.Obj? && a.Obj? && WF(a) && j <= |a.fields|
    ensures ChangesWF(FieldSteps(b, a, j))
    decreases a, |a.fields| - j
  {
    if j < |a.fields| {
      FieldChanges(b, a, j + 1);
      var g := a.fields[j];
      if g.key in Dict(b.fields) {
        DiffChanges(Dict(b.fields)[g.key], g.value);
        UnderChanges(g.key, DiffSteps(Dict(b.fields)[g.key], g.value));
      }
    }
  }

  lemma {:induction false} ItemChanges(b: JSON, a: JSON, i: nat)
    requires b.Arr? && a.Arr? && WF(a) && i <= Min(|b.items|, |a.items|)
    ensures ChangesWF(ItemSteps(b, a, i))
    decreases a, |a.items| - i
  {
    if i < Min(|b.items|, |a.items|) {
      ItemChanges(b, a, i + 1);
      DiffChanges(b.items[i], a.items[i]);
      UnderChanges(Decimal(i), DiffSteps(b.items[i], a.items[i]));
    }
  }

  lemma {:induction false} DiffChanges(b: JSON, a: JSON)
    requires WF(a)
    ensures ChangesWF(DiffSteps(b, a))
    decreases a
  {
    if !ValuesEqual(b, a) {
      if b.Obj? && a.Obj? {
        FieldChanges(b, a, 0);
        RemovalsWF(DroppedKeys(b.fields, a.fields));
      } else if b.Arr? && a.Arr? {
        ItemChanges(b, a, 0);
        TailWF(|b.items|, Min(|b.items|, |a.items|));
        AddTailWF(a.items, Min(|b.items|, |a.items|));
      }
    }
  }

  lemma {:induction false} PatchedWF(b: JSON, a: JSON, sem: ReplaceMeaning)
    requires WF(b) && WF(a)
    ensures var r := ApplyPatch(b, DiffOps(b, a), sem); r.Success? ==> WF(r.value)
  {
    DiffChanges(b, a);
    PatchLaws.StepsWF(Some(b), DiffSteps(b, a), sem);
    EmittedMeaning(Some(b), DiffSteps(b, a), sem);
  }

  // ----- what create_patch_from_changes promises

  /** The coded applier reaches the new value if and only if no shared array index that the diff
      reaches holds an unequal pair of scalars or of different kinds. */
  lemma {:induction false} CodedExact(before: JSON, after: JSON)
    requires WF(before) && WF(after)
    ensures var r := ApplyPatch(before, DiffOps(before, after), AsCoded);
            r.Success? && ValuesEqual(r.value, after) <==> CodedSafe(before, after)
  {
    hide CodedSafe, DiffOps, ApplyPatch, ValuesEqual, LenClash;
    CodedRoundTrip(before, after);
    PatchedWF(before, after, AsCoded);
    var r := ApplyPatch(before, DiffOps(before, after), AsCoded);
    if r.Success? && LenClash(r.value, after) {
      ClashUnequal(r.value, after);
    }
  }

  predicate Usable(schema: Entry) {
    WFEntry(schema) && DefaultsWF(schema)
  }

  lemma {:induction false} NormalizedPair(original: JSON, current: JSON, schema: Entry)
    requires Usable(schema) && WF(original) && WF(current)
    requires Normalize(original, schema).Success? && Normalize(current, schema).Success?
    ensures WF(Normalize(original, schema).value) && WF(Normalize(current, schema).value)
    ensures Normalize(Normalize(current, schema).value, schema) == Normalize(current, schema)
  {
    Idempotent(original, schema);
    Idempotent(current, schema);
  }

  /** The schema check of a patched value agrees with the value the edit normalised to. */
  lemma {:induction false} CheckedResult(r: JSON, after: JSON, schema: Entry)
    requires Usable(schema) && WF(r) && WF(after) && Normalize(after, schema) == Success(after)
    ensures ValuesEqual(r, after) ==> Normalize(r, schema).Success? && ValuesEqual(Normalize(r, schema).value, after)
    ensures LenClash(r, after) && Normalize(r, schema).Success? ==> LenClash(Normalize(r, schema).value, after)
  {
    if ValuesEqual(r, after) { Congruence(r, after, schema); }
    if LenClash(r, after) && Normalize(r, schema).Success? { ClashSurvives(r, after, schema); }
  }

  /** The local check accepts a legitimate change exactly as far as the coded applier can
      replay it: with no `replace` at a shared array index the check succeeds on the edit's
      own normal form; otherwise it fails or looks at an array of a wrong length. */
  lemma {:induction false} LocalCheck(original: JSON, current: JSON, schema: Entry)
    requires Usable(schema) && WF(original) && WF(current)
    requires Normalize(original, schema).Success? && Normalize(current, schema).Success?
    ensures var before, after := Normalize(original, schema).value, Normalize(current, schema).value;
            var checked := ApplyChecked(before, DiffOps(before, after), Some(schema), AsCoded);
            && (CodedSafe(before, after) ==> checked.Success? && ValuesEqual(checked.value, after))
            && (!CodedSafe(before, after) ==> checked.Failure? || LenClash(checked.value, after))
  {
    var before, after := Normalize(original, schema).value, Normalize(current, schema).value;
    NormalizedPair(original, current, schema);
    CodedRoundTrip(before, after);
    PatchedWF(before, after, AsCoded);
    var r := ApplyPatch(before, DiffOps(before, after), AsCoded);
    if r.Success? {
      CheckedResult(r.value, after, schema);
    }
  }

  /** The locally checked document is the normalised edit if and only if the pair is safe. */
  lemma {:induction false} LocalCheckExact(original: JSON, current: JSON, schema: Entry)
    requires Usable(schema) && WF(original) && WF(current)
    requires Normalize(original, schema).Success? && Normalize(current, schema).Success?
    ensures var before, after := Normalize(original, schema).value, Normalize(current, schema).value;
            var checked := ApplyChecked(before, DiffOps(before, after), Some(schema), AsCoded);
            checked.Success? && ValuesEqual(checked.value, after) <==> CodedSafe(before, after)
  {
    hide CodedSafe, DiffOps, ApplyPatch, ValuesEqual, LenClash, Normalize;
    var before, after := Normalize(original, schema).value, Normalize(current, schema).value;
    NormalizedPair(original, current, schema);
    LocalCheck(original, current, schema);
    PatchedWF(before, after, AsCoded);
    var r := ApplyPatch(before, DiffOps(before, after), AsCoded);
    if r.Success? && Normalize(r.value, schema).Success? {
      var checked := Normalize(r.value, schema).value;
      NormalizedWF(r.value, schema);
      if LenClash(checked, after) {
        ClashUnequal(checked, after);
      }
    }
  }

  /** The diff of two values fits a document, and the schema takes what the coded applier makes of it. */
  predicate Accepts(document: JSON, before: JSON, after: JSON, schema: Entry) {
    var r := Replay(document, before, after);
    r.Some? && Normalize(r.value, schema).Success?
  }

  /** When an edit is refused as empty, exactly when it yields a patch, and that the only patch it
      can yield is the diff of the two normal forms; a safe edit always yields it. */
  lemma {:induction false} PatchFromChanges(original: JSON, current: JSON, schema: Entry)
    requires Usable(schema) && WF(original) && WF(current)
    requires Normalize(original, schema).Success? && Normalize(current, schema).Success?
    ensures var before, after := Normalize(original, schema).value, Normalize(current, schema).value;
            var r := CreatePatchFromChanges(original, current, schema);
            && (r == Failure(NoChanges) <==> ValuesEqual(before, after))
            && (r.Success? <==> !ValuesEqual(before, after) && Accepts(before, before, after, schema))
            && (CodedSafe(before, after) ==> Accepts(before, before, after, schema))
            && (r.Success? ==> r.value == DiffOps(before, after))
  {
    var before, after := Normalize(original, schema).value, Normalize(current, schema).value;
    hide CodedSafe, DiffOps, ApplyPatch, ValuesEqual, LenClash, Normalize, Replay;
    NormalizedPair(original, current, schema);
    EmptyIffEqual(before, after);
    LocalCheck(original, current, schema);
    ReplayPatch(before, before, after);
  }

  /** Content that the schema does not take yields no patch: the error is that of the original, else
      of the edit. */
  lemma {:induction false} UnacceptedContent(original: JSON, current: JSON, schema: Entry)
    ensures CreatePatchFromChanges(original, current, schema).Success? ==>
              Normalize(original, schema).Success? && Normalize(current, schema).Success?
    ensures Normalize(original, schema).Failure? ==>
              CreatePatchFromChanges(original, current, schema) == Failure(Raised(Normalize(original, schema).error))
    ensures Normalize(original, schema).Success? && Normalize(current, schema).Failure? ==>
              CreatePatchFromChanges(original, current, schema) == Failure(Raised(Normalize(current, schema).error))
  {
    hide Normalize;
  }

  /** An explicit patch is taken unchanged exactly when it applies to the original, as coded, and the
      schema takes what it makes. */
  lemma {:induction false} ExplicitPatchIff(original: JSON, ops: seq<PatchOp>, schema: Entry)
    ensures CreatePatch(original, ops, schema) == Success(ops) <==>
              var r := ApplyPatch(original, ops, AsCoded); r.Success? && Normalize(r.value, schema).Success?
    ensures CreatePatch(original, ops, schema).Success? ==> CreatePatch(original, ops, schema) == Success(ops)
  {
    hide Normalize, ApplyPatch;
  }

  /** Beyond that condition the local check can refuse a change that both schema and server allow:
      [true, []] to [false, [true]] is normal on both sides, and the first replacement, inserted
      instead, shifts the scalar under the path of the second operation. */
  lemma {:induction false} LegitimateEditRefused(schema: Entry)
    requires schema.kind.ArrayKind? && schema.items.None?
    ensures var before, after := Arr([Bool(true), Arr([])]), Arr([Bool(false), Arr([Bool(true)])]);
            && Normalize(before, schema) == Success(before) && Normalize(after, schema) == Success(after)
            && !CodedSafe(before, after)
            && CreatePatchFromChanges(before, after, schema) == Failure(Raised(PatchErr))
  {
    var before, after := Arr([Bool(true), Arr([])]), Arr([Bool(false), Arr([Bool(true)])]);
    RefusedSteps(before, after);
    var s1, s2 := Step([Decimal(0)], ReplaceValue(Bool(false))), Step([Decimal(1), Decimal(0)], AddValue(Bool(true)));
    RefusedRun(before, s1, s2);
    hide DiffSteps, ApplySteps, Decimal, ApplyOps;
    EmittedMeaning(Some(before), [s1, s2], AsCoded);
    assert EmitAll([], [s1, s2]) != [];
  }

  lemma {:induction false} RefusedSteps(before: JSON, after: JSON)
    requires before == Arr([Bool(true), Arr([])]) && after == Arr([Bool(false), Arr([Bool(true)])])
    ensures !CodedSafe(before, after)
    ensures DiffSteps(before, after)
            == [Step([Decimal(0)], ReplaceValue(Bool(false))), Step([Decimal(1), Decimal(0)], AddValue(Bool(true)))]
  {
    hide Decimal;
    assert before.items[0] == Bool(true) && after.items[0] == Bool(false) && !Descends(before.items[0], after.items[0]);
    var inner, grown := Arr([]), Arr([Bool(true)]);
    assert before.items[1] == inner && after.items[1] == grown;
    assert AddTailSteps(grown.items, 1) == [] && RemoveTailSteps(0, 0) == [];
    var add := Step([Decimal(0)], AddValue(Bool(true)));
    assert DiffSteps(inner, grown) == [add];
    var replace := Step([], ReplaceValue(Bool(false)));
    assert DiffSteps(before.items[0], after.items[0]) == [replace];
    assert [add][1..] == [] && [replace][1..] == [];
    assert UnderAll(Decimal(1), [add]) == [Under(Decimal(1), add)];
    assert UnderAll(Decimal(0), [replace]) == [Under(Decimal(0), replace)];
    assert [Decimal(0)] + [] == [Decimal(0)] && [Decimal(1)] + [Decimal(0)] == [Decimal(1), Decimal(0)];
    assert ItemSteps(before, after, 2) == [] && AddTailSteps(after.items, 2) == [] && RemoveTailSteps(2, 2) == [];
    assert ItemSteps(before, after, 1) == [Under(Decimal(1), add)];
  }

  lemma {:induction false} RefusedRun(before: JSON, s1: Step, s2: Step)
    requires before == Arr([Bool(true), Arr([])])
    requires s1 == Step([Decimal(0)], ReplaceValue(Bool(false)))
    requires s2 == Step([Decimal(1), Decimal(0)], AddValue(Bool(true)))
    ensures ApplySteps(Some(before), [s1, s2], AsCoded) == Failure(PatchErr)
  {
    hide Decimal;
    IndexRoundTrip(0, false);
    IndexRoundTrip(0, true);
    IndexRoundTrip(1, false);
    var xs := before.items;
    assert xs[..0] + [Bool(false)] + xs[0..] == [Bool(false), Bool(true), Arr([])];
    var next := Arr([Bool(false), Bool(true), Arr([])]);
    assert ApplyStep(Some(before), s1, AsCoded) == Success(Some(next));
    assert next.items[1] == Bool(true) && s2.segs[1..] == [Decimal(0)];
    assert ApplyStep(Some(next), s2, AsCoded) == Failure(PatchErr);
    assert [s1, s2][1..] == [s2] && [s2][0] == s2;
  }

  /** A diff carries a value wherever one is needed, so it can always be sent. */
  lemma {:induction false} EmittedWritable(prefix: Path, steps: seq<Step>)
    ensures ToJson(EmitAll(prefix, steps)).Success?
  {
    if steps != [] {
      EmittedWritable(prefix, steps[1..]);
      assert EmitAll(prefix, steps)[1..] == EmitAll(prefix, steps[1..]);
    }
  }

  /** End to end: whenever an edit yields a patch, the JSON sent for it parses back to the same
      operations, and a server that holds the normalised original and gives `replace` its
      RFC 6902 meaning ends up with a document equal to the normalised edit, which its schema
      check accepts. */
  lemma {:induction false} SentPatchLands(original: JSON, current: JSON, schema: Entry)
    requires Usable(schema) && WF(original) && WF(current)
    requires CreatePatchFromChanges(original, current, schema).Success?
    ensures var before, after := Normalize(original, schema).value, Normalize(current, schema).value;
            var ops := CreatePatchFromChanges(original, current, schema).value;
            var sent := ToJson(ops);
            var landed := ApplyChecked(before, ops, Some(schema), Rfc);
            && sent.Success? && ParsePatch(Arr(sent.value)) == Success(ops)
            && landed.Success? && ValuesEqual(landed.value, after)
  {
    var before, after := Normalize(original, schema).value, Normalize(current, schema).value;
    NormalizedPair(original, current, schema);
    EmittedWritable([], DiffSteps(before, after));
    ParseToJson(DiffOps(before, after));
    RfcRoundTrip(before, after);
    PatchedWF(before, after, Rfc);
    CheckedResult(ApplyPatch(before, DiffOps(before, after), Rfc).value, after, schema);
  }

  /** `create_patch` with the operations that an edit yields, on any original: accepted exactly
      when the diff of the normal forms fits the original as it stands, hence always when the
      original is in normal form. */
  lemma {:induction false} ExplicitPatchAgrees(original: JSON, current: JSON, schema: Entry)
    requires Usable(schema) && WF(original) && WF(current)
    requires CreatePatchFromChanges(original, current, schema).Success?
    ensures var before, after := Normalize(original, schema).value, Normalize(current, schema).value;
            var ops := CreatePatchFromChanges(original, current, schema).value;
            && (CreatePatch(original, ops, schema).Success? <==> Accepts(original, before, after, schema))
            && (CreatePatch(original, ops, schema).Success? ==> CreatePatch(original, ops, schema) == Success(ops))
            && (Conforms(original, schema) ==> Accepts(original, before, after, schema))
  {
    var before, after := Normalize(original, schema).value, Normalize(current, schema).value;
    if Conforms(original, schema) { ConformingFixed(original, schema); }
    hide CodedSafe, DiffOps, ApplyPatch, ValuesEqual, LenClash, Normalize, Replay, Conforms;
    NormalizedPair(original, current, schema);
    PatchFromChanges(original, current, schema);
    ReplayPatch(original, before, after);
  }

  /** An original that lacks a field with a default: the edit of that field yields a patch that
      `create_patch` refuses on the same original, because the operation finds no target. */
  lemma {:induction false} DefaultedFieldRefused(schema: Entry, child: Entry)
    requires schema.kind.ObjectKind? && schema.children == [child]
    requires child.kind.BooleanKind? && child.name == "d" && child.default == Some(Bool(true)) && child.items.None?
             && child.children == [] && schema.items.None?
    ensures var original, current := Obj([]), Obj([Field("d", Bool(false))]);
            var made := CreatePatchFromChanges(original, current, schema);
            made.Success? && CreatePatch(original, made.value, schema).Failure?
  {
    var original, current := Obj([]), Obj([Field("d", Bool(false))]);
    var before := Obj([Field("d", Bool(true))]);
    DefaultedForms(schema, child);
    DefaultedReplays();
    assert !ValuesEqual(before, current);
    hide Normalize, Replay, ValuesEqual, DiffOps, ApplyPatch;
    EmptyIffEqual(before, current);
    ReplayPatch(before, before, current);
    ReplayPatch(original, before, current);
  }

  lemma {:induction false} DefaultedForms(schema: Entry, child: Entry)
    requires schema.kind.ObjectKind? && schema.children == [child]
    requires child.kind.BooleanKind? && child.name == "d" && child.default == Some(Bool(true))
    ensures Normalize(Obj([]), schema) == Success(Obj([Field("d", Bool(true))]))
    ensures Normalize(Obj([Field("d", Bool(false))]), schema) == Success(Obj([Field("d", Bool(false))]))
  {
    assert schema.children[0] == child && IsChildName(schema, "d");
    var f := Field("d", Bool(false));
    assert Dict([]) == map[] && Dict([f]) == map["d" := Bool(false)];
    assert ChildSlot(None, child) == Success(Some(Bool(true))) && ChildSlot(Some(f.value), child) == Success(Some(f.value));
    assert Children(Dict([]), schema, 0, []) == Success([Field("d", Bool(true))]);
    assert Children(Dict([f]), schema, 0, []) == Success([f]);
    assert Unknowns([f], [f], schema) == [f];
  }

  lemma {:induction false} DefaultedReplays()
    ensures var before, after := Obj([Field("d", Bool(true))]), Obj([Field("d", Bool(false))]);
            && Replay(Obj([]), before, after) == None
            && Replay(before, before, after) == Some(after)
            && WF(before) && WF(after)
  {
    var before, after := Obj([Field("d", Bool(true))]), Obj([Field("d", Bool(false))]);
    assert !ValuesEqual(Bool(true), Bool(false));
    assert Lookup(before.fields, "d") == Some(Bool(true)) && Lookup([], "d") == None;
    assert !ValuesEqual(before, after) by { ObjectsEqualIff(before.fields, after.fields); assert !SlotsEqual(Lookup(before.fields, "d"), Lookup(after.fields, "d")); }
    assert SetField(before.fields, "d", Bool(false)) == after.fields;
    assert ChildReplay(Obj([]), "d", Bool(true), Bool(false)) == None;
    assert ChildReplay(before, "d", Bool(true), Bool(false)) == Some(after);
    assert Fields(before, before, after, 0) == Some(after) && Fields(Obj([]), before, after, 0) == None;
    NoneDropped(before.fields, after.fields);
  }

  lemma {:induction false} NoneDropped(fs: seq<Field>, gs: seq<Field>)
    requires Distinct(gs) && forall k :: Lookup(fs, k).Some? ==> Lookup(gs, k).Some?
    ensures DroppedKeys(fs, gs) == []
  {
    if DroppedKeys(fs, gs) != [] {
      DroppedIff(fs, gs, DroppedKeys(fs, gs)[0]);
    }
  }
}
