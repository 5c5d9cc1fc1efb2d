/** What the coded applier makes of a diff, on any document: each operation acts below one child
    of one container, and a whole element put into an array moves the ones behind it. */
module Replays {
  import opened Wrappers
  import opened Text
  import opened Pointer
  import opened Value
  import opened Patch
  import opened Diff
  import opened PatchLaws
  import opened RoundTrip

  /** `x` with a value put at a key or index, None where that raises. */
  function Inserted(x: JSON, k: string, v: JSON): Option<JSON> {
    var r := EditLeaf(x, k, Insert(v));
    if r.Success? then Some(r.value) else None
  }

  function Deleted(x: JSON, k: string): Option<JSON> {
    var r := EditLeaf(x, k, Delete);
    if r.Success? then Some(r.value) else None
  }

  /** `x` after the diff of b and a was replayed on its child k. */
  function ChildReplay(x: JSON, k: string, b: JSON, a: JSON): Option<JSON>
    decreases a, 3, 0
  {
    if ValuesEqual(b, a) then Some(x)
    else if Child(x, k).None? then None
    else if SameContainer(b, a) then
      var c := Replay(Child(x, k).value, b, a);
      if c.None? then None else Some(WithChild(x, k, c.value))
    else Inserted(x, k, a)
  }

  /** `x` after the diff of b and a was replayed on it, None when an operation of it fails. */
  function Replay(x: JSON, b: JSON, a: JSON): Option<JSON>
    decreases a, 2, 0
  {
    if ValuesEqual(b, a) then Some(x)
    else if b.Obj? && a.Obj? then
      var y := Fields(x, b, a, 0);
      if y.None? then None else Removed(y.value, DroppedKeys(b.fields, a.fields))
    else if b.Arr? && a.Arr? then
      var m := Min(|b.items|, |a.items|);
      var y := Items(x, b, a, 0);
      var z := if y.None? then None else TailRemoved(y.value, |b.items|, m);
      if z.None? then None else TailAdded(z.value, a.items, m)
    else Some(a)
  }

  /** `x` after the step for one new field. */
  function FieldReplay(x: JSON, b: JSON, a: JSON, j: nat): Option<JSON>
    requires b.Obj? && a.Obj? && j < |a.fields|
    decreases a, 0, 0
  {
    var k, v := a.fields[j].key, a.fields[j].value;
    var was := Lookup(b.fields, k);
    if was.Some? then ChildReplay(x, k, was.value, v) else Inserted(x, k, v)
  }

  function Fields(x: JSON, b: JSON, a: JSON, j: nat): Option<JSON>
    requires b.Obj? && a.Obj? && j <= |a.fields|
    decreases a, 1, |a.fields| - j
  {
    if j == |a.fields| then Some(x)
    else
      var y := FieldReplay(x, b, a, j);
      if y.None? then None else Fields(y.value, b, a, j + 1)
  }

  function Items(x: JSON, b: JSON, a: JSON, i: nat): Option<JSON>
    requires b.Arr? && a.Arr? && i <= Min(|b.items|, |a.items|)
    decreases a, 1, |a.items| - i
  {
    if i == Min(|b.items|, |a.items|) then Some(x)
    else
      var y := ChildReplay(x, Decimal(i), b.items[i], a.items[i]);
      if y.None? then None else Items(y.value, b, a, i + 1)
  }

  function Removed(x: JSON, keys: seq<string>): Option<JSON>
    decreases |keys|
  {
    if keys == [] then Some(x)
    else
      var y := Deleted(x, keys[0]);
      if y.None? then None else Removed(y.value, keys[1..])
  }

  function TailRemoved(x: JSON, n: nat, from: nat): Option<JSON>
    decreases n
  {
    if n <= from then Some(x)
    else
      var y := Deleted(x, Decimal(n - 1));
      if y.None? then None else TailRemoved(y.value, n - 1, from)
  }

  function TailAdded(x: JSON, ys: seq<JSON>, i: nat): Option<JSON>
    decreases |ys| - i
  {
    if i >= |ys| then Some(x)
    else
      var y := Inserted(x, Decimal(i), ys[i]);
      if y.None? then None else TailAdded(y.value, ys, i + 1)
  }

  // ----- the steps of a diff do just that

  /** A run of steps succeeds exactly when there is a value, and then with that value. */
  predicate Gives(r: Result<Option<JSON>, Error>, v: Option<JSON>) {
    (r.Success? <==> v.Some?) && (r.Success? ==> r.value == v)
  }

  lemma {:induction false} LeafStep(x: JSON, k: string, v: JSON)
    ensures Gives(ApplyStep(Some(x), Step([k], AddValue(v)), AsCoded), Inserted(x, k, v))
    ensures Gives(ApplyStep(Some(x), Step([k], RemoveValue), AsCoded), Deleted(x, k))
  {
    assert Mutate(x, [k], Insert(v)) == EditLeaf(x, k, Insert(v));
    assert Mutate(x, [k], Delete) == EditLeaf(x, k, Delete);
    hide Mutate, EditLeaf;
  }

  lemma {:induction false} WholeStep(x: JSON, k: string, v: JSON)
    ensures Gives(ApplyStep(Some(x), Step([k], ReplaceValue(v)), AsCoded), if Child(x, k).None? then None else Inserted(x, k, v))
  {
    assert [k][1..] == [];
    assert Mutate(x, [k], Insert(v)) == EditLeaf(x, k, Insert(v));
    hide Mutate, EditLeaf;
    if Child(x, k).Some? {
      assert Get(Some(x), [k]) == Get(Child(x, k), []) == Success(Child(x, k));
    } else {
      assert x.Obj? ==> Get(Some(x), [k]) == Get(Lookup(x.fields, k), []) == Success(None);
      assert Get(Some(x), [k]).Failure? || Get(Some(x), [k]).value.None?;
    }
  }

  lemma {:induction false} DeeperStep(x: JSON, k: string, step: Step)
    requires step.segs != []
    ensures var c := Child(x, k);
            var r := ApplyStep(Some(x), Under(k, step), AsCoded);
            && (c.None? ==> r.Failure?)
            && (c.Some? ==>
                  var d := ApplyStep(c, step, AsCoded);
                  && (d.Success? ==> d.value.Some?)
                  && (r.Success? <==> d.Success?)
                  && (r.Success? ==> r.value == Some(WithChild(x, k, d.value.value))))
  {
    var segs := [k] + step.segs;
    assert segs[1..] == step.segs;
    match step.change {
      case AddValue(v) => MutateDeeper(x, segs, Insert(v));
      case RemoveValue => MutateDeeper(x, segs, Delete);
      case ReplaceValue(v) => MutateDeeper(x, segs, Insert(v));
    }
    if Child(x, k).Some? {
      GetDeeper(x, segs);
    }
  }

  /** Steps below one child: their effect on that child, put back in its place. */
  lemma {:induction false} DeeperSteps(x: JSON, k: string, steps: seq<Step>)
    requires Below(steps) && Child(x, k).Some?
    ensures var c := Child(x, k);
            var r := ApplySteps(Some(x), UnderAll(k, steps), AsCoded);
            var d := ApplySteps(c, steps, AsCoded);
            && (d.Success? ==> d.value.Some?)
            && (r.Success? <==> d.Success?)
            && (r.Success? ==> r.value == Some(WithChild(x, k, d.value.value)))
    decreases |steps|
  {
    hide ApplyStep, Under;
    var c := Child(x, k).value;
    if steps == [] {
      WithChildTwice(x, k, c, c) by { ChildOfWithChild(x, k, c); }
    } else {
      DeeperStep(x, k, steps[0]);
      assert UnderAll(k, steps)[1..] == UnderAll(k, steps[1..]);
      var d := ApplyStep(Some(c), steps[0], AsCoded);
      if d.Success? {
        var y := WithChild(x, k, d.value.value);
        ChildOfWithChild(x, k, d.value.value);
        DeeperSteps(y, k, steps[1..]);
        var e := ApplySteps(d.value, steps[1..], AsCoded);
        if e.Success? {
          WithChildTwice(x, k, d.value.value, e.value.value);
        }
      }
    }
  }

  lemma {:induction false} NoChildFails(x: JSON, k: string, steps: seq<Step>)
    requires Below(steps) && steps != [] && Child(x, k).None?
    ensures ApplySteps(Some(x), UnderAll(k, steps), AsCoded).Failure?
  {
    DeeperStep(x, k, steps[0]);
  }

  lemma {:induction false} Chain(x: JSON, first: seq<Step>, rest: seq<Step>, y: Option<JSON>, z: Option<JSON>)
    requires Gives(ApplySteps(Some(x), first, AsCoded), y)
    requires if y.None? then z.None? else Gives(ApplySteps(y, rest, AsCoded), z)
    ensures Gives(ApplySteps(Some(x), first + rest, AsCoded), z)
  {
    ApplyAppend(Some(x), first, rest, AsCoded);
  }

  lemma {:induction false} OneStep(x: JSON, step: Step, y: Option<JSON>)
    requires Gives(ApplyStep(Some(x), step, AsCoded), y)
    ensures Gives(ApplySteps(Some(x), [step], AsCoded), y)
  {
    hide ApplyStep;
    assert [step][1..] == [];
  }

  lemma {:induction false} ChildRun(x: JSON, k: string, b: JSON, a: JSON)
    requires WF(b) && WF(a)
    ensures Gives(ApplySteps(Some(x), UnderAll(k, DiffSteps(b, a)), AsCoded), ChildReplay(x, k, b, a))
    decreases a, 3, 0
  {
    DiffShape(b, a);
    var steps := DiffSteps(b, a);
    hide ApplyStep;
    if ValuesEqual(b, a) {
      assert steps == [] && UnderAll(k, []) == [];
    } else {
      if steps == [] { EmptyDiff(b, a); }
      if SameContainer(b, a) {
        hide DiffSteps, UnderAll, ApplySteps, ValuesEqual;
        if Child(x, k).None? {
          NoChildFails(x, k, steps);
        } else {
          DeeperSteps(x, k, steps);
          ReplayRun(Child(x, k).value, b, a);
        }
      } else {
        var step := Step([k], ReplaceValue(a));
        assert [k] + [] == [k];
        assert steps[1..] == [] && UnderAll(k, []) == [];
        assert UnderAll(k, steps) == [step];
        WholeStep(x, k, a);
        OneStep(x, step, ChildReplay(x, k, b, a));
      }
    }
  }

  lemma {:induction false} FieldReplayRun(x: JSON, b: JSON, a: JSON, j: nat)
    requires b.Obj? && a.Obj? && j < |a.fields| && WF(b) && WF(a)
    ensures Gives(ApplySteps(Some(x), FieldStep(b, a, j), AsCoded), FieldReplay(x, b, a, j))
    decreases a, 0, 0
  {
    hide ApplyStep, ChildReplay, Inserted, DiffSteps, ValuesEqual;
    var k, v := a.fields[j].key, a.fields[j].value;
    var was := Lookup(b.fields, k);
    DictLookup(b.fields, k);
    if was.Some? {
      LookupWF(b.fields, k);
      ChildRun(x, k, was.value, v);
    } else {
      LeafStep(x, k, v);
      OneStep(x, Step([k], AddValue(v)), Inserted(x, k, v));
    }
  }

  lemma {:induction false} FieldsRun(x: JSON, b: JSON, a: JSON, j: nat)
    requires b.Obj? && a.Obj? && j <= |a.fields| && WF(b) && WF(a)
    ensures Gives(ApplySteps(Some(x), FieldSteps(b, a, j), AsCoded), Fields(x, b, a, j))
    decreases a, 1, |a.fields| - j
  {
    hide Fields, FieldSteps, FieldReplay, FieldStep, ApplySteps, WF, Gives;
    FieldsUnfold(x, b, a, j);
    if j < |a.fields| {
      FieldReplayRun(x, b, a, j);
      var y := FieldReplay(x, b, a, j);
      if y.Some? {
        FieldsRun(y.value, b, a, j + 1);
      }
      Chain(x, FieldStep(b, a, j), FieldSteps(b, a, j + 1), y, Fields(x, b, a, j));
    }
  }

  lemma {:induction false} FieldsUnfold(x: JSON, b: JSON, a: JSON, j: nat)
    requires b.Obj? && a.Obj? && j <= |a.fields|
    ensures j < |a.fields| ==>
              && FieldSteps(b, a, j) == FieldStep(b, a, j) + FieldSteps(b, a, j + 1)
              && var y := FieldReplay(x, b, a, j);
                 Fields(x, b, a, j) == if y.None? then None else Fields(y.value, b, a, j + 1)
    ensures j == |a.fields| ==> Gives(ApplySteps(Some(x), FieldSteps(b, a, j), AsCoded), Fields(x, b, a, j))
  {
    hide ChildReplay, Inserted, FieldStep;
  }

  lemma {:induction false} ItemsRun(x: JSON, b: JSON, a: JSON, i: nat)
    requires b.Arr? && a.Arr? && i <= Min(|b.items|, |a.items|) && WF(b) && WF(a)
    ensures Gives(ApplySteps(Some(x), ItemSteps(b, a, i), AsCoded), Items(x, b, a, i))
    decreases a, 1, |a.items| - i
  {
    hide ApplyStep, ChildReplay, DiffSteps, ValuesEqual, Decimal;
    if i < Min(|b.items|, |a.items|) {
      var y := ChildReplay(x, Decimal(i), b.items[i], a.items[i]);
      ChildRun(x, Decimal(i), b.items[i], a.items[i]);
      if y.Some? {
        ItemsRun(y.value, b, a, i + 1);
      }
      Chain(x, UnderAll(Decimal(i), DiffSteps(b.items[i], a.items[i])), ItemSteps(b, a, i + 1), y, Items(x, b, a, i));
    }
  }

  lemma {:induction false} RemovedRun(x: JSON, keys: seq<string>)
    ensures Gives(ApplySteps(Some(x), RemoveKeySteps(keys), AsCoded), Removed(x, keys))
    decreases |keys|
  {
    hide ApplyStep, Deleted;
    if keys != [] {
      LeafStep(x, keys[0], Null);
      var y := Deleted(x, keys[0]);
      OneStep(x, Step([keys[0]], RemoveValue), y);
      if y.Some? {
        RemovedRun(y.value, keys[1..]);
      }
      Chain(x, [Step([keys[0]], RemoveValue)], RemoveKeySteps(keys[1..]), y, Removed(x, keys));
    }
  }

  lemma {:induction false} TailRemovedRun(x: JSON, n: nat, from: nat)
    ensures Gives(ApplySteps(Some(x), RemoveTailSteps(n, from), AsCoded), TailRemoved(x, n, from))
    decreases n
  {
    hide ApplyStep, Deleted, Decimal;
    if n > from {
      var k := Decimal(n - 1);
      LeafStep(x, k, Null);
      var y := Deleted(x, k);
      OneStep(x, Step([k], RemoveValue), y);
      if y.Some? {
        TailRemovedRun(y.value, n - 1, from);
      }
      Chain(x, [Step([k], RemoveValue)], RemoveTailSteps(n - 1, from), y, TailRemoved(x, n, from));
    }
  }

  lemma {:induction false} TailAddedRun(x: JSON, ys: seq<JSON>, i: nat)
    ensures Gives(ApplySteps(Some(x), AddTailSteps(ys, i), AsCoded), TailAdded(x, ys, i))
    decreases |ys| - i
  {
    hide ApplyStep, Inserted, Decimal;
    if i < |ys| {
      LeafStep(x, Decimal(i), ys[i]);
      var y := Inserted(x, Decimal(i), ys[i]);
      OneStep(x, Step([Decimal(i)], AddValue(ys[i])), y);
      if y.Some? {
        TailAddedRun(y.value, ys, i + 1);
      }
      Chain(x, [Step([Decimal(i)], AddValue(ys[i]))], AddTailSteps(ys, i + 1), y, TailAdded(x, ys, i));
    }
  }

  lemma {:induction false} ArrayReplayRun(x: JSON, b: JSON, a: JSON)
    requires b.Arr? && a.Arr? && WF(b) && WF(a) && !ValuesEqual(b, a)
    ensures Gives(ApplySteps(Some(x), DiffSteps(b, a), AsCoded), Replay(x, b, a))
    decreases a, 2, 0
  {
    hide ApplySteps, ItemSteps, RemoveTailSteps, AddTailSteps, Items, TailRemoved, TailAdded;
    var n, m := |b.items|, Min(|b.items|, |a.items|);
    ItemsRun(x, b, a, 0);
    var y := Items(x, b, a, 0);
    var z := if y.None? then None else TailRemoved(y.value, n, m);
    if y.Some? {
      TailRemovedRun(y.value, n, m);
      if z.Some? {
        TailAddedRun(z.value, a.items, m);
      }
      Chain(y.value, RemoveTailSteps(n, m), AddTailSteps(a.items, m), z, Replay(x, b, a));
    }
    Chain(x, ItemSteps(b, a, 0), RemoveTailSteps(n, m) + AddTailSteps(a.items, m), y, Replay(x, b, a));
  }

  /** Replaying is exact: on any document, the steps of a diff succeed when and as `Replay` says. */
  lemma {:induction false} ReplayRun(x: JSON, b: JSON, a: JSON)
    requires WF(b) && WF(a)
    ensures Gives(ApplySteps(Some(x), DiffSteps(b, a), AsCoded), Replay(x, b, a))
    decreases a, 2, 1
  {
    if ValuesEqual(b, a) {
    } else if b.Obj? && a.Obj? {
      hide ApplySteps, FieldSteps, RemoveKeySteps, DroppedKeys, Fields, Removed;
      var dropped := DroppedKeys(b.fields, a.fields);
      FieldsRun(x, b, a, 0);
      var y := Fields(x, b, a, 0);
      if y.Some? {
        RemovedRun(y.value, dropped);
      }
      Chain(x, FieldSteps(b, a, 0), RemoveKeySteps(dropped), y, Replay(x, b, a));
    } else if b.Arr? && a.Arr? {
      ArrayReplayRun(x, b, a);
    } else {
      OneStep(x, Step([], ReplaceValue(a)), Some(a));
    }
  }

  /** The same of the emitted patch. */
  lemma {:induction false} ReplayPatch(x: JSON, b: JSON, a: JSON)
    requires WF(b) && WF(a)
    ensures var r := ApplyPatch(x, DiffOps(b, a), AsCoded);
            (r.Success? <==> Replay(x, b, a).Some?) && (r.Success? ==> Some(r.value) == Replay(x, b, a))
  {
    ReplayRun(x, b, a);
    hide Replay, ApplySteps, DiffSteps;
    EmittedMeaning(Some(x), DiffSteps(b, a), AsCoded);
  }

  // ----- a document and its own diff

  predicate FieldReplays(fs: seq<Field>, gs: seq<Field>, k: string) {
    var was, now := Lookup(fs, k), Lookup(gs, k);
    was.Some? && now.Some? ==> Replay(was.value, was.value, now.value).Some?
  }

  /** On two objects the replay fails exactly where a shared field's own replay does. */
  lemma {:induction false} OwnObject(b: JSON, a: JSON)
    requires WF(b) && WF(a) && b.Obj? && a.Obj? && !ValuesEqual(b, a)
    ensures Replay(b, b, a).Some? <==> forall k :: FieldReplays(b.fields, a.fields, k)
  {
    hide Replay, ValuesEqual, DiffSteps, ApplySteps, Lookup;
    ReplayRun(b, b, a);
    ObjectRun(b, a, AsCoded);
    var fs, gs := b.fields, a.fields;
    forall k | Lookup(gs, k).Some?
      ensures SlotOutcome(Lookup(fs, k), Lookup(gs, k).value, AsCoded).Success?
              <==> FieldReplays(fs, gs, k)
    {
      if Lookup(fs, k).Some? {
        LookupWF(fs, k);
        LookupWF(gs, k);
        ReplayRun(Lookup(fs, k).value, Lookup(fs, k).value, Lookup(gs, k).value);
      }
    }
    hide SlotOutcome;
    if Replay(b, b, a).Some? {
      var o := Outcome(b, a, AsCoded);
      forall k | Lookup(gs, k).Some? ensures SlotOutcome(Lookup(fs, k), Lookup(gs, k).value, AsCoded).Success? {
        assert SlotOutcome(Lookup(fs, k), Lookup(gs, k).value, AsCoded) == Success(Lookup(o.value.value.fields, k));
      }
    } else {
      var k :| Lookup(gs, k).Some? && !SlotOutcome(Lookup(fs, k), Lookup(gs, k).value, AsCoded).Success?;
      assert !FieldReplays(fs, gs, k);
    }
  }

  /** How far the old elements have moved when index i is reached: one place for each element
      before it that is put in as a whole. */
  function Moved(b: JSON, a: JSON, i: nat): (c: nat)
    requires b.Arr? && a.Arr? && i <= Min(|b.items|, |a.items|)
    ensures c <= i
  {
    if i == 0 then 0 else Moved(b, a, i - 1) + if Descends(b.items[i - 1], a.items[i - 1]) then 0 else 1
  }

  /** What ends up at a shared index: its diff meets the element that has moved there. */
  function ItemReplay(b: JSON, a: JSON, i: nat): Option<JSON>
    requires b.Arr? && a.Arr? && i < Min(|b.items|, |a.items|)
  {
    Replay(b.items[i - Moved(b, a, i)], b.items[i], a.items[i])
  }

  predicate ItemsReplay(b: JSON, a: JSON, i: nat)
    requires b.Arr? && a.Arr?
  {
    forall j :: i <= j < Min(|b.items|, |a.items|) ==> ItemReplay(b, a, j).Some?
  }

  /** One shared index: the elements behind it are the old ones, moved. */
  lemma {:induction false} ItemOwn(cur: seq<JSON>, b: JSON, a: JSON, i: nat)
    requires b.Arr? && a.Arr? && i < Min(|b.items|, |a.items|)
    requires |cur| == |b.items| + Moved(b, a, i) && cur[i..] == b.items[i - Moved(b, a, i)..]
    ensures var y := ChildReplay(Arr(cur), Decimal(i), b.items[i], a.items[i]);
            && (y.Some? <==> ItemReplay(b, a, i).Some?)
            && (y.Some? ==>
                  && y.value.Arr? && |y.value.items| == |b.items| + Moved(b, a, i + 1)
                  && y.value.items[..i] == cur[..i] && y.value.items[i] == ItemReplay(b, a, i).value
                  && y.value.items[i + 1..] == b.items[i + 1 - Moved(b, a, i + 1)..])
  {
    hide Replay, Decimal, ValuesEqual;
    var c := Moved(b, a, i);
    assert cur[i] == cur[i..][0] == b.items[i - c];
    assert cur[i + 1..] == cur[i..][1..] == b.items[i + 1 - c..];
    IndexRoundTrip(i, false);
    assert Child(Arr(cur), Decimal(i)) == Some(cur[i]);
    ReplayEnds(cur[i], b.items[i], a.items[i]);
    if !Descends(b.items[i], a.items[i]) {
      var y := cur[..i] + [a.items[i]] + cur[i..];
      assert y[i + 1..] == cur[i..] && y[..i] == cur[..i];
      InsertedAt(cur, i, a.items[i]);
    }
  }

  lemma {:induction false} ReplayEnds(x: JSON, b: JSON, a: JSON)
    ensures ValuesEqual(b, a) ==> Replay(x, b, a) == Some(x)
    ensures !Descends(b, a) ==> Replay(x, b, a) == Some(a)
  {
  }

  lemma {:induction false} ItemsOwn(cur: seq<JSON>, b: JSON, a: JSON, i: nat)
    requires b.Arr? && a.Arr? && i <= Min(|b.items|, |a.items|)
    requires |cur| == |b.items| + Moved(b, a, i) && cur[i..] == b.items[i - Moved(b, a, i)..]
    ensures var m := Min(|b.items|, |a.items|);
            var y := Items(Arr(cur), b, a, i);
            && (y.Some? <==> ItemsReplay(b, a, i))
            && (y.Some? ==>
                  && y.value.Arr? && |y.value.items| == |b.items| + Moved(b, a, m)
                  && y.value.items[..i] == cur[..i]
                  && (forall j :: i <= j < m ==> y.value.items[j] == ItemReplay(b, a, j).value)
                  && y.value.items[m..] == b.items[m - Moved(b, a, m)..])
    decreases |a.items| - i
  {
    hide ItemReplay, ChildReplay, Decimal, Moved;
    if i < Min(|b.items|, |a.items|) {
      ItemOwn(cur, b, a, i);
      var y := ChildReplay(Arr(cur), Decimal(i), b.items[i], a.items[i]);
      if y.Some? {
        ItemsOwn(y.value.items, b, a, i + 1);
        var z := Items(y.value, b, a, i + 1);
        if z.Some? {
          assert z.value.items[..i] == z.value.items[..i + 1][..i] == y.value.items[..i + 1][..i];
          assert z.value.items[i] == z.value.items[..i + 1][i] == y.value.items[..i + 1][i];
        }
      }
    }
  }

  lemma {:induction false} DeletedAt(cur: seq<JSON>, i: nat)
    requires i < |cur|
    ensures Deleted(Arr(cur), Decimal(i)) == Some(Arr(cur[..i] + cur[i + 1..]))
  {
    IndexRoundTrip(i, false);
  }

  lemma {:induction false} TailRemovedOwn(cur: seq<JSON>, n: nat, from: nat)
    requires from <= n <= |cur|
    ensures TailRemoved(Arr(cur), n, from) == Some(Arr(cur[..from] + cur[n..]))
    decreases n
  {
    hide Deleted, Decimal;
    if n == from {
      assert cur[..from] + cur[n..] == cur;
    } else {
      DeletedAt(cur, n - 1);
      var next := cur[..n - 1] + cur[n..];
      assert next[..from] == cur[..from] && next[n - 1..] == cur[n..];
      TailRemovedOwn(next, n - 1, from);
    }
  }

  lemma {:induction false} InsertedAt(cur: seq<JSON>, i: nat, v: JSON)
    requires i <= |cur|
    ensures Inserted(Arr(cur), Decimal(i), v) == Some(Arr(cur[..i] + [v] + cur[i..]))
  {
    IndexRoundTrip(i, true);
    assert i == |cur| ==> cur + [v] == cur[..i] + [v] + cur[i..];
  }

  /** Taking one more element from ys. */
  lemma {:induction false} Slide<T>(before: seq<T>, ys: seq<T>, i: nat, after: seq<T>)
    requires i == |before| < |ys|
    ensures var next := before + [ys[i]] + after;
            next[..i + 1] + ys[i + 1..] + next[i + 1..] == before + ys[i..] + after
  {
    var next := before + [ys[i]] + after;
    assert next[..i + 1] == before + [ys[i]] && next[i + 1..] == after;
    assert ys[i..] == [ys[i]] + ys[i + 1..];
    assert (before + [ys[i]]) + ys[i + 1..] == before + ([ys[i]] + ys[i + 1..]);
  }

  lemma {:induction false} TailAddedOwn(cur: seq<JSON>, ys: seq<JSON>, i: nat)
    requires i <= |cur| && i <= |ys|
    ensures TailAdded(Arr(cur), ys, i) == Some(Arr(cur[..i] + ys[i..] + cur[i..]))
    decreases |ys| - i
  {
    hide Inserted, Decimal;
    if i == |ys| {
      assert ys[i..] == [] && cur[..i] + [] + cur[i..] == cur;
    } else {
      InsertedAt(cur, i, ys[i]);
      Slide(cur[..i], ys, i, cur[i..]);
      TailAddedOwn(cur[..i] + [ys[i]] + cur[i..], ys, i + 1);
    }
  }

  /** On two arrays: the replay fails exactly where the diff of a shared index does not fit the
      element moved there. Otherwise the result is the shared elements so replayed, the new tail,
      and then as many of the last old elements as elements were put in as a whole. */
  lemma {:induction false} OwnArray(b: JSON, a: JSON)
    requires b.Arr? && a.Arr? && !ValuesEqual(b, a)
    ensures var n, m := |b.items|, Min(|b.items|, |a.items|);
            var c := Moved(b, a, m);
            var r := Replay(b, b, a);
            && (r.Some? <==> ItemsReplay(b, a, 0))
            && (r.Some? ==>
                  && r.value.Arr? && |r.value.items| == |a.items| + c
                  && (forall i :: 0 <= i < m ==> r.value.items[i] == ItemReplay(b, a, i).value)
                  && r.value.items[m..] == a.items[m..] + b.items[n - c..])
  {
    hide ItemReplay, Decimal, ValuesEqual, Items, TailRemoved, TailAdded;
    var n, m := |b.items|, Min(|b.items|, |a.items|);
    var c := Moved(b, a, m);
    ItemsOwn(b.items, b, a, 0);
    var y := Items(b, b, a, 0);
    assert y.None? ==> Replay(b, b, a).None?;
    if y.Some? {
      ArrayEnds(y.value.items, b, a);
      var tail := a.items[m..] + b.items[n - c..];
      assert Replay(b, b, a) == Some(Arr(y.value.items[..m] + tail));
    }
  }

  /** The tail of a replay, from what its shared indexes left. */
  lemma {:induction false} ArrayEnds(ys: seq<JSON>, b: JSON, a: JSON)
    requires b.Arr? && a.Arr?
    requires var m := Min(|b.items|, |a.items|); var c := Moved(b, a, m);
             |ys| == |b.items| + c && ys[m..] == b.items[m - c..]
    ensures var n, m := |b.items|, Min(|b.items|, |a.items|);
            var kept := ys[..m] + ys[n..];
            && TailRemoved(Arr(ys), n, m) == Some(Arr(kept))
            && TailAdded(Arr(kept), a.items, m) == Some(Arr(ys[..m] + (a.items[m..] + b.items[n - Moved(b, a, m)..])))
  {
    hide Moved, TailRemoved, TailAdded;
    var n, m := |b.items|, Min(|b.items|, |a.items|);
    hide Min;
    var kept := ys[..m] + ys[n..];
    Ends(ys, b.items, a.items, m, Moved(b, a, m));
    TailRemovedOwn(ys, n, m);
    TailAddedOwn(kept, a.items, m);
  }

  lemma {:induction false} Ends<T>(ys: seq<T>, before: seq<T>, after: seq<T>, m: nat, c: nat)
    requires c <= m <= |before| && m <= |after| && |ys| == |before| + c && ys[m..] == before[m - c..]
    ensures var last := before[|before| - c..];
            var kept := ys[..m] + ys[|before|..];
            kept[..m] + after[m..] + kept[m..] == ys[..m] + (after[m..] + last)
  {
    var n := |before|;
    var last, kept := before[n - c..], ys[..m] + ys[n..];
    forall j | 0 <= j < c ensures ys[n..][j] == last[j] {
      assert ys[m..][n - m + j] == before[m - c..][n - m + j];
    }
    assert ys[n..] == last;
    assert kept[..m] == ys[..m] && kept[m..] == last;
    assert (ys[..m] + after[m..]) + last == ys[..m] + (after[m..] + last);
  }
}
