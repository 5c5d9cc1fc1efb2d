/** Applying a diff to the value it was taken from: exactly when it gives the new value. */
module RoundTrip {
  import opened Wrappers
  import opened Text
  import opened Pointer
  import opened Value
  import opened Patch
  import opened Diff
  import Num = Number

  /** Both objects or both arrays: the diff descends instead of replacing. */
  predicate SameContainer(b: JSON, a: JSON) {
    (b.Obj? && a.Obj?) || (b.Arr? && a.Arr?)
  }

  /** No shared array index that the diff reaches holds an unequal pair of scalars or of
      different kinds: the diff emits no `replace` whose target is an array element. */
  predicate CodedSafe(b: JSON, a: JSON)
    decreases a
  {
    ValuesEqual(b, a) ||
    if b.Obj? && a.Obj? then
      forall j :: 0 <= j < |a.fields| ==>
        var slot := Lookup(b.fields, a.fields[j].key);
        slot.Some? ==> CodedSafe(slot.value, a.fields[j].value)
    else if b.Arr? && a.Arr? then
      forall i :: 0 <= i < Min(|b.items|, |a.items|) ==>
        Descends(b.items[i], a.items[i]) && CodedSafe(b.items[i], a.items[i])
    else true
  }

  predicate Descends(b: JSON, a: JSON) {
    ValuesEqual(b, a) || SameContainer(b, a)
  }

  /** Somewhere at the same place both hold arrays, of different lengths. */
  ghost predicate LenClash(r: JSON, a: JSON)
    decreases r
  {
    match (r, a)
    case (Arr(xs), Arr(ys)) =>
      |xs| != |ys| || exists i :: 0 <= i < |xs| && LenClash(xs[i], ys[i])
    case (Obj(fs), Obj(gs)) =>
      exists k :: Lookup(fs, k).Some? && Lookup(gs, k).Some? && LenClash(Lookup(fs, k).value, Lookup(gs, k).value)
    case _ => false
  }

  lemma {:induction false} ClashUnequal(r: JSON, a: JSON)
    requires WF(r) && WF(a) && LenClash(r, a)
    ensures !ValuesEqual(r, a)
    decreases r
  {
    if r.Arr? {
      if |r.items| == |a.items| {
        var i :| 0 <= i < |r.items| && LenClash(r.items[i], a.items[i]);
        ClashUnequal(r.items[i], a.items[i]);
      }
    } else {
      var fs, gs := r.fields, a.fields;
      var k :| Lookup(fs, k).Some? && Lookup(gs, k).Some? && LenClash(Lookup(fs, k).value, Lookup(gs, k).value);
      LookupWF(fs, k);
      LookupWF(gs, k);
      ClashUnequal(Lookup(fs, k).value, Lookup(gs, k).value);
      ObjectsEqualIff(fs, gs);
      assert !SlotsEqual(Lookup(fs, k), Lookup(gs, k));
    }
  }

  function Outcome(b: JSON, a: JSON, sem: ReplaceMeaning): Result<Option<JSON>, Error> {
    ApplySteps(Some(b), DiffSteps(b, a), sem)
  }

  ghost predicate Meets(b: JSON, a: JSON, sem: ReplaceMeaning) {
    var o := Outcome(b, a, sem);
    o.Success? && o.value.Some? && ValuesEqual(o.value.value, a)
  }

  /** The patch fails, or leaves an array of a wrong length. */
  ghost predicate Misses(b: JSON, a: JSON, sem: ReplaceMeaning) {
    var o := Outcome(b, a, sem);
    o.Failure? || (o.value.Some? && LenClash(o.value.value, a))
  }

  ghost predicate Verdict(b: JSON, a: JSON, sem: ReplaceMeaning) {
    if sem.Rfc? || CodedSafe(b, a) then Meets(b, a, sem) else Misses(b, a, sem)
  }

  // ----- the shape of a diff

  predicate Below(steps: seq<Step>) {
    forall i :: 0 <= i < |steps| ==> steps[i].segs != []
  }

  lemma {:induction false} UnderBelow(k: string, steps: seq<Step>)
    ensures Below(UnderAll(k, steps))
  {
    if steps != [] { UnderBelow(k, steps[1..]); }
  }

  lemma {:induction false} RemoveKeysBelow(keys: seq<string>)
    ensures Below(RemoveKeySteps(keys))
  {
    if keys != [] { RemoveKeysBelow(keys[1..]); }
  }

  lemma {:induction false} TailBelow(n: nat, from: nat)
    ensures Below(RemoveTailSteps(n, from))
  {
    if n > from { TailBelow(n - 1, from); }
  }

  lemma {:induction false} AddTailBelow(ys: seq<JSON>, i: nat)
    ensures Below(AddTailSteps(ys, i))
    decreases |ys| - i
  {
    if i < |ys| { AddTailBelow(ys, i + 1); }
  }

  lemma {:induction false} FieldStepsBelow(b: JSON, a: JSON, j: nat)
    requires b.Obj? && a.Obj? && j <= |a.fields|
    ensures Below(FieldSteps(b, a, j))
    decreases |a.fields| - j
  {
    if j < |a.fields| {
      FieldStepsBelow(b, a, j + 1);
      if a.fields[j].key in Dict(b.fields) {
        UnderBelow(a.fields[j].key, DiffSteps(Dict(b.fields)[a.fields[j].key], a.fields[j].value));
      }
    }
  }

  lemma {:induction false} ItemStepsBelow(b: JSON, a: JSON, i: nat)
    requires b.Arr? && a.Arr? && i <= Min(|b.items|, |a.items|)
    ensures Below(ItemSteps(b, a, i))
    decreases |a.items| - i
  {
    if i < Min(|b.items|, |a.items|) {
      ItemStepsBelow(b, a, i + 1);
      UnderBelow(Decimal(i), DiffSteps(b.items[i], a.items[i]));
    }
  }

  /** Containers are edited from inside, anything else is replaced as a whole. */
  lemma {:induction false} DiffShape(b: JSON, a: JSON)
    ensures Descends(b, a) ==> Below(DiffSteps(b, a))
    ensures !Descends(b, a) ==> DiffSteps(b, a) == [Step([], ReplaceValue(a))]
    ensures Keeps(DiffSteps(b, a))
  {
    if !ValuesEqual(b, a) {
      if b.Obj? && a.Obj? {
        FieldStepsBelow(b, a, 0);
        RemoveKeysBelow(DroppedKeys(b.fields, a.fields));
      } else if b.Arr? && a.Arr? {
        ItemStepsBelow(b, a, 0);
        TailBelow(|b.items|, Min(|b.items|, |a.items|));
        AddTailBelow(a.items, Min(|b.items|, |a.items|));
      }
    }
  }

  // ----- objects

  /** What the steps for one new field make of the old one. */
  function SlotOutcome(slot: Option<JSON>, v: JSON, sem: ReplaceMeaning): Result<Option<JSON>, Error> {
    if slot.None? then Success(Some(v)) else Outcome(slot.value, v, sem)
  }

  lemma {:induction false} FieldStepRun(b: JSON, a: JSON, j: nat, cur: seq<Field>, sem: ReplaceMeaning)
    requires b.Obj? && a.Obj? && j < |a.fields| && Distinct(b.fields)
    requires Lookup(cur, a.fields[j].key) == Lookup(b.fields, a.fields[j].key)
    ensures var k, v := a.fields[j].key, a.fields[j].value;
            var o := SlotOutcome(Lookup(b.fields, k), v, sem);
            && ApplySteps(Some(Obj(cur)), FieldStep(b, a, j), sem) == LiftField(cur, k, o)
            && (o.Success? ==> o.value.Some?)
  {
    var k, v := a.fields[j].key, a.fields[j].value;
    DictLookup(b.fields, k);
    var slot := Lookup(b.fields, k);
    if slot.Some? {
      DiffShape(slot.value, v);
      LocalFieldAll(cur, k, DiffSteps(slot.value, v), sem);
    } else {
      var step := Step([k], AddValue(v));
      assert ApplyStep(Some(Obj(cur)), step, sem) == Success(Some(Obj(SetField(cur, k, v))));
      assert [step][1..] == [];
    }
  }

  /** `fin` is `cur` with every field of gs at its own outcome. */
  ghost predicate FieldsDone(fs: seq<Field>, gs: seq<Field>, cur: seq<Field>, fin: seq<Field>, sem: ReplaceMeaning) {
    && Distinct(fin)
    && forall k :: if Lookup(gs, k).Some?
                   then SlotOutcome(Lookup(fs, k), Lookup(gs, k).value, sem) == Success(Lookup(fin, k))
                   else Lookup(fin, k) == Lookup(cur, k)
  }

  ghost predicate AllSucceed(fs: seq<Field>, gs: seq<Field>, sem: ReplaceMeaning) {
    forall k :: Lookup(gs, k).Some? ==> SlotOutcome(Lookup(fs, k), Lookup(gs, k).value, sem).Success?
  }

  lemma {:induction false} FieldRun(b: JSON, a: JSON, j: nat, cur: seq<Field>, sem: ReplaceMeaning)
    requires b.Obj? && a.Obj? && j <= |a.fields| && Distinct(b.fields) && Distinct(cur)
    requires Distinct(a.fields[j..])
    requires forall k :: Lookup(a.fields[j..], k).Some? ==> Lookup(cur, k) == Lookup(b.fields, k)
    ensures var r := ApplySteps(Some(Obj(cur)), FieldSteps(b, a, j), sem);
            && (AllSucceed(b.fields, a.fields[j..], sem) ==> r.Success?)
            && (r.Success? ==> r.value.Some? && r.value.value.Obj?
                               && FieldsDone(b.fields, a.fields[j..], cur, r.value.value.fields, sem))
    decreases |a.fields| - j
  {
    hide FieldStep, ValuesEqual, SetField;
    if j < |a.fields| {
      var k, v := a.fields[j].key, a.fields[j].value;
      var gs, rest := a.fields[j..], a.fields[j + 1..];
      assert gs[1..] == rest && gs[0] == a.fields[j];
      var o := SlotOutcome(Lookup(b.fields, k), v, sem);
      FieldStepRun(b, a, j, cur, sem);
      ApplyAppend(Some(Obj(cur)), FieldStep(b, a, j), FieldSteps(b, a, j + 1), sem);
      assert Lookup(gs, k) == Some(v);
      if o.Success? {
        var next := SetField(cur, k, o.value.value);
        DistinctSet(cur, k, o.value.value);
        forall i ensures Lookup(next, i) == if i == k then o.value else Lookup(cur, i) {
          LookupSet(cur, k, o.value.value, i);
        }
        forall i | Lookup(rest, i).Some? ensures Lookup(gs, i) == Lookup(rest, i) && i != k {
        }
        FieldRun(b, a, j + 1, next, sem);
      }
    }
  }

  predicate NoRepeats(keys: seq<string>) {
    forall k :: k in keys ==> multiset(keys)[k] == 1
  }

  lemma {:induction false} KeysOfOnce(fs: seq<Field>, k: string)
    ensures multiset(KeysOf(fs))[k] <= 1
  {
    if fs != [] {
      KeysOfOnce(fs[1..], k);
      KeysOfLookup(fs[1..], k);
      assert k !in KeysOf(fs[1..]) ==> multiset(KeysOf(fs[1..]))[k] == 0;
    }
  }

  lemma {:induction false} WithoutOnce(keys: seq<string>, gs: seq<Field>, k: string)
    ensures multiset(Without(keys, gs))[k] <= multiset(keys)[k]
  {
    if keys != [] {
      assert keys == [keys[0]] + keys[1..];
      WithoutOnce(keys[1..], gs, k);
    }
  }

  lemma {:induction false} DroppedOnce(fs: seq<Field>, gs: seq<Field>)
    ensures NoRepeats(DroppedKeys(fs, gs))
  {
    forall k | k in DroppedKeys(fs, gs) ensures multiset(DroppedKeys(fs, gs))[k] == 1 {
      KeysOfOnce(fs, k);
      WithoutOnce(KeysOf(fs), gs, k);
    }
  }

  /** Removing present keys, each once, in any order. */
  lemma {:induction false} RemoveRun(cur: seq<Field>, keys: seq<string>, sem: ReplaceMeaning) returns (fin: seq<Field>)
    requires Distinct(cur) && NoRepeats(keys)
    requires forall k :: k in keys ==> Lookup(cur, k).Some?
    ensures ApplySteps(Some(Obj(cur)), RemoveKeySteps(keys), sem) == Success(Some(Obj(fin)))
    ensures Distinct(fin)
    ensures forall k :: Lookup(fin, k) == if k in keys then None else Lookup(cur, k)
    decreases |keys|
  {
    if keys == [] {
      fin := cur;
    } else {
      var k0, rest := keys[0], keys[1..];
      assert keys == [k0] + rest;
      var next := RemoveField(cur, k0);
      DistinctRemove(cur, k0);
      forall k ensures Lookup(next, k) == if k == k0 then None else Lookup(cur, k) {
        if k == k0 { LookupRemoved(cur, k0); } else { LookupRemoveOther(cur, k0, k); }
      }
      assert multiset(keys) == multiset{k0} + multiset(rest);
      forall k | k in rest ensures k != k0 && multiset(rest)[k] == 1 {
        assert k in keys;
      }
      var step := Step([k0], RemoveValue);
      assert ApplyStep(Some(Obj(cur)), step, sem) == Success(Some(Obj(next)));
      assert RemoveKeySteps(keys)[0] == step && RemoveKeySteps(keys)[1..] == RemoveKeySteps(rest);
      fin := RemoveRun(next, rest, sem);
    }
  }

  /** The whole run on two objects: failure only from a child, otherwise the new object's keys,
      each at its own outcome. */
  lemma {:induction false} ObjectRun(b: JSON, a: JSON, sem: ReplaceMeaning)
    requires WF(b) && WF(a) && b.Obj? && a.Obj? && !ValuesEqual(b, a)
    ensures var o := Outcome(b, a, sem);
            && (AllSucceed(b.fields, a.fields, sem) ==> o.Success?)
            && (o.Success? ==> o.value.Some? && o.value.value.Obj?
                               && FieldsDone(b.fields, a.fields, [], o.value.value.fields, sem))
  {
    var fs, gs := b.fields, a.fields;
    assert gs[0..] == gs;
    FieldRun(b, a, 0, fs, sem);
    var dropped := DroppedKeys(fs, gs);
    ApplyAppend(Some(b), FieldSteps(b, a, 0), RemoveKeySteps(dropped), sem);
    var mid := ApplySteps(Some(b), FieldSteps(b, a, 0), sem);
    if mid.Success? {
      var cur := mid.value.value.fields;
      DroppedOnce(fs, gs);
      forall k ensures k in dropped <==> Lookup(fs, k).Some? && Lookup(gs, k).None? {
        DroppedIff(fs, gs, k);
      }
      forall k | k in dropped ensures Lookup(cur, k).Some? {
        assert Lookup(gs, k).None?;
      }
      var fin := RemoveRun(cur, dropped, sem);
      forall k ensures if Lookup(gs, k).Some?
                       then SlotOutcome(Lookup(fs, k), Lookup(gs, k).value, sem) == Success(Lookup(fin, k))
                       else Lookup(fin, k).None? {
      }
    }
  }

  lemma {:induction false} ObjectMeets(b: JSON, a: JSON, sem: ReplaceMeaning)
    requires WF(b) && WF(a) && b.Obj? && a.Obj? && !ValuesEqual(b, a)
    requires forall k :: Lookup(a.fields, k).Some? ==> ChildMeets(b.fields, a.fields, k, sem)
    ensures Meets(b, a, sem)
  {
    var fs, gs := b.fields, a.fields;
    ObjectRun(b, a, sem);
    assert AllSucceed(fs, gs, sem) by {
      forall k | Lookup(gs, k).Some? ensures SlotOutcome(Lookup(fs, k), Lookup(gs, k).value, sem).Success? {
        assert ChildMeets(fs, gs, k, sem);
      }
    }
    var fin := Outcome(b, a, sem).value.value.fields;
    forall k ensures SlotsEqual(Lookup(fin, k), Lookup(gs, k)) {
      if Lookup(gs, k).Some? { assert ChildMeets(fs, gs, k, sem); }
    }
    SameFieldsEqual(fin, gs);
  }

  lemma {:induction false} ObjectMisses(b: JSON, a: JSON, sem: ReplaceMeaning, k: string)
    requires WF(b) && WF(a) && b.Obj? && a.Obj? && !ValuesEqual(b, a)
    requires Lookup(b.fields, k).Some? && Lookup(a.fields, k).Some?
    requires Misses(Lookup(b.fields, k).value, Lookup(a.fields, k).value, sem)
    ensures Misses(b, a, sem)
  {
    hide DiffSteps, ApplySteps, ValuesEqual;
    ObjectRun(b, a, sem);
    var o := Outcome(b, a, sem);
    if o.Success? {
      assert LenClash(Lookup(o.value.value.fields, k).value, Lookup(a.fields, k).value);
    }
  }

  lemma {:induction false} ObjectVerdict(b: JSON, a: JSON, sem: ReplaceMeaning)
    requires WF(b) && WF(a) && b.Obj? && a.Obj? && !ValuesEqual(b, a)
    requires forall k :: Lookup(b.fields, k).Some? && Lookup(a.fields, k).Some? ==>
                           Verdict(Lookup(b.fields, k).value, Lookup(a.fields, k).value, sem)
    ensures Verdict(b, a, sem)
  {
    var fs, gs := b.fields, a.fields;
    if sem.Rfc? || CodedSafe(b, a) {
      forall k | Lookup(gs, k).Some? ensures ChildMeets(fs, gs, k, sem) {
        var j :| 0 <= j < |gs| && gs[j] == Field(k, Lookup(gs, k).value);
        EqualReflexive(gs[j].value);
      }
      ObjectMeets(b, a, sem);
    } else {
      var j :| 0 <= j < |gs| && Lookup(fs, gs[j].key).Some? && !CodedSafe(Lookup(fs, gs[j].key).value, gs[j].value);
      LookupIndex(gs, j);
      ObjectMisses(b, a, sem, gs[j].key);
    }
  }

  ghost predicate ChildMeets(fs: seq<Field>, gs: seq<Field>, k: string, sem: ReplaceMeaning)
    requires Lookup(gs, k).Some?
  {
    var o := SlotOutcome(Lookup(fs, k), Lookup(gs, k).value, sem);
    o.Success? && o.value.Some? && ValuesEqual(o.value.value, Lookup(gs, k).value)
  }

  // ----- arrays

  ghost predicate ItemsDone(b: JSON, a: JSON, from: nat, cur: seq<JSON>, fin: seq<JSON>, sem: ReplaceMeaning)
    requires b.Arr? && a.Arr?
  {
    && |fin| == |cur|
    && (forall i :: from <= i < Min(|b.items|, |a.items|) && i < |fin| ==>
          Outcome(b.items[i], a.items[i], sem) == Success(Some(fin[i])))
    && (forall i :: 0 <= i < |fin| && (i < from || Min(|b.items|, |a.items|) <= i) ==> fin[i] == cur[i])
  }

  lemma {:induction false} InPlaceDiff(b: JSON, a: JSON, sem: ReplaceMeaning)
    requires sem.Rfc? || Descends(b, a)
    ensures forall j :: 0 <= j < |DiffSteps(b, a)| ==> InPlace(DiffSteps(b, a)[j], sem)
  {
    DiffShape(b, a);
  }

  /** Elements i and up all succeed. */
  ghost predicate ItemsSucceed(b: JSON, a: JSON, i: nat, sem: ReplaceMeaning)
    requires b.Arr? && a.Arr?
  {
    forall j :: i <= j < Min(|b.items|, |a.items|) ==> Outcome(b.items[j], a.items[j], sem).Success?
  }

  lemma {:induction false} ItemStepRun(b: JSON, a: JSON, i: nat, cur: seq<JSON>, sem: ReplaceMeaning)
    requires b.Arr? && a.Arr? && i < Min(|b.items|, |a.items|) && i < |cur| && cur[i] == b.items[i]
    requires sem.Rfc? || Descends(b.items[i], a.items[i])
    ensures var o := Outcome(b.items[i], a.items[i], sem);
            && ApplySteps(Some(Arr(cur)), UnderAll(Decimal(i), DiffSteps(b.items[i], a.items[i])), sem) == LiftItem(cur, i, o)
            && (o.Success? ==> o.value.Some?)
  {
    InPlaceDiff(b.items[i], a.items[i], sem);
    LocalItemAll(cur, i, DiffSteps(b.items[i], a.items[i]), sem);
  }

  lemma {:induction false} ItemRun(b: JSON, a: JSON, i: nat, cur: seq<JSON>, sem: ReplaceMeaning)
    requires b.Arr? && a.Arr? && i <= Min(|b.items|, |a.items|) && |cur| == |b.items|
    requires forall j :: i <= j < |cur| ==> cur[j] == b.items[j]
    requires sem.Rfc? || forall j :: 0 <= j < Min(|b.items|, |a.items|) ==> Descends(b.items[j], a.items[j])
    ensures var r := ApplySteps(Some(Arr(cur)), ItemSteps(b, a, i), sem);
            && (ItemsSucceed(b, a, i, sem) ==> r.Success?)
            && (r.Success? ==> r.value.Some? && r.value.value.Arr?
                               && ItemsDone(b, a, i, cur, r.value.value.items, sem))
    decreases |a.items| - i
  {
    hide DiffSteps, UnderAll, ValuesEqual, Decimal;
    if i < Min(|b.items|, |a.items|) {
      var o := Outcome(b.items[i], a.items[i], sem);
      ItemStepRun(b, a, i, cur, sem);
      ApplyAppend(Some(Arr(cur)), UnderAll(Decimal(i), DiffSteps(b.items[i], a.items[i])), ItemSteps(b, a, i + 1), sem);
      if o.Success? {
        ItemRun(b, a, i + 1, cur[i := o.value.value], sem);
      }
    }
  }

  lemma {:induction false} RemoveTailRun(cur: seq<JSON>, from: nat, sem: ReplaceMeaning)
    requires from <= |cur|
    ensures ApplySteps(Some(Arr(cur)), RemoveTailSteps(|cur|, from), sem) == Success(Some(Arr(cur[..from])))
    decreases |cur|
  {
    var n := |cur|;
    if n > from {
      IndexRoundTrip(n - 1, false);
      var step := Step([Decimal(n - 1)], RemoveValue);
      var next := cur[..n - 1];
      assert cur[..n - 1] + cur[n..] == next;
      assert ApplyStep(Some(Arr(cur)), step, sem) == Success(Some(Arr(next)));
      assert RemoveTailSteps(n, from)[0] == step && RemoveTailSteps(n, from)[1..] == RemoveTailSteps(n - 1, from);
      RemoveTailRun(next, from, sem);
      assert next[..from] == cur[..from];
    } else {
      assert cur[..from] == cur;
    }
  }

  lemma {:induction false} AddTailRun(cur: seq<JSON>, ys: seq<JSON>, sem: ReplaceMeaning)
    requires |cur| <= |ys|
    ensures ApplySteps(Some(Arr(cur)), AddTailSteps(ys, |cur|), sem) == Success(Some(Arr(cur + ys[|cur|..])))
    decreases |ys| - |cur|
  {
    var i := |cur|;
    if i < |ys| {
      IndexRoundTrip(i, true);
      var step := Step([Decimal(i)], AddValue(ys[i]));
      var next := cur + [ys[i]];
      assert ApplyStep(Some(Arr(cur)), step, sem) == Success(Some(Arr(next)));
      assert AddTailSteps(ys, i)[0] == step && AddTailSteps(ys, i)[1..] == AddTailSteps(ys, i + 1);
      AddTailRun(next, ys, sem);
      assert next + ys[i + 1..] == cur + ys[i..];
    } else {
      assert cur + ys[i..] == cur;
    }
  }

  /** The tail of an array run: high removals, then appends in order. */
  lemma {:induction false} TailRun(b: JSON, a: JSON, cur: seq<JSON>, sem: ReplaceMeaning)
    requires b.Arr? && a.Arr? && |cur| == |b.items|
    ensures var m := Min(|b.items|, |a.items|);
            ApplySteps(Some(Arr(cur)), RemoveTailSteps(|b.items|, m) + AddTailSteps(a.items, m), sem)
            == Success(Some(Arr(cur[..m] + a.items[m..])))
  {
    var m := Min(|b.items|, |a.items|);
    RemoveTailRun(cur, m, sem);
    ApplyAppend(Some(Arr(cur)), RemoveTailSteps(|b.items|, m), AddTailSteps(a.items, m), sem);
    AddTailRun(cur[..m], a.items, sem);
  }

  /** The whole run on two arrays whose shared elements are edited in place. */
  lemma {:induction false} ArrayRun(b: JSON, a: JSON, sem: ReplaceMeaning)
    requires b.Arr? && a.Arr? && !ValuesEqual(b, a)
    requires sem.Rfc? || forall i :: 0 <= i < Min(|b.items|, |a.items|) ==> Descends(b.items[i], a.items[i])
    ensures var o := Outcome(b, a, sem);
            var m := Min(|b.items|, |a.items|);
            && (ItemsSucceed(b, a, 0, sem) ==> o.Success?)
            && (o.Success? ==>
                  && o.value.Some? && o.value.value.Arr? && |o.value.value.items| == |a.items|
                  && (forall i :: 0 <= i < m ==> Outcome(b.items[i], a.items[i], sem) == Success(Some(o.value.value.items[i])))
                  && (forall i :: m <= i < |a.items| ==> o.value.value.items[i] == a.items[i]))
  {
    hide ItemSteps, ApplySteps, RemoveTailSteps, AddTailSteps, ValuesEqual;
    var m := Min(|b.items|, |a.items|);
    ItemRun(b, a, 0, b.items, sem);
    ApplyAppend(Some(b), ItemSteps(b, a, 0), RemoveTailSteps(|b.items|, m) + AddTailSteps(a.items, m), sem);
    var mid := ApplySteps(Some(b), ItemSteps(b, a, 0), sem);
    if mid.Success? {
      TailRun(b, a, mid.value.value.items, sem);
    }
  }

  lemma {:induction false} ArrayVerdict(b: JSON, a: JSON, sem: ReplaceMeaning)
    requires b.Arr? && a.Arr? && !ValuesEqual(b, a)
    requires sem.Rfc? || forall i :: 0 <= i < Min(|b.items|, |a.items|) ==> Descends(b.items[i], a.items[i])
    requires forall i :: 0 <= i < Min(|b.items|, |a.items|) ==> Verdict(b.items[i], a.items[i], sem)
    ensures Verdict(b, a, sem)
  {
    var m := Min(|b.items|, |a.items|);
    ArrayRun(b, a, sem);
    if sem.Rfc? || CodedSafe(b, a) {
      forall i | 0 <= i < m ensures Meets(b.items[i], a.items[i], sem) { }
      assert ItemsSucceed(b, a, 0, sem);
      forall i | m <= i < |a.items| ensures ValuesEqual(a.items[i], a.items[i]) {
        EqualReflexive(a.items[i]);
      }
    } else {
      var i :| 0 <= i < m && !CodedSafe(b.items[i], a.items[i]);
      assert Misses(b.items[i], a.items[i], sem);
    }
  }

  // ----- a coded `replace` of an array element inserts: the array ends up too long

  function Growth(step: Step): int {
    if |step.segs| != 1 then 0 else if step.change.RemoveValue? then -1 else 1
  }

  function TotalGrowth(steps: seq<Step>): int {
    if steps == [] then 0 else Growth(steps[0]) + TotalGrowth(steps[1..])
  }

  lemma {:induction false} GrowthAppend(x: seq<Step>, y: seq<Step>)
    ensures TotalGrowth(x + y) == TotalGrowth(x) + TotalGrowth(y)
  {
    if x == [] {
      assert x + y == y;
    } else {
      assert (x + y)[1..] == x[1..] + y;
      GrowthAppend(x[1..], y);
    }
  }

  lemma {:induction false} StepGrowth(xs: seq<JSON>, step: Step)
    requires step.segs != []
    ensures var r := ApplyStep(Some(Arr(xs)), step, AsCoded);
            r.Success? ==> r.value.Some? && r.value.value.Arr? && |r.value.value.items| == |xs| + Growth(step)
  {
  }

  lemma {:induction false} StepsGrowth(xs: seq<JSON>, steps: seq<Step>)
    requires Below(steps)
    ensures var r := ApplySteps(Some(Arr(xs)), steps, AsCoded);
            r.Success? ==> r.value.Some? && r.value.value.Arr? && |r.value.value.items| == |xs| + TotalGrowth(steps)
    decreases |steps|
  {
    if steps != [] {
      StepGrowth(xs, steps[0]);
      var d := ApplyStep(Some(Arr(xs)), steps[0], AsCoded);
      if d.Success? {
        StepsGrowth(d.value.value.items, steps[1..]);
      }
    }
  }

  lemma {:induction false} UnderGrowth(k: string, steps: seq<Step>)
    requires Below(steps)
    ensures TotalGrowth(UnderAll(k, steps)) == 0
  {
    if steps != [] {
      UnderGrowth(k, steps[1..]);
    }
  }

  /** How many shared elements from i on are replaced as a whole. */
  function Replacements(b: JSON, a: JSON, i: nat): nat
    requires b.Arr? && a.Arr? && i <= Min(|b.items|, |a.items|)
    decreases |a.items| - i
  {
    if i == Min(|b.items|, |a.items|) then 0
    else (if Descends(b.items[i], a.items[i]) then 0 else 1) + Replacements(b, a, i + 1)
  }

  lemma {:induction false} SomeReplacement(b: JSON, a: JSON, i: nat, j: nat)
    requires b.Arr? && a.Arr? && i <= j < Min(|b.items|, |a.items|) && !Descends(b.items[j], a.items[j])
    ensures Replacements(b, a, i) > 0
    decreases j - i
  {
    if i < j {
      SomeReplacement(b, a, i + 1, j);
    }
  }

  lemma {:induction false} ItemGrowth(k: string, b: JSON, a: JSON)
    ensures TotalGrowth(UnderAll(k, DiffSteps(b, a))) == if Descends(b, a) then 0 else 1
  {
    var steps := DiffSteps(b, a);
    DiffShape(b, a);
    if Descends(b, a) {
      UnderGrowth(k, steps);
    } else {
      assert steps[1..] == [];
      assert UnderAll(k, steps)[1..] == [];
    }
  }

  lemma {:induction false} ItemsGrowth(b: JSON, a: JSON, i: nat)
    requires b.Arr? && a.Arr? && i <= Min(|b.items|, |a.items|)
    ensures TotalGrowth(ItemSteps(b, a, i)) == Replacements(b, a, i)
    decreases |a.items| - i
  {
    hide DiffSteps, UnderAll, ValuesEqual;
    if i < Min(|b.items|, |a.items|) {
      ItemsGrowth(b, a, i + 1);
      GrowthAppend(UnderAll(Decimal(i), DiffSteps(b.items[i], a.items[i])), ItemSteps(b, a, i + 1));
      ItemGrowth(Decimal(i), b.items[i], a.items[i]);
    }
  }

  lemma {:induction false} RemoveTailGrowth(n: nat, from: nat)
    requires from <= n
    ensures TotalGrowth(RemoveTailSteps(n, from)) == from - n
  {
    if n > from {
      RemoveTailGrowth(n - 1, from);
    }
  }

  lemma {:induction false} AddTailGrowth(ys: seq<JSON>, i: nat)
    requires i <= |ys|
    ensures TotalGrowth(AddTailSteps(ys, i)) == |ys| - i
    decreases |ys| - i
  {
    if i < |ys| {
      AddTailGrowth(ys, i + 1);
    }
  }

  lemma {:induction false} ArrayTooLong(b: JSON, a: JSON, i: nat)
    requires b.Arr? && a.Arr? && i < Min(|b.items|, |a.items|) && !Descends(b.items[i], a.items[i])
    requires !ValuesEqual(b, a)
    ensures Misses(b, a, AsCoded)
  {
    var m := Min(|b.items|, |a.items|);
    DiffShape(b, a);
    StepsGrowth(b.items, DiffSteps(b, a));
    GrowthAppend(ItemSteps(b, a, 0), RemoveTailSteps(|b.items|, m) + AddTailSteps(a.items, m));
    GrowthAppend(RemoveTailSteps(|b.items|, m), AddTailSteps(a.items, m));
    ItemsGrowth(b, a, 0);
    SomeReplacement(b, a, 0, i);
    RemoveTailGrowth(|b.items|, m);
    AddTailGrowth(a.items, m);
  }

  // ----- the theorem

  lemma {:induction false} ScalarVerdict(b: JSON, a: JSON, sem: ReplaceMeaning)
    requires !Descends(b, a)
    ensures Verdict(b, a, sem)
  {
    EqualReflexive(a);
    var step := Step([], ReplaceValue(a));
    assert DiffSteps(b, a) == [step] && [step][1..] == [];
    assert ApplyStep(Some(b), step, sem) == Success(Some(a));
    assert ApplySteps(Some(a), [], sem) == Success(Some(a));
    assert Outcome(b, a, sem) == Success(Some(a));
    assert CodedSafe(b, a);
  }

  lemma {:induction false} DiffVerdict(b: JSON, a: JSON, sem: ReplaceMeaning)
    requires WF(b) && WF(a)
    ensures Verdict(b, a, sem)
    decreases a
  {
    if ValuesEqual(b, a) {
    } else if b.Obj? && a.Obj? {
      forall k | Lookup(b.fields, k).Some? && Lookup(a.fields, k).Some?
        ensures Verdict(Lookup(b.fields, k).value, Lookup(a.fields, k).value, sem)
      {
        LookupWF(b.fields, k);
        LookupWF(a.fields, k);
        DiffVerdict(Lookup(b.fields, k).value, Lookup(a.fields, k).value, sem);
      }
      ObjectVerdict(b, a, sem);
    } else if b.Arr? && a.Arr? {
      if i :| sem.AsCoded? && 0 <= i < Min(|b.items|, |a.items|) && !Descends(b.items[i], a.items[i]) {
        ArrayTooLong(b, a, i);
      } else {
        forall i | 0 <= i < Min(|b.items|, |a.items|) ensures Verdict(b.items[i], a.items[i], sem) {
          DiffVerdict(b.items[i], a.items[i], sem);
        }
        ArrayVerdict(b, a, sem);
      }
    } else {
      ScalarVerdict(b, a, sem);
    }
  }

  /** What the emitted patch means: with `replace` as RFC 6902 defines it, applying
      `diff(before, after)` to `before` always succeeds and gives a value equal to `after`. */
  lemma {:induction false} RfcRoundTrip(before: JSON, after: JSON)
    requires WF(before) && WF(after)
    ensures var r := ApplyPatch(before, DiffOps(before, after), Rfc);
            r.Success? && ValuesEqual(r.value, after)
  {
    DiffVerdict(before, after, Rfc);
    EmittedMeaning(Some(before), DiffSteps(before, after), Rfc);
  }

  /** What the repository's applier does: the same holds exactly when no shared array index
      reached by the diff needs a `replace`; otherwise the patch fails or leaves an array
      of a wrong length. */
  lemma {:induction false} CodedRoundTrip(before: JSON, after: JSON)
    requires WF(before) && WF(after)
    ensures var r := ApplyPatch(before, DiffOps(before, after), AsCoded);
            && (CodedSafe(before, after) ==> r.Success? && ValuesEqual(r.value, after))
            && (!CodedSafe(before, after) ==> r.Failure? || LenClash(r.value, after))
  {
    DiffVerdict(before, after, AsCoded);
    EmittedMeaning(Some(before), DiffSteps(before, after), AsCoded);
  }

  lemma {:induction false} OneDigitLexeme(c: char)
    requires IsDigit(c)
    ensures Num.RationalOf([c]) == Success((c as int - '0' as int) as real)
  {
    var l := Num.Lexeme(false, [c], None, None);
    assert [c] + "" == [c] && "" + [c] == [c];
    assert l.Render() == [c];
    assert [c][..0] == "" && DigitsValue("") == 0;
    assert DigitsValue([c]) == c as int - '0' as int;
    Num.RationalRender(l);
  }

  /** The smallest pair that the coded applier gets wrong: the diff of [1] and [2] is one
      `replace` at /0, and applying it gives [2,1]. */
  lemma {:induction false} ReplacedElementIsInserted()
    ensures var one, two := Arr([Num("1")]), Arr([Num("2")]);
            && DiffOps(one, two) == [Replace("/0", Some(Num("2")))]
            && ApplyPatch(one, DiffOps(one, two), AsCoded) == Success(Arr([Num("2"), Num("1")]))
            && !CodedSafe(one, two)
  {
    var x, y := Num("1"), Num("2");
    var one, two := Arr([x]), Arr([y]);
    OneDigitLexeme('1');
    OneDigitLexeme('2');
    assert !ValuesEqual(x, y);
    hide Num.RationalOf;
    assert one.items[0] == x && two.items[0] == y;
    assert !ValuesEqual(one, two);
    var step := Step([], ReplaceValue(y));
    assert DiffSteps(x, y) == [step] && [step][1..] == [];
    SingleItemDiff(one, two, step);
    PointerZero();
    ElementInserted(x, y);
  }

  lemma {:induction false} SingleItemDiff(b: JSON, a: JSON, step: Step)
    requires b.Arr? && a.Arr? && |b.items| == |a.items| == 1 && !ValuesEqual(b, a)
    requires DiffSteps(b.items[0], a.items[0]) == [step] && step.segs == []
    ensures DiffSteps(b, a) == [Step([Decimal(0)], step.change)]
  {
    hide ValuesEqual, Decimal;
    assert [step][1..] == [] && UnderAll(Decimal(0), []) == [];
    assert [Decimal(0)] + [] == [Decimal(0)];
    assert UnderAll(Decimal(0), [step]) == [Under(Decimal(0), step)];
    assert ItemSteps(b, a, 1) == [];
    assert ItemSteps(b, a, 0) == [Under(Decimal(0), step)];
    assert RemoveTailSteps(1, 1) == [] && AddTailSteps(a.items, 1) == [];
  }

  lemma {:induction false} PointerZero()
    ensures FormatPointer([Decimal(0)]) == "/0" && Decimal(0) == "0"
  {
    assert Decimal(0) == "0";
    FormatCons("0", []);
    assert ["0"] + [] == ["0"];
    EscapeCons('0', "");
    assert ['0'] + "" == "0";
  }

  lemma {:induction false} ElementInserted(x: JSON, y: JSON)
    requires DiffSteps(Arr([x]), Arr([y])) == [Step([Decimal(0)], ReplaceValue(y))]
    requires FormatPointer([Decimal(0)]) == "/0"
    ensures DiffOps(Arr([x]), Arr([y])) == [Replace("/0", Some(y))]
    ensures ApplyPatch(Arr([x]), DiffOps(Arr([x]), Arr([y])), AsCoded) == Success(Arr([y, x]))
  {
    hide DiffSteps, FormatPointer, Decimal;
    var step := Step([Decimal(0)], ReplaceValue(y));
    assert [step][1..] == [] && [] + step.segs == step.segs;
    IndexRoundTrip(0, false);
    IndexRoundTrip(0, true);
    assert [x][..0] + [y] + [x][0..] == [y, x];
    assert Get(Some(Arr([x])), [Decimal(0)]) == Success(Some(x));
    assert ApplyStep(Some(Arr([x])), step, AsCoded) == Success(Some(Arr([y, x])));
    EmittedMeaning(Some(Arr([x])), [step], AsCoded);
  }
}
