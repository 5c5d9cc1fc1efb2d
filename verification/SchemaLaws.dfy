/** Laws of schema normalisation: congruence for equality, normal form, idempotence. */
module SchemaLaws {
  import opened Wrappers
  import opened Number
  import opened Value
  import opened Schema
  import RoundTrip

  // ----- congruence

  /** Both fail, or both succeed with equal results. */
  predicate SameResult(a: Result<JSON, Error>, b: Result<JSON, Error>) {
    && (a.Success? <==> b.Success?)
    && (a.Success? ==> ValuesEqual(a.value, b.value))
  }

  predicate SameSlotResult(a: Result<Option<JSON>, Error>, b: Result<Option<JSON>, Error>) {
    && (a.Success? <==> b.Success?)
    && (a.Success? ==> SlotsEqual(a.value, b.value))
  }

  lemma {:induction false} CongruentNumbers(x: string, y: string, e: Entry)
    requires ValuesEqualNumber(x, y)
    ensures RationalOf(x).Success? <==> RationalOf(y).Success?
    ensures NumberOk(x, e) <==> NumberOk(y, e)
  {
  }

  lemma {:induction false} CongruentLeaves(a: JSON, b: JSON, e: Entry)
    requires ValuesEqual(a, b) && !a.Obj? && !a.Arr?
    ensures SameResult(Normalize(a, e), Normalize(b, e))
  {
    if a.Num? { CongruentNumbers(a.text, b.text, e); }
  }

  lemma {:induction false} CongruentElements(xs: seq<JSON>, ys: seq<JSON>, e: Entry)
    requires |xs| == |ys| && e.kind.ArrayKind? && e.items.Some?
    requires forall i :: 0 <= i < |xs| ==> SameResult(Normalize(xs[i], e.items.value), Normalize(ys[i], e.items.value))
    ensures SameResult(Normalize(Arr(xs), e), Normalize(Arr(ys), e))
  {
    ElementsForm(xs, e, 0);
    ElementsForm(ys, e, 0);
    var r, s := Elements(xs, e, 0), Elements(ys, e, 0);
    assert r.Success? <==> s.Success?;
    if r.Success? {
      forall i | 0 <= i < |xs| ensures ValuesEqual(r.value[i], s.value[i]) {
        assert SameResult(Normalize(xs[i], e.items.value), Normalize(ys[i], e.items.value));
      }
    }
  }

  /** If two values are equal up to key order and number spelling, the schema accepts both or
      neither, and normalises them to equal values. */
  lemma {:induction false} Congruence(a: JSON, b: JSON, e: Entry)
    requires WFEntry(e) && WF(a) && WF(b) && ValuesEqual(a, b)
    ensures SameResult(Normalize(a, e), Normalize(b, e))
    decreases e, 1
  {
    if a.Obj? {
      if e.kind.ObjectKind? { CongruentObjects(a.fields, b.fields, e); }
    } else if a.Arr? {
      if e.kind.ArrayKind? && e.items.Some? {
        forall i | 0 <= i < |a.items|
          ensures SameResult(Normalize(a.items[i], e.items.value), Normalize(b.items[i], e.items.value))
        {
          Congruence(a.items[i], b.items[i], e.items.value);
        }
        CongruentElements(a.items, b.items, e);
      }
    } else {
      CongruentLeaves(a, b, e);
    }
  }

  lemma {:induction false} CongruentSlot(s: Option<JSON>, t: Option<JSON>, c: Entry)
    requires SlotsEqual(s, t)
    requires s.Some? ==> SameResult(Normalize(s.value, c), Normalize(t.value, c))
    ensures SameSlotResult(ChildSlot(s, c), ChildSlot(t, c))
  {
    if s.None? {
      var r := ChildSlot(s, c);
      if r.Success? && r.value.Some? {
        EqualReflexive(r.value.value);
      }
    }
  }

  lemma {:induction false} KnownSucceeds(source: map<string, JSON>, e: Entry, i: nat)
    requires i <= |e.children|
    ensures KnownFields(source, e, i).Success?
            <==> forall j :: i <= j < |e.children| ==> ChildSlot(Slot(source, e.children[j].name), e.children[j]).Success?
    decreases |e.children| - i
  {
    if i < |e.children| {
      KnownSucceeds(source, e, i + 1);
    }
  }

  /** An object is accepted exactly when every child slot is. */
  lemma {:induction false} ObjectSucceeds(fs: seq<Field>, e: Entry)
    requires WFEntry(e) && Distinct(fs) && e.kind.ObjectKind?
    ensures Normalize(Obj(fs), e).Success?
            <==> forall j :: 0 <= j < |e.children| ==> ChildSlot(Lookup(fs, e.children[j].name), e.children[j]).Success?
  {
    ObjectForm(fs, e);
    KnownSucceeds(Dict(fs), e, 0);
    forall j | 0 <= j < |e.children|
      ensures Slot(Dict(fs), e.children[j].name) == Lookup(fs, e.children[j].name)
    {
      DictLookup(fs, e.children[j].name);
    }
  }

  /** What becomes of one child of an object: a present value must be accepted and is normalised; an
      absent one takes its default, normalised, when it has one; without a default it is refused
      when required, and stays absent when not. */
  lemma {:induction false} ChildOutcome(fs: seq<Field>, e: Entry, j: nat)
    requires WFEntry(e) && Distinct(fs) && e.kind.ObjectKind? && j < |e.children|
    ensures var c := e.children[j];
            var given := if Lookup(fs, c.name).Some? then Lookup(fs, c.name) else c.default;
            var r := Normalize(Obj(fs), e);
            && (given.Some? && Normalize(given.value, c).Failure? ==> r.Failure?)
            && (given.None? && c.required ==> r.Failure?)
            && (r.Success? ==>
                  && r.value.Obj?
                  && Lookup(r.value.fields, c.name) == if given.Some? then Some(Normalize(given.value, c).value) else None)
  {
    ObjectSucceeds(fs, e);
    var c := e.children[j];
    assert ChildSlot(Lookup(fs, c.name), c).Success? || Normalize(Obj(fs), e).Failure?;
    hide Normalize;
    if Normalize(Obj(fs), e).Success? {
      NormalizedLookup(fs, e, c.name);
    }
  }

  /** An array is accepted exactly when each element is, and the result holds their normal forms in
      place; without an element schema it is taken as it is. */
  lemma {:induction false} ArrayOutcome(xs: seq<JSON>, e: Entry)
    requires e.kind.ArrayKind?
    ensures var r := Normalize(Arr(xs), e);
            if e.items.None? then r == Success(Arr(xs))
            else
              && (r.Success? <==> forall i :: 0 <= i < |xs| ==> Normalize(xs[i], e.items.value).Success?)
              && (r.Success? ==>
                    && r.value.Arr? && |r.value.items| == |xs|
                    && forall i :: 0 <= i < |xs| ==> Normalize(xs[i], e.items.value) == Success(r.value.items[i]))
  {
    if e.items.Some? { ElementsForm(xs, e, 0); }
  }

  ghost predicate CongruentChildren(fs: seq<Field>, gs: seq<Field>, e: Entry) {
    forall j :: 0 <= j < |e.children| ==>
      var c := e.children[j];
      SameSlotResult(ChildSlot(Lookup(fs, c.name), c), ChildSlot(Lookup(gs, c.name), c))
  }

  lemma {:induction false} CongruentObjects(fs: seq<Field>, gs: seq<Field>, e: Entry)
    requires WFEntry(e) && WF(Obj(fs)) && WF(Obj(gs)) && ValuesEqual(Obj(fs), Obj(gs)) && e.kind.ObjectKind?
    ensures SameResult(Normalize(Obj(fs), e), Normalize(Obj(gs), e))
    decreases e, 0
  {
    ObjectsEqualIff(fs, gs);
    forall j | 0 <= j < |e.children|
      ensures var c := e.children[j];
              SameSlotResult(ChildSlot(Lookup(fs, c.name), c), ChildSlot(Lookup(gs, c.name), c))
    {
      var c := e.children[j];
      var s, t := Lookup(fs, c.name), Lookup(gs, c.name);
      assert SlotsEqual(s, t);
      if s.Some? {
        LookupWF(fs, c.name);
        LookupWF(gs, c.name);
        Congruence(s.value, t.value, c);
      }
      CongruentSlot(s, t, c);
    }
    CongruentResults(fs, gs, e);
  }

  lemma {:induction false} CongruentResults(fs: seq<Field>, gs: seq<Field>, e: Entry)
    requires WFEntry(e) && Distinct(fs) && Distinct(gs) && e.kind.ObjectKind?
    requires SameFields(fs, gs) && CongruentChildren(fs, gs, e)
    ensures SameResult(Normalize(Obj(fs), e), Normalize(Obj(gs), e))
  {
    ObjectSucceeds(fs, e);
    ObjectSucceeds(gs, e);
    if Normalize(Obj(fs), e).Success? {
      NormalizedDistinct(fs, e);
      NormalizedDistinct(gs, e);
      var out, out' := Normalize(Obj(fs), e).value.fields, Normalize(Obj(gs), e).value.fields;
      forall k ensures SlotsEqual(Lookup(out, k), Lookup(out', k)) {
        NormalizedLookup(fs, e, k);
        NormalizedLookup(gs, e, k);
        assert SlotsEqual(Lookup(fs, k), Lookup(gs, k));
        if IsChildName(e, k) {
          var j :| 0 <= j < |e.children| && e.children[j].name == k;
        }
      }
      SameFieldsEqual(out, out');
    }
  }

  // ----- the result is well-formed

  predicate DefaultsWF(e: Entry) {
    && (e.default.Some? ==> WF(e.default.value))
    && (forall i :: 0 <= i < |e.children| ==> DefaultsWF(e.children[i]))
    && (e.items.Some? ==> DefaultsWF(e.items.value))
  }

  lemma {:induction false} NormalizedWF(v: JSON, e: Entry)
    requires WFEntry(e) && DefaultsWF(e) && WF(v) && Normalize(v, e).Success?
    ensures WF(Normalize(v, e).value)
    decreases e
  {
    if v.Obj? {
      NormalizedDistinct(v.fields, e);
      var out := Normalize(v, e).value.fields;
      forall i | 0 <= i < |out| ensures WF(out[i].value) {
        var k := out[i].key;
        LookupIndex(out, i);
        NormalizedLookup(v.fields, e, k);
        if Lookup(v.fields, k).Some? { LookupWF(v.fields, k); }
        if IsChildName(e, k) {
          var j :| 0 <= j < |e.children| && e.children[j].name == k;
          var c := e.children[j];
          NormalizedWF(if Lookup(v.fields, k).Some? then Lookup(v.fields, k).value else c.default.value, c);
        }
      }
    } else if v.Arr? && e.items.Some? {
      ElementsForm(v.items, e, 0);
      var out := Normalize(v, e).value.items;
      forall i | 0 <= i < |out| ensures WF(out[i]) {
        NormalizedWF(v.items[i], e.items.value);
      }
    }
  }

  // ----- the normal form

  /** Values that need no normalising: right kind and constraints at every level, the present
      children first and in schema order, no required or defaulted child missing, then only
      fields the schema does not name. */
  predicate Conforms(v: JSON, e: Entry)
    decreases v
  {
    match v
    case Null => e.kind.NullKind? || e.nullable
    case Bool(_) => e.kind.BooleanKind?
    case Str(s) => e.kind.StringKind? && StringOk(s, e)
    case Num(text) => e.kind.NumberKind? && NumberOk(text, e)
    case Arr(items) =>
      e.kind.ArrayKind? && (e.items.Some? ==> forall i :: 0 <= i < |items| ==> Conforms(items[i], e.items.value))
    case Obj(fs) => e.kind.ObjectKind? && FieldsConform(v, 0, e, 0)
  }

  /** Fields n and up of an object against children i and up. */
  predicate FieldsConform(v: JSON, n: nat, e: Entry, i: nat)
    requires v.Obj? && n <= |v.fields| && i <= |e.children|
    decreases v, |v.fields| - n, |e.children| - i
  {
    if i == |e.children| then forall j :: n <= j < |v.fields| ==> !IsChildName(e, v.fields[j].key)
    else
      var c := e.children[i];
      if n < |v.fields| && v.fields[n].key == c.name then
        Conforms(v.fields[n].value, c) && FieldsConform(v, n + 1, e, i + 1)
      else c.default.None? && !c.required && FieldsConform(v, n, e, i + 1)
  }

  lemma {:induction false} NotThere(fs: seq<Field>, k: string)
    requires forall j :: 0 <= j < |fs| ==> fs[j].key != k
    ensures Lookup(fs, k).None?
  {
    if fs != [] { NotThere(fs[1..], k); }
  }

  /** A child absent from a conforming tail does not occur in it. */
  lemma {:induction false} TailHasNo(v: JSON, n: nat, e: Entry, i: nat, k: string)
    requires v.Obj? && n <= |v.fields| && i <= |e.children| && FieldsConform(v, n, e, i)
    requires IsChildName(e, k) && forall j :: i <= j < |e.children| ==> e.children[j].name != k
    ensures Lookup(v.fields[n..], k).None?
    decreases |e.children| - i, |v.fields| - n
  {
    if i == |e.children| {
      assert forall j :: 0 <= j < |v.fields[n..]| ==> v.fields[n..][j] == v.fields[n + j];
      NotThere(v.fields[n..], k);
    } else if n < |v.fields| && v.fields[n].key == e.children[i].name {
      TailHasNo(v, n + 1, e, i + 1, k);
      assert v.fields[n..][1..] == v.fields[n + 1..];
    } else {
      TailHasNo(v, n, e, i + 1, k);
    }
  }

  lemma {:induction false} AllUnknown(fs: seq<Field>, e: Entry)
    requires forall j :: 0 <= j < |fs| ==> !IsChildName(e, fs[j].key)
    ensures UnknownFields(fs, e) == fs
  {
    if fs != [] {
      AllUnknown(fs[1..], e);
      assert fs == [fs[0]] + fs[1..];
    }
  }

  /** Normalising a conforming object finds every child where it stands. */
  lemma {:induction false} ConformingFields(v: JSON, n: nat, e: Entry, i: nat, source: map<string, JSON>)
    requires v.Obj? && n <= |v.fields| && i <= |e.children| && WFEntry(e) && Distinct(v.fields[n..])
    requires FieldsConform(v, n, e, i)
    requires forall j :: i <= j < |e.children| ==> Slot(source, e.children[j].name) == Lookup(v.fields[n..], e.children[j].name)
    requires forall m :: 0 <= m < |v.fields| ==> WF(v.fields[m].value)
    ensures var known := KnownFields(source, e, i);
            known.Success? && known.value + UnknownFields(v.fields[n..], e) == v.fields[n..]
    decreases v, |e.children| - i
  {
    var tail := v.fields[n..];
    if i == |e.children| {
      AllUnknown(tail, e);
      assert [] + tail == tail;
    } else {
      var c := e.children[i];
      assert IsChildName(e, c.name);
      if n < |v.fields| && v.fields[n].key == c.name {
        assert tail[1..] == v.fields[n + 1..] && tail[0] == v.fields[n];
        forall j | i + 1 <= j < |e.children|
          ensures Slot(source, e.children[j].name) == Lookup(tail[1..], e.children[j].name) { }
        ConformingFields(v, n + 1, e, i + 1, source);
        ConformingFixed(v.fields[n].value, c);
        ConsKnown(tail, KnownFields(source, e, i + 1).value, e);
      } else {
        TailHasNo(v, n, e, i + 1, c.name);
        ConformingFields(v, n, e, i + 1, source);
        var known := KnownFields(source, e, i + 1).value;
        assert [] + known == known;
      }
    }
  }

  lemma {:induction false} ConsKnown(tail: seq<Field>, known: seq<Field>, e: Entry)
    requires tail != [] && IsChildName(e, tail[0].key) && known + UnknownFields(tail[1..], e) == tail[1..]
    ensures ([Field(tail[0].key, tail[0].value)] + known) + UnknownFields(tail, e) == tail
  {
    var u := UnknownFields(tail[1..], e);
    assert UnknownFields(tail, e) == [] + u == u;
    hide UnknownFields, IsChildName;
    assert Field(tail[0].key, tail[0].value) == tail[0];
    assert ([tail[0]] + known) + u == [tail[0]] + (known + u) == tail;
  }

  lemma {:induction false} ConformingFixed(v: JSON, e: Entry)
    requires WFEntry(e) && WF(v) && Conforms(v, e)
    ensures Normalize(v, e) == Success(v)
    decreases v
  {
    if v.Obj? {
      var fs := v.fields;
      assert fs[0..] == fs;
      forall j | 0 <= j < |e.children|
        ensures Slot(Dict(fs), e.children[j].name) == Lookup(fs, e.children[j].name)
      {
        DictLookup(fs, e.children[j].name);
      }
      ConformingFields(v, 0, e, 0, Dict(fs));
      ObjectForm(fs, e);
    } else if v.Arr? && e.items.Some? {
      forall i | 0 <= i < |v.items| ensures Normalize(v.items[i], e.items.value) == Success(v.items[i]) {
        ConformingFixed(v.items[i], e.items.value);
      }
      ElementsForm(v.items, e, 0);
      assert Normalize(v, e).value.items == v.items;
    }
  }

  /** The fields of a result, read from child i and field n on, conform. */
  lemma {:induction false} ResultFields(r: JSON, n: nat, e: Entry, i: nat, source: map<string, JSON>, unknown: seq<Field>)
    requires r.Obj? && n <= |r.fields| && i <= |e.children| && WFEntry(e)
    requires KnownFields(source, e, i).Success? && r.fields[n..] == KnownFields(source, e, i).value + unknown
    requires forall j :: 0 <= j < |unknown| ==> !IsChildName(e, unknown[j].key)
    requires forall j :: i <= j < |e.children| ==>
               var s := ChildSlot(Slot(source, e.children[j].name), e.children[j]);
               s.Success? && s.value.Some? ==> Conforms(s.value.value, e.children[j])
    ensures FieldsConform(r, n, e, i)
    decreases |e.children| - i
  {
    if i == |e.children| {
      assert [] + unknown == unknown;
      assert forall j :: n <= j < |r.fields| ==> r.fields[j] == r.fields[n..][j - n];
    } else {
      var c := e.children[i];
      var s := ChildSlot(Slot(source, c.name), c).value;
      var rest := KnownFields(source, e, i + 1).value;
      if s.Some? {
        var f := Field(c.name, s.value);
        assert ([f] + rest) + unknown == [f] + (rest + unknown);
        assert r.fields[n] == r.fields[n..][0] == f;
        assert r.fields[n + 1..] == r.fields[n..][1..] == rest + unknown;
        ResultFields(r, n + 1, e, i + 1, source, unknown);
      } else {
        assert [] + rest == rest;
        ResultFields(r, n, e, i + 1, source, unknown);
        KnownLookup(source, e, i + 1, c.name);
        if n < |r.fields| && r.fields[n].key == c.name {
          NextKey(source, e, i + 1, unknown, c.name);
        }
      }
    }
  }

  /** The first field of the rest belongs to a later child or is unknown. */
  lemma {:induction false} NextKey(source: map<string, JSON>, e: Entry, i: nat, unknown: seq<Field>, k: string)
    requires 0 < i <= |e.children| && WFEntry(e) && e.children[i - 1].name == k
    requires KnownFields(source, e, i).Success?
    requires forall j :: 0 <= j < |unknown| ==> !IsChildName(e, unknown[j].key)
    ensures var tail := KnownFields(source, e, i).value + unknown;
            tail != [] ==> tail[0].key != k
  {
    var known := KnownFields(source, e, i).value;
    KnownLookup(source, e, i, k);
    assert IsChildName(e, k);
    assert known != [] ==> known[0].key != k;
  }

  lemma {:induction false} UnknownKeys(fs: seq<Field>, e: Entry)
    ensures forall j :: 0 <= j < |UnknownFields(fs, e)| ==> !IsChildName(e, UnknownFields(fs, e)[j].key)
  {
    if fs != [] {
      UnknownKeys(fs[1..], e);
    }
  }

  lemma {:induction false} ResultConforms(v: JSON, e: Entry)
    requires WFEntry(e) && DefaultsWF(e) && WF(v) && Normalize(v, e).Success?
    ensures Conforms(Normalize(v, e).value, e)
    decreases e
  {
    if v.Obj? {
      var fs := v.fields;
      var source := Dict(fs);
      ObjectForm(fs, e);
      UnknownKeys(fs, e);
      forall j | 0 <= j < |e.children|
        ensures var s := ChildSlot(Slot(source, e.children[j].name), e.children[j]);
                s.Success? && s.value.Some? ==> Conforms(s.value.value, e.children[j])
      {
        var c := e.children[j];
        var slot := Slot(source, c.name);
        DictLookup(fs, c.name);
        var s := ChildSlot(slot, c);
        if s.Success? && s.value.Some? {
          if slot.Some? { LookupWF(fs, c.name); }
          ResultConforms(if slot.Some? then slot.value else c.default.value, c);
        }
      }
      var r := Normalize(v, e).value;
      assert r.fields[0..] == r.fields;
      ResultFields(r, 0, e, 0, source, UnknownFields(fs, e));
    } else if v.Arr? && e.items.Some? {
      ElementsForm(v.items, e, 0);
      var out := Normalize(v, e).value.items;
      forall i | 0 <= i < |out| ensures Conforms(out[i], e.items.value) {
        ResultConforms(v.items[i], e.items.value);
      }
    }
  }

  /** The conforming values are exactly the fixed points of normalisation. */
  lemma {:induction false} ConformsIffFixed(v: JSON, e: Entry)
    requires WFEntry(e) && DefaultsWF(e) && WF(v)
    ensures Conforms(v, e) <==> Normalize(v, e) == Success(v)
  {
    if Conforms(v, e) { ConformingFixed(v, e); }
    if Normalize(v, e) == Success(v) { ResultConforms(v, e); }
  }

  /** Normalising twice is normalising once. */
  lemma {:induction false} Idempotent(v: JSON, e: Entry)
    requires WFEntry(e) && DefaultsWF(e) && WF(v) && Normalize(v, e).Success?
    ensures var r := Normalize(v, e).value;
            WF(r) && Conforms(r, e) && Normalize(r, e) == Success(r)
  {
    NormalizedWF(v, e);
    ResultConforms(v, e);
    ConformingFixed(Normalize(v, e).value, e);
  }

  // ----- normalising hides no array of a wrong length

  lemma {:induction false} ClashSurvives(r: JSON, a: JSON, e: Entry)
    requires WFEntry(e) && WF(r) && RoundTrip.LenClash(r, a) && Normalize(r, e).Success?
    ensures RoundTrip.LenClash(Normalize(r, e).value, a)
    decreases e
  {
    if r.Obj? {
      var fs, gs := r.fields, a.fields;
      var k :| Lookup(fs, k).Some? && Lookup(gs, k).Some? && RoundTrip.LenClash(Lookup(fs, k).value, Lookup(gs, k).value);
      NormalizedLookup(fs, e, k);
      var out := Normalize(r, e).value.fields;
      if IsChildName(e, k) {
        var j :| 0 <= j < |e.children| && e.children[j].name == k;
        LookupWF(fs, k);
        ClashSurvives(Lookup(fs, k).value, Lookup(gs, k).value, e.children[j]);
      }
      assert RoundTrip.LenClash(Lookup(out, k).value, Lookup(gs, k).value);
    } else if e.items.Some? {
      ElementsForm(r.items, e, 0);
      if |r.items| == |a.items| {
        var i :| 0 <= i < |r.items| && RoundTrip.LenClash(r.items[i], a.items[i]);
        ClashSurvives(r.items[i], a.items[i], e.items.value);
        assert RoundTrip.LenClash(Normalize(r, e).value.items[i], a.items[i]);
      }
    }
  }
}
