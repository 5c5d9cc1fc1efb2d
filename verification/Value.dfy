/** Ordered JSON values, their fields, and equality up to key order and number spelling.
    Absence (the Void sentinel) is `None`: no value stores it, as no constructor of the
    repository does. */
module Value {
  import opened Wrappers
  import opened Number

  datatype JSON =
    | Null
    | Bool(b: bool)
    | Str(s: string)
    | Num(text: string)
    | Arr(items: seq<JSON>)
    | Obj(fields: seq<Field>)

  datatype Field = Field(key: string, value: JSON)

  // ----- the ordered field list of an object

  /** `get`: the first field of that name. */
  function Lookup(fs: seq<Field>, k: string): (r: Option<JSON>)
    ensures r.Some? ==> Field(k, r.value) in fs
  {
    if fs == [] then None
    else if fs[0].key == k then
      assert Field(k, fs[0].value) == fs[0];
      Some(fs[0].value)
    else Lookup(fs[1..], k)
  }

  /** `set`: overwrite in place, or append. */
  function SetField(fs: seq<Field>, k: string, v: JSON): seq<Field> {
    if fs == [] then [Field(k, v)]
    else if fs[0].key == k then [Field(k, v)] + fs[1..]
    else [fs[0]] + SetField(fs[1..], k, v)
  }

  /** `remove`: delete the first field of that name. */
  function RemoveField(fs: seq<Field>, k: string): seq<Field> {
    if fs == [] then []
    else if fs[0].key == k then fs[1..]
    else [fs[0]] + RemoveField(fs[1..], k)
  }

  /** No key occurs twice. */
  predicate Distinct(fs: seq<Field>) {
    fs == [] || (Lookup(fs[1..], fs[0].key).None? && Distinct(fs[1..]))
  }

  /** What every constructor and mutator keeps: distinct keys in every object. */
  predicate WF(v: JSON) {
    match v
    case Arr(items) => forall i :: 0 <= i < |items| ==> WF(items[i])
    case Obj(fs) => Distinct(fs) && forall i :: 0 <= i < |fs| ==> WF(fs[i].value)
    case _ => true
  }

  lemma {:induction false} LookupWF(fs: seq<Field>, k: string)
    requires WF(Obj(fs)) && Lookup(fs, k).Some?
    ensures WF(Lookup(fs, k).value)
  {
    var i :| 0 <= i < |fs| && fs[i] == Field(k, Lookup(fs, k).value);
  }

  /** `{k: v for k, v in items_non_void()}`: later fields win. */
  function Dict(fs: seq<Field>): (m: map<string, JSON>)
    ensures forall k :: k in m ==> Field(k, m[k]) in fs
  {
    if fs == [] then map[]
    else
      var last := fs[|fs| - 1];
      var m := Dict(fs[..|fs| - 1]);
      assert Field(last.key, last.value) == last;
      m[last.key := last.value]
  }

  /** A field at the end overrides. */
  lemma {:induction false} DictAppend(fs: seq<Field>, f: Field)
    ensures Dict(fs + [f]) == Dict(fs)[f.key := f.value]
  {
    assert (fs + [f])[..|fs|] == fs;
  }

  lemma {:induction false} LookupSet(fs: seq<Field>, k: string, v: JSON, j: string)
    ensures Lookup(SetField(fs, k, v), j) == if j == k then Some(v) else Lookup(fs, j)
  {
    if fs == [] {
      assert [Field(k, v)][1..] == [];
    } else if fs[0].key == k {
      assert ([Field(k, v)] + fs[1..])[1..] == fs[1..];
    } else {
      LookupSet(fs[1..], k, v, j);
      assert SetField(fs, k, v)[1..] == SetField(fs[1..], k, v);
    }
  }

  lemma {:induction false} LookupRemoveOther(fs: seq<Field>, k: string, j: string)
    requires j != k
    ensures Lookup(RemoveField(fs, k), j) == Lookup(fs, j)
  {
    if fs != [] && fs[0].key != k {
      LookupRemoveOther(fs[1..], k, j);
      assert RemoveField(fs, k)[1..] == RemoveField(fs[1..], k);
    }
  }

  lemma {:induction false} LookupRemoved(fs: seq<Field>, k: string)
    requires Distinct(fs)
    ensures Lookup(RemoveField(fs, k), k).None?
  {
    if fs != [] && fs[0].key != k {
      LookupRemoved(fs[1..], k);
      assert RemoveField(fs, k)[1..] == RemoveField(fs[1..], k);
    }
  }

  lemma {:induction false} DistinctSet(fs: seq<Field>, k: string, v: JSON)
    requires Distinct(fs)
    ensures Distinct(SetField(fs, k, v))
  {
    if fs == [] {
      assert [Field(k, v)][1..] == [];
    } else if fs[0].key == k {
      assert ([Field(k, v)] + fs[1..])[1..] == fs[1..];
    } else {
      DistinctSet(fs[1..], k, v);
      LookupSet(fs[1..], k, v, fs[0].key);
      assert SetField(fs, k, v)[1..] == SetField(fs[1..], k, v);
    }
  }

  lemma {:induction false} DistinctRemove(fs: seq<Field>, k: string)
    requires Distinct(fs)
    ensures Distinct(RemoveField(fs, k))
  {
    if fs != [] && fs[0].key != k {
      DistinctRemove(fs[1..], k);
      LookupRemoveOther(fs[1..], k, fs[0].key);
      assert RemoveField(fs, k)[1..] == RemoveField(fs[1..], k);
    }
  }

  lemma {:induction false} SetSet(fs: seq<Field>, k: string, v: JSON, w: JSON)
    ensures SetField(SetField(fs, k, v), k, w) == SetField(fs, k, w)
  {
    if fs != [] {
      if fs[0].key == k {
        assert ([Field(k, v)] + fs[1..])[1..] == fs[1..];
      } else {
        SetSet(fs[1..], k, v, w);
        assert SetField(fs, k, v)[1..] == SetField(fs[1..], k, v);
      }
    } else {
      assert [Field(k, v)][1..] == [];
    }
  }

  lemma {:induction false} SetSame(fs: seq<Field>, k: string)
    requires Lookup(fs, k).Some?
    ensures SetField(fs, k, Lookup(fs, k).value) == fs
  {
    assert fs == [fs[0]] + fs[1..];
    if fs[0].key == k {
      assert Field(k, fs[0].value) == fs[0];
    } else {
      SetSame(fs[1..], k);
    }
  }

  lemma {:induction false} RemoveAppended(fs: seq<Field>, k: string, v: JSON)
    requires Lookup(fs, k).None?
    ensures SetField(fs, k, v) == fs + [Field(k, v)]
    ensures RemoveField(SetField(fs, k, v), k) == fs
  {
    if fs != [] {
      RemoveAppended(fs[1..], k, v);
      assert fs == [fs[0]] + fs[1..];
      assert SetField(fs, k, v)[1..] == SetField(fs[1..], k, v);
    }
  }

  lemma {:induction false} LookupIndex(fs: seq<Field>, i: nat)
    requires Distinct(fs) && i < |fs|
    ensures Lookup(fs, fs[i].key) == Some(fs[i].value)
  {
    if i > 0 {
      LookupIndex(fs[1..], i - 1);
      assert fs[i] == fs[1..][i - 1];
      assert Lookup(fs[1..], fs[i].key).Some?;
    }
  }

  lemma {:induction false} LookupAppend(fs: seq<Field>, gs: seq<Field>, k: string)
    ensures Lookup(fs + gs, k) == if Lookup(fs, k).Some? then Lookup(fs, k) else Lookup(gs, k)
  {
    if fs == [] {
      assert fs + gs == gs;
    } else {
      assert (fs + gs)[1..] == fs[1..] + gs;
      LookupAppend(fs[1..], gs, k);
    }
  }

  lemma {:induction false} DistinctAppend(fs: seq<Field>, gs: seq<Field>)
    requires Distinct(fs + gs)
    ensures Distinct(fs) && Distinct(gs)
    ensures forall k :: Lookup(fs, k).Some? ==> Lookup(gs, k).None?
  {
    if fs == [] {
      assert fs + gs == gs;
    } else {
      assert (fs + gs)[1..] == fs[1..] + gs;
      DistinctAppend(fs[1..], gs);
      LookupAppend(fs[1..], gs, fs[0].key);
    }
  }

  /** On distinct keys the dictionary and the first-match lookup agree. */
  lemma {:induction false} DictLookup(fs: seq<Field>, k: string)
    requires Distinct(fs)
    ensures (k in Dict(fs) <==> Lookup(fs, k).Some?)
    ensures k in Dict(fs) ==> Lookup(fs, k) == Some(Dict(fs)[k])
  {
    if fs != [] {
      var init, last := fs[..|fs| - 1], fs[|fs| - 1];
      assert fs == init + [last];
      DistinctAppend(init, [last]);
      DictLookup(init, k);
      LookupAppend(init, [last], k);
      assert [last][1..] == [];
      assert Lookup([last], last.key).Some?;
    }
  }

  // ----- equality

  /** `values_equal` on values. */
  predicate ValuesEqual(a: JSON, b: JSON)
    decreases a
  {
    match (a, b)
    case (Null, Null) => true
    case (Bool(x), Bool(y)) => x == y
    case (Str(x), Str(y)) => x == y
    case (Num(x), Num(y)) => ValuesEqualNumber(x, y)
    case (Arr(xs), Arr(ys)) => |xs| == |ys| && forall i :: 0 <= i < |xs| ==> ValuesEqual(xs[i], ys[i])
    case (Obj(fs), Obj(gs)) =>
      var am, bm := Dict(fs), Dict(gs);
      am.Keys == bm.Keys && forall k :: k in am ==> ValuesEqual(am[k], bm[k])
    case _ => false
  }

  /** `values_equal` on a value or Void. */
  predicate SlotsEqual(a: Option<JSON>, b: Option<JSON>) {
    match (a, b)
    case (None, None) => true
    case (Some(x), Some(y)) => ValuesEqual(x, y)
    case _ => false
  }

  lemma {:induction false} EqualReflexive(a: JSON)
    ensures ValuesEqual(a, a)
  {
    match a
    case Arr(xs) =>
      forall i | 0 <= i < |xs| ensures ValuesEqual(xs[i], xs[i]) {
        EqualReflexive(xs[i]);
      }
    case Obj(fs) =>
      var m := Dict(fs);
      forall k | k in m ensures ValuesEqual(m[k], m[k]) {
        EqualReflexive(m[k]);
      }
    case _ =>
  }

  lemma {:induction false} EqualSymmetric(a: JSON, b: JSON)
    requires ValuesEqual(a, b)
    ensures ValuesEqual(b, a)
  {
    match (a, b)
    case (Arr(xs), Arr(ys)) =>
      forall i | 0 <= i < |xs| ensures ValuesEqual(ys[i], xs[i]) {
        EqualSymmetric(xs[i], ys[i]);
      }
    case (Obj(fs), Obj(gs)) =>
      var am, bm := Dict(fs), Dict(gs);
      forall k | k in bm ensures ValuesEqual(bm[k], am[k]) {
        EqualSymmetric(am[k], bm[k]);
      }
    case _ =>
  }

  lemma {:induction false} EqualTransitive(a: JSON, b: JSON, c: JSON)
    requires ValuesEqual(a, b) && ValuesEqual(b, c)
    ensures ValuesEqual(a, c)
  {
    match (a, b, c)
    case (Arr(xs), Arr(ys), Arr(zs)) =>
      forall i | 0 <= i < |xs| ensures ValuesEqual(xs[i], zs[i]) {
        EqualTransitive(xs[i], ys[i], zs[i]);
      }
    case (Obj(fs), Obj(gs), Obj(hs)) =>
      var am, bm, cm := Dict(fs), Dict(gs), Dict(hs);
      forall k | k in am ensures ValuesEqual(am[k], cm[k]) {
        EqualTransitive(am[k], bm[k], cm[k]);
      }
    case _ =>
  }

  /** Every key reads equal on both sides. */
  ghost predicate SameFields(fs: seq<Field>, gs: seq<Field>) {
    forall k :: SlotsEqual(Lookup(fs, k), Lookup(gs, k))
  }

  /** Objects are equal exactly when every key reads equal on both sides: order is irrelevant. */
  lemma {:induction false} ObjectsEqualIff(fs: seq<Field>, gs: seq<Field>)
    requires Distinct(fs) && Distinct(gs)
    ensures ValuesEqual(Obj(fs), Obj(gs)) <==> SameFields(fs, gs)
  {
    var am, bm := Dict(fs), Dict(gs);
    if ValuesEqual(Obj(fs), Obj(gs)) {
      forall k ensures SlotsEqual(Lookup(fs, k), Lookup(gs, k)) {
        DictLookup(fs, k);
        DictLookup(gs, k);
        assert k in am <==> k in bm;
      }
    }
    if SameFields(fs, gs) {
      SameFieldsEqual(fs, gs);
    }
  }

  lemma {:induction false} SameFieldsEqual(fs: seq<Field>, gs: seq<Field>)
    requires Distinct(fs) && Distinct(gs) && SameFields(fs, gs)
    ensures ValuesEqual(Obj(fs), Obj(gs))
  {
    var am, bm := Dict(fs), Dict(gs);
    forall k
      ensures k in am <==> k in bm
      ensures k in am ==> ValuesEqual(am[k], bm[k])
    {
      DictLookup(fs, k);
      DictLookup(gs, k);
      assert SlotsEqual(Lookup(fs, k), Lookup(gs, k));
    }
    assert am.Keys == bm.Keys;
  }

  /** Values of different kinds are never equal; scalars are equal when their contents are, numbers
      by what they denote; arrays element by element. */
  lemma {:induction false} EqualContents(a: JSON, b: JSON)
    ensures ValuesEqual(a, b) ==>
              && (a.Null? <==> b.Null?) && (a.Bool? <==> b.Bool?) && (a.Str? <==> b.Str?)
              && (a.Num? <==> b.Num?) && (a.Arr? <==> b.Arr?) && (a.Obj? <==> b.Obj?)
    ensures !a.Num? && !a.Arr? && !a.Obj? ==> (ValuesEqual(a, b) <==> a == b)
    ensures forall x, y :: a == Num(x) && b == Num(y) && RationalOf(x).Success? && RationalOf(y).Success? ==>
              (ValuesEqual(a, b) <==> RationalOf(x).value == RationalOf(y).value)
    ensures a.Arr? && b.Arr? && ValuesEqual(a, b) ==>
              |a.items| == |b.items| && forall i :: 0 <= i < |a.items| ==> ValuesEqual(a.items[i], b.items[i])
  {
    hide RationalOf;
  }
}
