/** Schema normalisation: reorder, fill defaults, validate. */
module Schema {
  import opened Wrappers
  import opened Number
  import opened Value

  datatype Kind = ObjectKind | ArrayKind | StringKind | NumberKind | BooleanKind | NullKind

  /** A compiled schema entry. `child_by_name` is the index of `children`; `default` is Some
      exactly when `has_default`; a format is the validator it names. */
  datatype Entry = Entry(
    name: string,
    kind: Kind,
    children: seq<Entry>,
    items: Option<Entry>,
    default: Option<JSON>,
    required: bool,
    nullable: bool,
    minRat: Option<real>,
    maxRat: Option<real>,
    integer: bool,
    enumSet: set<string>,
    minLength: Option<int>,
    maxLength: Option<int>,
    format: Option<string -> bool>)

  predicate IsChildName(e: Entry, k: string) {
    exists i :: 0 <= i < |e.children| && e.children[i].name == k
  }

  /** What compilation establishes at every level: no two children share a name. */
  predicate WFEntry(e: Entry) {
    && (forall i, j :: 0 <= i < j < |e.children| ==> e.children[i].name != e.children[j].name)
    && (forall i :: 0 <= i < |e.children| ==> WFEntry(e.children[i]))
    && (e.items.Some? ==> WFEntry(e.items.value))
  }

  function KindOf(v: JSON): Kind {
    match v
    case Null => NullKind
    case Bool(_) => BooleanKind
    case Str(_) => StringKind
    case Num(_) => NumberKind
    case Arr(_) => ArrayKind
    case Obj(_) => ObjectKind
  }

  /** `_validate_string`. */
  predicate StringOk(s: string, e: Entry) {
    && (e.minLength.Some? ==> |s| >= e.minLength.value)
    && (e.maxLength.Some? ==> |s| <= e.maxLength.value)
    && (e.enumSet != {} ==> s in e.enumSet)
    && (e.format.Some? ==> e.format.value(s))
  }

  predicate IsWhole(x: real) {
    x.Floor as real == x
  }

  /** `_validate_number`; an invalid text raises from the rational parser. */
  predicate NumberOk(text: string, e: Entry) {
    var r := RationalOf(text);
    && r.Success?
    && (e.integer ==> IsWhole(r.value))
    && (e.minRat.Some? ==> r.value >= e.minRat.value)
    && (e.maxRat.Some? ==> r.value <= e.maxRat.value)
  }

  function Slot(source: map<string, JSON>, k: string): Option<JSON> {
    if k in source then Some(source[k]) else None
  }

  /** `_normalize`. */
  function Normalize(value: JSON, e: Entry): Result<JSON, Error>
    decreases e, 1, 0
  {
    if value.Null? then
      if e.kind.NullKind? || e.nullable then Success(Null) else Failure(SchemaErr)
    else if KindOf(value) != e.kind then Failure(SchemaErr)
    else
      match value
      case Obj(fs) =>
        var out :- Children(Dict(fs), e, 0, []);
        Success(Obj(Unknowns(out, fs, e)))
      case Arr(items) =>
        if e.items.None? then Success(value)
        else
          var out :- Elements(items, e, 0);
          Success(Arr(out))
      case Str(s) => if StringOk(s, e) then Success(value) else Failure(SchemaErr)
      case Num(text) =>
        if RationalOf(text).Failure? then Failure(ValueErr)
        else if NumberOk(text, e) then Success(value) else Failure(SchemaErr)
      case _ => Success(value)
  }

  /** What one child contributes: its value normalised, its default normalised, or nothing. */
  function ChildSlot(slot: Option<JSON>, child: Entry): Result<Option<JSON>, Error>
    decreases child, 2, 0
  {
    if slot.Some? then
      var v :- Normalize(slot.value, child);
      Success(Some(v))
    else if child.default.Some? then
      var v :- Normalize(child.default.value, child);
      Success(Some(v))
    else if child.required then Failure(SchemaErr)
    else Success(None)
  }

  /** The loop over the schema's children, setting fields of `out`. */
  function Children(source: map<string, JSON>, e: Entry, i: nat, out: seq<Field>): Result<seq<Field>, Error>
    requires i <= |e.children|
    decreases e, 0, |e.children| - i
  {
    if i == |e.children| then Success(out)
    else
      var c := e.children[i];
      var v :- ChildSlot(Slot(source, c.name), c);
      Children(source, e, i + 1, if v.Some? then SetField(out, c.name, v.value) else out)
  }

  /** The loop over the source's fields, keeping the ones the schema does not know. */
  function Unknowns(out: seq<Field>, fs: seq<Field>, e: Entry): seq<Field>
    decreases |fs|
  {
    if fs == [] then out
    else
      Unknowns(if IsChildName(e, fs[0].key) then out else SetField(out, fs[0].key, fs[0].value), fs[1..], e)
  }

  function Elements(items: seq<JSON>, e: Entry, i: nat): Result<seq<JSON>, Error>
    requires e.items.Some? && i <= |items|
    decreases e, 0, |items| - i
  {
    if i == |items| then Success([])
    else
      var v :- Normalize(items[i], e.items.value);
      var rest :- Elements(items, e, i + 1);
      Success([v] + rest)
  }

  // ----- the two loops only append

  /** The known part of the result: children i and up, in schema order. */
  function KnownFields(source: map<string, JSON>, e: Entry, i: nat): Result<seq<Field>, Error>
    requires i <= |e.children|
    decreases |e.children| - i
  {
    if i == |e.children| then Success([])
    else
      var c := e.children[i];
      var v :- ChildSlot(Slot(source, c.name), c);
      var rest :- KnownFields(source, e, i + 1);
      Success((if v.Some? then [Field(c.name, v.value)] else []) + rest)
  }

  /** The fields the schema does not name, in source order. */
  function UnknownFields(fs: seq<Field>, e: Entry): seq<Field> {
    if fs == [] then []
    else (if IsChildName(e, fs[0].key) then [] else [fs[0]]) + UnknownFields(fs[1..], e)
  }

  lemma {:induction false} ChildrenAppend(source: map<string, JSON>, e: Entry, i: nat, out: seq<Field>)
    requires WFEntry(e) && i <= |e.children|
    requires forall j :: i <= j < |e.children| ==> Lookup(out, e.children[j].name).None?
    ensures var known := KnownFields(source, e, i);
            Children(source, e, i, out) == if known.Failure? then Failure(known.error) else Success(out + known.value)
    decreases |e.children| - i
  {
    if i < |e.children| {
      var c := e.children[i];
      var v := ChildSlot(Slot(source, c.name), c);
      if v.Success? {
        var next := if v.value.Some? then SetField(out, c.name, v.value.value) else out;
        if v.value.Some? {
          RemoveAppended(out, c.name, v.value.value);
          forall j | i + 1 <= j < |e.children| ensures Lookup(next, e.children[j].name).None? {
            LookupSet(out, c.name, v.value.value, e.children[j].name);
          }
        }
        ChildrenAppend(source, e, i + 1, next);
        var rest := KnownFields(source, e, i + 1);
        if rest.Success? {
          if v.value.Some? {
            assert out + ([Field(c.name, v.value.value)] + rest.value) == next + rest.value;
          } else {
            assert [] + rest.value == rest.value;
          }
        }
      }
    } else {
      assert out + [] == out;
    }
  }

  lemma {:induction false} UnknownsAppend(out: seq<Field>, fs: seq<Field>, e: Entry)
    requires Distinct(fs)
    requires forall k :: Lookup(fs, k).Some? && !IsChildName(e, k) ==> Lookup(out, k).None?
    ensures Unknowns(out, fs, e) == out + UnknownFields(fs, e)
    decreases |fs|
  {
    if fs == [] {
      assert out + [] == out;
    } else {
      var f, rest := fs[0], fs[1..];
      if IsChildName(e, f.key) {
        UnknownsAppend(out, rest, e);
      } else {
        var next := SetField(out, f.key, f.value);
        RemoveAppended(out, f.key, f.value);
        assert Field(f.key, f.value) == f;
        forall k | Lookup(rest, k).Some? && !IsChildName(e, k) ensures Lookup(next, k).None? {
          LookupSet(out, f.key, f.value, k);
        }
        UnknownsAppend(next, rest, e);
        assert out + ([f] + UnknownFields(rest, e)) == (out + [f]) + UnknownFields(rest, e);
      }
    }
  }

  /** Only child names occur in the known part, each from its own child. */
  lemma {:induction false} KnownLookup(source: map<string, JSON>, e: Entry, i: nat, k: string)
    requires WFEntry(e) && i <= |e.children| && KnownFields(source, e, i).Success?
    ensures var known := KnownFields(source, e, i).value;
            && (forall j :: i <= j < |e.children| && e.children[j].name == k ==>
                  ChildSlot(Slot(source, k), e.children[j]) == Success(Lookup(known, k)))
            && ((forall j :: i <= j < |e.children| ==> e.children[j].name != k) ==> Lookup(known, k).None?)
    decreases |e.children| - i
  {
    if i < |e.children| {
      var c := e.children[i];
      var v := ChildSlot(Slot(source, c.name), c);
      var rest := KnownFields(source, e, i + 1).value;
      KnownLookup(source, e, i + 1, k);
      if v.value.Some? {
        assert ([Field(c.name, v.value.value)] + rest)[1..] == rest;
      } else {
        assert [] + rest == rest;
      }
    }
  }

  lemma {:induction false} KnownDistinct(source: map<string, JSON>, e: Entry, i: nat)
    requires WFEntry(e) && i <= |e.children| && KnownFields(source, e, i).Success?
    ensures Distinct(KnownFields(source, e, i).value)
    decreases |e.children| - i
  {
    if i < |e.children| {
      var c := e.children[i];
      var v := ChildSlot(Slot(source, c.name), c);
      var rest := KnownFields(source, e, i + 1).value;
      KnownDistinct(source, e, i + 1);
      KnownLookup(source, e, i + 1, c.name);
      if v.value.Some? {
        assert ([Field(c.name, v.value.value)] + rest)[1..] == rest;
      } else {
        assert [] + rest == rest;
      }
    }
  }

  lemma {:induction false} UnknownLookup(fs: seq<Field>, e: Entry, k: string)
    ensures Lookup(UnknownFields(fs, e), k) == if IsChildName(e, k) then None else Lookup(fs, k)
  {
    if fs != [] {
      UnknownLookup(fs[1..], e, k);
      var rest := UnknownFields(fs[1..], e);
      assert ([fs[0]] + rest)[1..] == rest;
      assert [] + rest == rest;
    }
  }

  lemma {:induction false} UnknownDistinct(fs: seq<Field>, e: Entry)
    requires Distinct(fs)
    ensures Distinct(UnknownFields(fs, e))
  {
    if fs != [] {
      UnknownDistinct(fs[1..], e);
      UnknownLookup(fs[1..], e, fs[0].key);
      var rest := UnknownFields(fs[1..], e);
      assert ([fs[0]] + rest)[1..] == rest;
      assert [] + rest == rest;
    }
  }

  lemma {:induction false} DisjointAppend(fs: seq<Field>, gs: seq<Field>)
    requires Distinct(fs) && Distinct(gs)
    requires forall k :: Lookup(fs, k).Some? ==> Lookup(gs, k).None?
    ensures Distinct(fs + gs)
  {
    if fs == [] {
      assert fs + gs == gs;
    } else {
      assert (fs + gs)[1..] == fs[1..] + gs;
      assert forall k :: Lookup(fs[1..], k).Some? ==> Lookup(fs, k).Some?;
      DisjointAppend(fs[1..], gs);
      LookupAppend(fs[1..], gs, fs[0].key);
      assert Lookup(fs, fs[0].key).Some?;
    }
  }

  lemma {:induction false} NotChildName(e: Entry, k: string)
    requires !IsChildName(e, k)
    ensures forall j :: 0 <= j < |e.children| ==> e.children[j].name != k
  {
  }

  /** The result of normalising an object: the present or defaulted children in schema order,
      then the fields the schema does not name in source order. */
  lemma {:induction false} ObjectForm(fs: seq<Field>, e: Entry)
    requires WFEntry(e) && Distinct(fs) && e.kind.ObjectKind?
    ensures var known := KnownFields(Dict(fs), e, 0);
            Normalize(Obj(fs), e)
            == if known.Failure? then Failure(known.error) else Success(Obj(known.value + UnknownFields(fs, e)))
  {
    var source := Dict(fs);
    ChildrenAppend(source, e, 0, []);
    var known := KnownFields(source, e, 0);
    if known.Success? {
      assert [] + known.value == known.value;
      forall k | Lookup(fs, k).Some? && !IsChildName(e, k) ensures Lookup(known.value, k).None? {
        NotChildName(e, k);
        KnownLookup(source, e, 0, k);
      }
      UnknownsAppend(known.value, fs, e);
    }
  }

  /** Every key of a normalised object: a child holds its own normalised value or default,
      any other key holds exactly what the source held, so no source field is lost and only
      defaults are added. */
  lemma {:induction false} NormalizedLookup(fs: seq<Field>, e: Entry, k: string)
    requires WFEntry(e) && Distinct(fs) && e.kind.ObjectKind? && Normalize(Obj(fs), e).Success?
    ensures Normalize(Obj(fs), e).value.Obj?
    ensures var out := Normalize(Obj(fs), e).value.fields;
            && (forall j :: 0 <= j < |e.children| && e.children[j].name == k ==>
                  ChildSlot(Lookup(fs, k), e.children[j]) == Success(Lookup(out, k)))
            && (!IsChildName(e, k) ==> Lookup(out, k) == Lookup(fs, k))
            && (Lookup(fs, k).Some? ==> Lookup(out, k).Some?)
  {
    ObjectForm(fs, e);
    var known := KnownFields(Dict(fs), e, 0).value;
    KnownLookup(Dict(fs), e, 0, k);
    UnknownLookup(fs, e, k);
    LookupAppend(known, UnknownFields(fs, e), k);
    DictLookup(fs, k);
    if !IsChildName(e, k) { NotChildName(e, k); }
  }

  lemma {:induction false} NormalizedDistinct(fs: seq<Field>, e: Entry)
    requires WFEntry(e) && Distinct(fs) && e.kind.ObjectKind? && Normalize(Obj(fs), e).Success?
    ensures Normalize(Obj(fs), e).value.Obj? && Distinct(Normalize(Obj(fs), e).value.fields)
  {
    ObjectForm(fs, e);
    var known := KnownFields(Dict(fs), e, 0).value;
    KnownDistinct(Dict(fs), e, 0);
    UnknownDistinct(fs, e);
    forall k | Lookup(known, k).Some? ensures Lookup(UnknownFields(fs, e), k).None? {
      KnownLookup(Dict(fs), e, 0, k);
      UnknownLookup(fs, e, k);
      if !IsChildName(e, k) { NotChildName(e, k); }
    }
    DisjointAppend(known, UnknownFields(fs, e));
  }

  lemma {:induction false} ElementsForm(items: seq<JSON>, e: Entry, i: nat)
    requires e.items.Some? && i <= |items|
    ensures var r := Elements(items, e, i);
            && (r.Success? <==> forall j :: i <= j < |items| ==> Normalize(items[j], e.items.value).Success?)
            && (r.Success? ==> |r.value| == |items| - i
                               && forall j :: i <= j < |items| ==> Normalize(items[j], e.items.value) == Success(r.value[j - i]))
    decreases |items| - i
  {
    if i < |items| {
      ElementsForm(items, e, i + 1);
    }
  }
}
