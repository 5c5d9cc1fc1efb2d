/** What every compiled schema satisfies. */
module CompileLaws {
  import opened Wrappers
  import opened Number
  import opened Value
  import opened Schema
  import opened Compile
  import opened SchemaLaws

  predicate DistinctNames(entries: seq<Entry>) {
    forall i, j :: 0 <= i < j < |entries| ==> entries[i].name != entries[j].name
  }

  /** Names are distinct at every level, defaults are well-formed and of the entry's kind (null
      only where allowed), and only entries of a kind carry what belongs to that kind. */
  predicate Sound(e: Entry) {
    && WFEntry(e) && DefaultsWF(e)
    && (e.default.Some? ==> DefaultOk(e.default.value, e.kind, e.nullable))
    && (e.children != [] ==> e.kind.ObjectKind?)
    && (e.items.Some? ==> e.kind.ArrayKind? && Sound(e.items.value))
    && forall i :: 0 <= i < |e.children| ==> Sound(e.children[i])
  }

  /** Every schema document that compiles gives a sound entry. */
  lemma {:induction false} CompiledSound(doc: JSON, allowName: bool, formats: Formats)
    requires doc.Obj? && WF(doc) && CompileEntry(doc, allowName, formats).Success?
    ensures Sound(CompileEntry(doc, allowName, formats).value)
    decreases doc, 3
  {
    HeaderBare(doc.fields, allowName);
    var e := Header(doc.fields, allowName).value;
    CompiledKind(doc, e, formats);
    DefaultSound(doc.fields, e.kind, e.nullable);
  }

  lemma {:induction false} HeaderBare(fs: seq<Field>, allowName: bool)
    ensures var e := Header(fs, allowName);
            e.Success? ==> e.value.children == [] && e.value.items.None? && e.value.default.None?
  {
  }

  lemma {:induction false} DefaultSound(fs: seq<Field>, kind: Kind, nullable: bool)
    requires WF(Obj(fs))
    ensures var d := DefaultField(fs, kind, nullable);
            d.Success? && d.value.Some? ==> WF(d.value.value) && DefaultOk(d.value.value, kind, nullable)
  {
    if Lookup(fs, "default").Some? { LookupWF(fs, "default"); }
  }

  lemma {:induction false} LimitsOnly(fs: seq<Field>, e: Entry, formats: Formats)
    ensures var r := StringLimits(fs, e, formats);
            r.Success? ==> exists lo, hi, names, f :: r.value == e.(minLength := lo, maxLength := hi, enumSet := names, format := f)
    ensures var r := NumberLimits(fs, e);
            r.Success? ==> exists lo, hi, integer :: r.value == e.(minRat := lo, maxRat := hi, integer := integer)
  {
  }

  lemma {:induction false} CompiledKind(doc: JSON, e: Entry, formats: Formats)
    requires doc.Obj? && WF(doc)
    requires e.children == [] && e.items.None? && e.default.None?
    ensures var r := CompileKind(doc, e, formats);
            r.Success? ==> Sound(r.value) && r.value.kind == e.kind && r.value.name == e.name
                           && r.value.required == e.required && r.value.nullable == e.nullable && r.value.default.None?
    decreases doc, 2
  {
    hide CompileEntry, CompileChildren, Lookup, WF, StringLimits, NumberLimits;
    LimitsOnly(doc.fields, e, formats);
    if CompileKind(doc, e, formats).Success? {
      if e.kind.ObjectKind? && Lookup(doc.fields, "children").Some? {
        LookupWF(doc.fields, "children");
        CompiledChildren(Lookup(doc.fields, "children").value, 0, [], formats);
      } else if e.kind.ArrayKind? && Lookup(doc.fields, "items").Some? {
        LookupWF(doc.fields, "items");
        CompiledSound(Lookup(doc.fields, "items").value, false, formats);
      }
    }
  }

  lemma {:induction false} CompiledChildren(arr: JSON, i: nat, done: seq<Entry>, formats: Formats)
    requires arr.Arr? && WF(arr) && i <= |arr.items| && CompileChildren(arr, i, done, formats).Success?
    requires DistinctNames(done) && forall j :: 0 <= j < |done| ==> Sound(done[j])
    ensures var r := CompileChildren(arr, i, done, formats).value;
            DistinctNames(r) && forall j :: 0 <= j < |r| ==> Sound(r[j])
    decreases arr, 1, |arr.items| - i
  {
    if i < |arr.items| {
      CompiledSound(arr.items[i], true, formats);
      var c := CompileEntry(arr.items[i], true, formats).value;
      assert !Named(done, c.name);
      CompiledChildren(arr, i + 1, done + [c], formats);
    }
  }

  // ----- what a compiled schema accepts, read off its document

  /** A limit of the document, read as a rational, satisfies p; an absent one always does. */
  predicate AtLeast(x: real, limit: Option<JSON>) {
    limit.Some? ==> limit.value.Num? && RationalOf(limit.value.text).Success? && RationalOf(limit.value.text).value <= x
  }

  predicate AtMost(x: real, limit: Option<JSON>) {
    limit.Some? ==> limit.value.Num? && RationalOf(limit.value.text).Success? && x <= RationalOf(limit.value.text).value
  }

  /** The same for a length: the limit is cut off towards zero first. */
  predicate LongEnough(n: nat, limit: Option<JSON>) {
    limit.Some? ==> limit.value.Num? && RationalOf(limit.value.text).Success? && Truncate(RationalOf(limit.value.text).value) <= n
  }

  predicate ShortEnough(n: nat, limit: Option<JSON>) {
    limit.Some? ==> limit.value.Num? && RationalOf(limit.value.text).Success? && n <= Truncate(RationalOf(limit.value.text).value)
  }

  /** A compiled number schema accepts exactly the numbers within its document's limits. */
  lemma {:induction false} CompiledNumber(doc: JSON, allowName: bool, formats: Formats, text: string)
    requires doc.Obj? && CompileEntry(doc, allowName, formats).Success? && Lookup(doc.fields, "kind") == Some(Str("number"))
    ensures Normalize(Num(text), CompileEntry(doc, allowName, formats).value).Success?
            <==> && RationalOf(text).Success?
                 && AtLeast(RationalOf(text).value, Lookup(doc.fields, "min"))
                 && AtMost(RationalOf(text).value, Lookup(doc.fields, "max"))
                 && (Lookup(doc.fields, "integer") == Some(Bool(true)) ==> IsWhole(RationalOf(text).value))
  {
    hide Lookup, RationalOf;
    assert Header(doc.fields, allowName).value.kind == NumberKind;
  }

  /** A compiled string schema accepts exactly the strings of the lengths, enumeration and format
      that its document names; an empty enumeration excludes nothing. */
  lemma {:induction false} CompiledString(doc: JSON, allowName: bool, formats: Formats, text: string)
    requires doc.Obj? && CompileEntry(doc, allowName, formats).Success? && Lookup(doc.fields, "kind") == Some(Str("string"))
    ensures var names, format := Lookup(doc.fields, "enum"), Lookup(doc.fields, "format");
            Normalize(Str(text), CompileEntry(doc, allowName, formats).value).Success?
            <==> && LongEnough(|text|, Lookup(doc.fields, "min_length"))
                 && ShortEnough(|text|, Lookup(doc.fields, "max_length"))
                 && (names.Some? && names.value.Arr? && names.value.items != [] ==> Str(text) in names.value.items)
                 && (format.Some? && format.value.Str? && format.value.s in formats ==> formats[format.value.s](text))
  {
    hide Lookup, RationalOf;
    assert Header(doc.fields, allowName).value.kind == StringKind;
    EnumMeaning(doc.fields, text);
  }

  lemma {:induction false} EnumMeaning(fs: seq<Field>, text: string)
    requires EnumField(fs).Success?
    ensures var names := Lookup(fs, "enum");
            (EnumField(fs).value != {} ==> text in EnumField(fs).value)
            <==> (names.Some? && names.value.Arr? && names.value.items != [] ==> Str(text) in names.value.items)
  {
    hide Lookup;
    var names := Lookup(fs, "enum");
    if names.Some? {
      var items, texts := names.value.items, EnumField(fs).value;
      if items != [] {
        assert items[0].s in texts;
      }
      forall i | 0 <= i < |items| ensures items[i] == Str(items[i].s) { }
    }
  }

  /** A compiled schema accepts null exactly when it is the null schema or says so. */
  lemma {:induction false} CompiledNull(doc: JSON, allowName: bool, formats: Formats)
    requires doc.Obj? && WF(doc) && CompileEntry(doc, allowName, formats).Success?
    ensures Normalize(Null, CompileEntry(doc, allowName, formats).value).Success?
            <==> Lookup(doc.fields, "kind") == Some(Str("null")) || Lookup(doc.fields, "nullable") == Some(Bool(true))
  {
    var e := Header(doc.fields, allowName).value;
    HeaderBare(doc.fields, allowName);
    CompiledKind(doc, e, formats);
    hide Lookup, CompileKind;
  }

  /** How a schema document spells the kind of a value. */
  function Spelling(v: JSON): string {
    match v
    case Null => "null"
    case Bool(_) => "boolean"
    case Num(_) => "number"
    case Str(_) => "string"
    case Arr(_) => "array"
    case Obj(_) => "object"
  }

  /** What is accepted, other than null, is of the kind that the document spells; and a schema of
      each kind accepts something of that kind, whatever else its document demands. */
  lemma {:induction false} CompiledKindSpelled(doc: JSON, allowName: bool, formats: Formats, v: JSON)
    requires doc.Obj? && WF(doc) && CompileEntry(doc, allowName, formats).Success?
    ensures var e := CompileEntry(doc, allowName, formats).value;
            && (!v.Null? && Normalize(v, e).Success? ==> Lookup(doc.fields, "kind") == Some(Str(Spelling(v))))
            && (v.Bool? && Lookup(doc.fields, "kind") == Some(Str("boolean")) ==> Normalize(v, e) == Success(v))
            && (v == Arr([]) && Lookup(doc.fields, "kind") == Some(Str("array")) ==> Normalize(v, e) == Success(v))
            && (v.Obj? && Lookup(doc.fields, "kind") == Some(Str("object")) && Lookup(doc.fields, "children").None? ==>
                  Normalize(v, e).Success?)
  {
    var e := CompileEntry(doc, allowName, formats).value;
    CompiledEntryKind(doc, allowName, formats);
    CompiledParts(doc, allowName, formats);
    hide CompileEntry, Lookup;
    if e.kind.ObjectKind? && v.Obj? && e.children == [] {
      assert Children(Dict(v.fields), e, 0, []) == Success([]);
    }
    if v == Arr([]) && e.kind.ArrayKind? {
      assert e.items.Some? ==> Elements([], e, 0) == Success([]);
    }
  }

  lemma {:induction false} CompiledEntryKind(doc: JSON, allowName: bool, formats: Formats)
    requires doc.Obj? && WF(doc) && CompileEntry(doc, allowName, formats).Success?
    ensures var kind := CompileEntry(doc, allowName, formats).value.kind;
            Lookup(doc.fields, "kind") == Some(Str(
              match kind
              case ObjectKind => "object"
              case ArrayKind => "array"
              case StringKind => "string"
              case NumberKind => "number"
              case BooleanKind => "boolean"
              case NullKind => "null"))
  {
    HeaderBare(doc.fields, allowName);
    CompiledKind(doc, Header(doc.fields, allowName).value, formats);
    hide Lookup, CompileKind;
  }

  /** Name, flags and default are the document's own; only an anonymous entry may lack a name. */
  lemma {:induction false} CompiledHeader(doc: JSON, allowName: bool, formats: Formats)
    requires doc.Obj? && WF(doc) && CompileEntry(doc, allowName, formats).Success?
    ensures var e := CompileEntry(doc, allowName, formats).value;
            && (e.required <==> Lookup(doc.fields, "required") == Some(Bool(true)))
            && (e.nullable <==> Lookup(doc.fields, "nullable") == Some(Bool(true)))
            && (Lookup(doc.fields, "name") == Some(Str(e.name)) || (Lookup(doc.fields, "name").None? && !allowName && e.name == ""))
            && e.default == Lookup(doc.fields, "default")
  {
    HeaderBare(doc.fields, allowName);
    CompiledKind(doc, Header(doc.fields, allowName).value, formats);
    hide Lookup, CompileKind;
  }

  /** The items of an attribute of the document that lists things, none when it is absent. */
  function Listed(v: Option<JSON>): seq<JSON> {
    if v.Some? && v.value.Arr? then v.value.items else []
  }

  /** An object entry has one child for each listed child document, in order, each the compilation
      of that document; an array entry's items are the compilation of theirs. */
  lemma {:induction false} CompiledParts(doc: JSON, allowName: bool, formats: Formats)
    requires doc.Obj? && WF(doc) && CompileEntry(doc, allowName, formats).Success?
    ensures var e := CompileEntry(doc, allowName, formats).value;
            var children, items := Listed(Lookup(doc.fields, "children")), Lookup(doc.fields, "items");
            && (e.kind.ObjectKind? ==>
                  && |e.children| == |children|
                  && forall i :: 0 <= i < |children| ==>
                       children[i].Obj? && CompileEntry(children[i], true, formats) == Success(e.children[i]))
            && (e.kind.ArrayKind? ==>
                  if items.None? then e.items.None?
                  else items.value.Obj? && e.items.Some? && CompileEntry(items.value, false, formats) == Success(e.items.value))
  {
    var header := Header(doc.fields, allowName).value;
    HeaderBare(doc.fields, allowName);
    CompiledKind(doc, header, formats);
    var e := CompileKind(doc, header, formats).value;
    assert CompileEntry(doc, allowName, formats).value == e.(default := Lookup(doc.fields, "default"));
    hide CompileEntry, Lookup, CompileChildren;
    var v := Lookup(doc.fields, "children");
    if header.kind.ObjectKind? && v.Some? {
      ChildrenCompiled(v.value, 0, [], formats);
    }
  }

  lemma {:induction false} ChildrenCompiled(arr: JSON, i: nat, done: seq<Entry>, formats: Formats)
    requires arr.Arr? && i <= |arr.items| && |done| == i && CompileChildren(arr, i, done, formats).Success?
    requires forall j :: 0 <= j < i ==> arr.items[j].Obj? && CompileEntry(arr.items[j], true, formats) == Success(done[j])
    ensures var r := CompileChildren(arr, i, done, formats).value;
            && |r| == |arr.items|
            && forall j :: 0 <= j < |r| ==> arr.items[j].Obj? && CompileEntry(arr.items[j], true, formats) == Success(r[j])
    decreases |arr.items| - i
  {
    hide CompileEntry;
    if i < |arr.items| {
      var c := CompileEntry(arr.items[i], true, formats).value;
      ChildrenCompiled(arr, i + 1, done + [c], formats);
    }
  }

  // ----- which documents compile

  /** The attributes of a schema document: these, and descriptions in a language. */
  predicate KnownAttribute(k: string) {
    || k in ["kind", "name", "required", "nullable", "default", "custom", "children", "items"]
    || k in ["min", "max", "integer", "min_length", "max_length", "enum", "format"]
    || ("description-" <= k && IsLanguage(k[|"description-"|..]))
  }

  predicate IsFlag(v: Option<JSON>) {
    v.None? || v.value.Bool?
  }

  predicate IsLimit(v: Option<JSON>) {
    v.None? || (v.value.Num? && RationalOf(v.value.text).Success?)
  }

  /** Attributes of the right types, by the kind that the document spells. */
  predicate WellTyped(fs: seq<Field>, allowName: bool, formats: Formats) {
    var kind, name, default := Lookup(fs, "kind"), Lookup(fs, "name"), Lookup(fs, "default");
    && (forall i :: 0 <= i < |fs| ==> KnownAttribute(fs[i].key))
    && kind.Some? && kind.value.Str? && kind.value.s in ["object", "array", "string", "number", "boolean", "null"]
    && (if name.None? then !allowName else name.value.Str?)
    && IsFlag(Lookup(fs, "required")) && IsFlag(Lookup(fs, "nullable"))
    && (default.None? || Str(Spelling(default.value)) == kind.value
        || (default.value.Null? && Lookup(fs, "nullable") == Some(Bool(true))))
    && (kind.value.s == "string" ==>
          && IsLimit(Lookup(fs, "min_length")) && IsLimit(Lookup(fs, "max_length"))
          && (Lookup(fs, "enum").None? || (Lookup(fs, "enum").value.Arr? && AllStrings(Lookup(fs, "enum").value.items)))
          && (Lookup(fs, "format").None? || (Lookup(fs, "format").value.Str? && Lookup(fs, "format").value.s in formats)))
    && (kind.value.s == "number" ==>
          IsLimit(Lookup(fs, "min")) && IsLimit(Lookup(fs, "max")) && IsFlag(Lookup(fs, "integer")))
    && (kind.value.s == "object" ==> Lookup(fs, "children").None? || Lookup(fs, "children").value.Arr?)
    && (kind.value.s == "array" ==> Lookup(fs, "items").None? || Lookup(fs, "items").value.Obj?)
  }

  /** The child documents of an object schema compile, to entries of different names. */
  ghost predicate ChildrenCompile(children: seq<JSON>, formats: Formats) {
    && (forall i :: 0 <= i < |children| ==> children[i].Obj? && CompileEntry(children[i], true, formats).Success?)
    && forall i, j :: 0 <= i < j < |children| && children[i].Obj? && children[j].Obj? ==>
         Lookup(children[i].fields, "name") != Lookup(children[j].fields, "name")
  }

  lemma {:induction false} HeaderIff(fs: seq<Field>, allowName: bool)
    ensures Header(fs, allowName).Success? <==>
              && (forall i :: 0 <= i < |fs| ==> KnownAttribute(fs[i].key))
              && (var kind, name := Lookup(fs, "kind"), Lookup(fs, "name");
                  && kind.Some? && kind.value.Str? && kind.value.s in ["object", "array", "string", "number", "boolean", "null"]
                  && if name.None? then !allowName else name.value.Str?)
              && IsFlag(Lookup(fs, "required")) && IsFlag(Lookup(fs, "nullable"))
    ensures Header(fs, allowName).Success? ==>
              var e, kind := Header(fs, allowName).value, Lookup(fs, "kind");
              && (e.kind.ObjectKind? <==> kind == Some(Str("object"))) && (e.kind.ArrayKind? <==> kind == Some(Str("array")))
              && (e.kind.StringKind? <==> kind == Some(Str("string"))) && (e.kind.NumberKind? <==> kind == Some(Str("number")))
              && (e.kind.BooleanKind? <==> kind == Some(Str("boolean"))) && (e.kind.NullKind? <==> kind == Some(Str("null")))
              && (e.nullable <==> Lookup(fs, "nullable") == Some(Bool(true)))
  {
    hide Lookup, IsLanguage;
    assert forall k :: KnownAttribute(k) <==> IsSchemaKey(k);
    hide KnownAttribute, IsSchemaKey;
  }

  lemma {:induction false} LimitsIff(fs: seq<Field>, e: Entry, formats: Formats)
    ensures StringLimits(fs, e, formats).Success? <==>
              && IsLimit(Lookup(fs, "min_length")) && IsLimit(Lookup(fs, "max_length"))
              && (Lookup(fs, "enum").None? || (Lookup(fs, "enum").value.Arr? && AllStrings(Lookup(fs, "enum").value.items)))
              && (Lookup(fs, "format").None? || (Lookup(fs, "format").value.Str? && Lookup(fs, "format").value.s in formats))
    ensures NumberLimits(fs, e).Success? <==>
              IsLimit(Lookup(fs, "min")) && IsLimit(Lookup(fs, "max")) && IsFlag(Lookup(fs, "integer"))
  {
    hide Lookup, RationalOf;
  }

  lemma {:induction false} DefaultIff(fs: seq<Field>, kind: Kind, nullable: bool)
    ensures DefaultField(fs, kind, nullable).Success? <==>
              var default := Lookup(fs, "default");
              default.None? || KindOf(default.value) == kind || (default.value.Null? && nullable)
  {
    hide Lookup;
  }

  lemma {:induction false} ChildrenIff(arr: JSON, i: nat, done: seq<Entry>, formats: Formats)
    requires arr.Arr? && WF(arr) && i <= |arr.items| && |done| == i
    requires forall j :: 0 <= j < i ==> arr.items[j].Obj? && CompileEntry(arr.items[j], true, formats) == Success(done[j])
    requires forall j, k :: 0 <= j < k < i && arr.items[j].Obj? && arr.items[k].Obj? ==>
               Lookup(arr.items[j].fields, "name") != Lookup(arr.items[k].fields, "name")
    ensures CompileChildren(arr, i, done, formats).Success? <==> ChildrenCompile(arr.items, formats)
    decreases |arr.items| - i
  {
    hide CompileEntry, Lookup;
    if i < |arr.items| && arr.items[i].Obj? && CompileEntry(arr.items[i], true, formats).Success? {
      var c := CompileEntry(arr.items[i], true, formats).value;
      CompiledHeader(arr.items[i], true, formats);
      forall j | 0 <= j < i
        ensures done[j].name == c.name <==> Lookup(arr.items[j].fields, "name") == Lookup(arr.items[i].fields, "name")
      {
        CompiledHeader(arr.items[j], true, formats);
      }
      if !Named(done, c.name) {
        forall j | 0 <= j < i ensures done[j].name != c.name { }
        ChildrenIff(arr, i + 1, done + [c], formats);
      }
    }
  }

  /** A document compiles exactly when its attributes are known and of the right types and its parts
      compile, children under different names. */
  lemma {:induction false} CompilesIff(doc: JSON, allowName: bool, formats: Formats)
    requires doc.Obj? && WF(doc)
    ensures CompileEntry(doc, allowName, formats).Success? <==>
              && WellTyped(doc.fields, allowName, formats)
              && (Lookup(doc.fields, "kind") == Some(Str("object")) ==>
                    ChildrenCompile(Listed(Lookup(doc.fields, "children")), formats))
              && (Lookup(doc.fields, "kind") == Some(Str("array")) && Lookup(doc.fields, "items").Some? ==>
                    CompileEntry(Lookup(doc.fields, "items").value, false, formats).Success?)
  {
    HeaderIff(doc.fields, allowName);
    if Header(doc.fields, allowName).Success? {
      var e := Header(doc.fields, allowName).value;
      KindIff(doc, e, formats);
      DefaultIff(doc.fields, e.kind, e.nullable);
      DefaultSpelled(doc.fields, allowName);
      hide Lookup, CompileKind, DefaultField, Header, ChildrenCompile, IsLimit, IsFlag, KnownAttribute, Spelling, AllStrings, Listed;
      assert CompileEntry(doc, allowName, formats).Success?
        <==> CompileKind(doc, e, formats).Success? && DefaultField(doc.fields, e.kind, e.nullable).Success?;
    }
  }

  lemma {:induction false} KindIff(doc: JSON, e: Entry, formats: Formats)
    requires doc.Obj? && WF(doc)
    ensures var fs := doc.fields;
            CompileKind(doc, e, formats).Success? <==>
              match e.kind
              case ObjectKind =>
                && (Lookup(fs, "children").None? || Lookup(fs, "children").value.Arr?)
                && ChildrenCompile(Listed(Lookup(fs, "children")), formats)
              case ArrayKind =>
                Lookup(fs, "items").None?
                || (Lookup(fs, "items").value.Obj? && CompileEntry(Lookup(fs, "items").value, false, formats).Success?)
              case StringKind =>
                && IsLimit(Lookup(fs, "min_length")) && IsLimit(Lookup(fs, "max_length"))
                && (Lookup(fs, "enum").None? || (Lookup(fs, "enum").value.Arr? && AllStrings(Lookup(fs, "enum").value.items)))
                && (Lookup(fs, "format").None? || (Lookup(fs, "format").value.Str? && Lookup(fs, "format").value.s in formats))
              case NumberKind =>
                IsLimit(Lookup(fs, "min")) && IsLimit(Lookup(fs, "max")) && IsFlag(Lookup(fs, "integer"))
              case _ => true
  {
    LimitsIff(doc.fields, e, formats);
    var v := Lookup(doc.fields, "children");
    if e.kind.ObjectKind? && v.Some? && v.value.Arr? {
      LookupWF(doc.fields, "children");
      ChildrenIff(v.value, 0, [], formats);
    }
    hide Lookup, StringLimits, NumberLimits, CompileChildren, CompileEntry, IsLimit, IsFlag, AllStrings;
  }

  lemma {:induction false} DefaultSpelled(fs: seq<Field>, allowName: bool)
    requires Header(fs, allowName).Success?
    ensures forall v :: KindOf(v) == Header(fs, allowName).value.kind <==> Some(Str(Spelling(v))) == Lookup(fs, "kind")
  {
    HeaderIff(fs, allowName);
    hide Header, Lookup;
  }
}
