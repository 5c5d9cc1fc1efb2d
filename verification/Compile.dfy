/** Compiling a schema document into entries. */
module Compile {
  import opened Wrappers
  import opened Text
  import opened Number
  import opened Value
  import opened Schema

  type Formats = map<string, string -> bool>

  const KNOWN_KEYS: set<string> := {
    "kind", "name", "children", "default", "required", "nullable", "min", "max", "integer",
    "enum", "min_length", "max_length", "format", "items", "custom"}

  const DESCRIPTION := "description-"

  predicate IsLetter(c: char) {
    'A' <= c <= 'Z' || 'a' <= c <= 'z'
  }

  predicate IsLetterOrDigit(c: char) {
    IsLetter(c) || IsDigit(c)
  }

  /** `[A-Za-z]{2,3}(-[A-Za-z0-9]+)*`. */
  predicate IsLanguage(lang: string) {
    var parts := Split(lang, '-');
    && 2 <= |parts[0]| <= 3 && (forall i :: 0 <= i < |parts[0]| ==> IsLetter(parts[0][i]))
    && forall p :: p in parts[1..] ==> p != "" && forall i :: 0 <= i < |p| ==> IsLetterOrDigit(p[i])
  }

  predicate IsSchemaKey(k: string) {
    k in KNOWN_KEYS || (DESCRIPTION <= k && IsLanguage(k[|DESCRIPTION|..]))
  }

  function KindNamed(s: string): Option<Kind> {
    if s == "object" then Some(ObjectKind)
    else if s == "array" then Some(ArrayKind)
    else if s == "string" then Some(StringKind)
    else if s == "number" then Some(NumberKind)
    else if s == "boolean" then Some(BooleanKind)
    else if s == "null" then Some(NullKind)
    else None
  }

  function KindField(fs: seq<Field>): Result<Kind, Error> {
    var v := Lookup(fs, "kind");
    if v.None? || !v.value.Str? || KindNamed(v.value.s).None? then Failure(SchemaErr)
    else Success(KindNamed(v.value.s).value)
  }

  function NameField(fs: seq<Field>, allowName: bool): Result<string, Error> {
    var v := Lookup(fs, "name");
    if v.None? then if allowName then Failure(SchemaErr) else Success("")
    else if v.value.Str? then Success(v.value.s) else Failure(SchemaErr)
  }

  /** A boolean attribute, false when absent. */
  function FlagField(fs: seq<Field>, key: string): Result<bool, Error> {
    var v := Lookup(fs, key);
    if v.None? then Success(false)
    else if v.value.Bool? then Success(v.value.b) else Failure(SchemaErr)
  }

  function RationalField(fs: seq<Field>, key: string): Result<Option<real>, Error> {
    var v := Lookup(fs, key);
    if v.None? then Success(None)
    else if !v.value.Num? then Failure(SchemaErr)
    else
      var r :- RationalOf(v.value.text);
      Success(Some(r))
  }

  /** `int(Fraction)`: towards zero. */
  function Truncate(x: real): int {
    if x < 0.0 then -((-x).Floor) else x.Floor
  }

  function LengthField(fs: seq<Field>, key: string): Result<Option<int>, Error> {
    var r :- RationalField(fs, key);
    Success(if r.None? then None else Some(Truncate(r.value)))
  }

  predicate AllStrings(items: seq<JSON>) {
    forall i :: 0 <= i < |items| ==> items[i].Str?
  }

  function EnumField(fs: seq<Field>): Result<set<string>, Error> {
    var v := Lookup(fs, "enum");
    if v.None? then Success({})
    else if !v.value.Arr? || !AllStrings(v.value.items) then Failure(SchemaErr)
    else Success(set i | 0 <= i < |v.value.items| :: v.value.items[i].s)
  }

  function FormatField(fs: seq<Field>, formats: Formats): Result<Option<string -> bool>, Error> {
    var v := Lookup(fs, "format");
    if v.None? then Success(None)
    else if !v.value.Str? || v.value.s !in formats then Failure(SchemaErr)
    else Success(Some(formats[v.value.s]))
  }

  /** `_validate_default`: null needs permission, anything else the entry's kind. */
  predicate DefaultOk(v: JSON, kind: Kind, nullable: bool) {
    if v.Null? then kind.NullKind? || nullable else KindOf(v) == kind
  }

  function DefaultField(fs: seq<Field>, kind: Kind, nullable: bool): Result<Option<JSON>, Error> {
    var v := Lookup(fs, "default");
    if v.Some? && !DefaultOk(v.value, kind, nullable) then Failure(SchemaErr) else Success(v)
  }

  function Bare(name: string, kind: Kind): Entry {
    Entry(name, kind, [], None, None, false, false, None, None, false, {}, None, None, None)
  }

  function StringLimits(fs: seq<Field>, e: Entry, formats: Formats): Result<Entry, Error> {
    var lo :- LengthField(fs, "min_length");
    var hi :- LengthField(fs, "max_length");
    var names :- EnumField(fs);
    var format :- FormatField(fs, formats);
    Success(e.(minLength := lo, maxLength := hi, enumSet := names, format := format))
  }

  function NumberLimits(fs: seq<Field>, e: Entry): Result<Entry, Error> {
    var lo :- RationalField(fs, "min");
    var hi :- RationalField(fs, "max");
    var integer :- FlagField(fs, "integer");
    Success(e.(minRat := lo, maxRat := hi, integer := integer))
  }

  /** Key check, kind, name and flags. */
  function Header(fs: seq<Field>, allowName: bool): Result<Entry, Error> {
    if exists i :: 0 <= i < |fs| && !IsSchemaKey(fs[i].key) then Failure(SchemaErr)
    else
      var kind :- KindField(fs);
      var name :- NameField(fs, allowName);
      var required :- FlagField(fs, "required");
      var nullable :- FlagField(fs, "nullable");
      Success(Bare(name, kind).(required := required, nullable := nullable))
  }

  /** `_compile_entry`. */
  function CompileEntry(doc: JSON, allowName: bool, formats: Formats): Result<Entry, Error>
    requires doc.Obj?
    decreases doc
  {
    var e :- Header(doc.fields, allowName);
    var e' :- CompileKind(doc, e, formats);
    var default :- DefaultField(doc.fields, e.kind, e.nullable);
    Success(e'.(default := default))
  }

  /** The part of compilation that depends on the kind. */
  function CompileKind(doc: JSON, e: Entry, formats: Formats): Result<Entry, Error>
    requires doc.Obj?
    decreases doc, 2, 0
  {
    match e.kind
    case ObjectKind =>
      var v := Lookup(doc.fields, "children");
      if v.None? then Success(e)
      else if !v.value.Arr? then Failure(SchemaErr)
      else
        var cs :- CompileChildren(v.value, 0, [], formats);
        Success(e.(children := cs))
    case ArrayKind =>
      var v := Lookup(doc.fields, "items");
      if v.None? then Success(e)
      else if !v.value.Obj? then Failure(SchemaErr)
      else
        var c :- CompileEntry(v.value, false, formats);
        Success(e.(items := Some(c)))
    case StringKind => StringLimits(doc.fields, e, formats)
    case NumberKind => NumberLimits(doc.fields, e)
    case _ => Success(e)
  }

  predicate Named(entries: seq<Entry>, k: string) {
    exists i :: 0 <= i < |entries| && entries[i].name == k
  }

  /** Children i and up, after the ones already compiled. */
  function CompileChildren(arr: JSON, i: nat, done: seq<Entry>, formats: Formats): Result<seq<Entry>, Error>
    requires arr.Arr? && i <= |arr.items|
    decreases arr, 1, |arr.items| - i
  {
    if i == |arr.items| then Success(done)
    else if !arr.items[i].Obj? then Failure(SchemaErr)
    else
      var c :- CompileEntry(arr.items[i], true, formats);
      if Named(done, c.name) then Failure(SchemaErr)
      else CompileChildren(arr, i + 1, done + [c], formats)
  }

  // ----- the loops of the compiler

  /** The children loop: `child_by_name` holds exactly the compiled children, by name. */
  method CompileChildList(arr: JSON, formats: Formats)
    returns (r: Result<seq<Entry>, Error>, childByName: map<string, Entry>)
    requires arr.Arr?
    ensures r == CompileChildren(arr, 0, [], formats)
    ensures r.Success? ==> (forall k :: k in childByName <==> Named(r.value, k))
                           && forall i :: 0 <= i < |r.value| ==>
                                r.value[i].name in childByName && childByName[r.value[i].name] == r.value[i]
    decreases arr, 0
  {
    childByName := map[];
    var children: seq<Entry> := [];
    var i := 0;
    while i < |arr.items|
      invariant 0 <= i <= |arr.items|
      invariant CompileChildren(arr, 0, [], formats) == CompileChildren(arr, i, children, formats)
      invariant forall k :: k in childByName <==> Named(children, k)
      invariant forall j :: 0 <= j < |children| ==>
                  children[j].name in childByName && childByName[children[j].name] == children[j]
    {
      if !arr.items[i].Obj? {
        return Failure(SchemaErr), childByName;
      }
      var c := CompileDocument(arr.items[i], true, formats);
      if c.Failure? {
        return Failure(c.error), childByName;
      }
      if c.value.name in childByName {
        return Failure(SchemaErr), childByName;
      }
      assert !Named(children, c.value.name);
      forall k ensures Named(children + [c.value], k) <==> Named(children, k) || k == c.value.name {
        var more := children + [c.value];
        assert more[|children|].name == c.value.name;
        if Named(children, k) {
          var j :| 0 <= j < |children| && children[j].name == k;
          assert more[j].name == k;
        }
      }
      children := children + [c.value];
      childByName := childByName[c.value.name := c.value];
      i := i + 1;
    }
    r := Success(children);
  }

  /** `_compile_entry` as it runs: fields of the entry are assigned one after the other. */
  method CompileDocument(doc: JSON, allowName: bool, formats: Formats) returns (r: Result<Entry, Error>)
    requires doc.Obj?
    ensures r == CompileEntry(doc, allowName, formats)
    decreases doc, 1
  {
    var fs := doc.fields;
    var i := 0;
    while i < |fs|
      invariant 0 <= i <= |fs|
      invariant forall j :: 0 <= j < i ==> IsSchemaKey(fs[j].key)
    {
      if !IsSchemaKey(fs[i].key) {
        return Failure(SchemaErr);
      }
      i := i + 1;
    }
    var kind := KindField(fs);
    if kind.Failure? { return Failure(kind.error); }
    var name := NameField(fs, allowName);
    if name.Failure? { return Failure(name.error); }
    var entry := Bare(name.value, kind.value);
    var required := FlagField(fs, "required");
    if required.Failure? { return Failure(required.error); }
    entry := entry.(required := required.value);
    var nullable := FlagField(fs, "nullable");
    if nullable.Failure? { return Failure(nullable.error); }
    entry := entry.(nullable := nullable.value);
    assert Header(fs, allowName) == Success(entry);
    var sized := CompileParts(doc, entry, formats);
    if sized.Failure? { return sized; }
    var default := DefaultField(fs, kind.value, nullable.value);
    if default.Failure? { return Failure(default.error); }
    entry := sized.value.(default := default.value);
    r := Success(entry);
  }

  method CompileParts(doc: JSON, e: Entry, formats: Formats) returns (r: Result<Entry, Error>)
    requires doc.Obj?
    ensures r == CompileKind(doc, e, formats)
    decreases doc, 0
  {
    match e.kind
    case ObjectKind =>
      var v := Lookup(doc.fields, "children");
      if v.None? { return Success(e); }
      if !v.value.Arr? { return Failure(SchemaErr); }
      var cs, _ := CompileChildList(v.value, formats);
      if cs.Failure? { return Failure(cs.error); }
      r := Success(e.(children := cs.value));
    case ArrayKind =>
      var v := Lookup(doc.fields, "items");
      if v.None? { return Success(e); }
      if !v.value.Obj? { return Failure(SchemaErr); }
      var c := CompileDocument(v.value, false, formats);
      if c.Failure? { return Failure(c.error); }
      r := Success(e.(items := Some(c.value)));
    case StringKind => r := StringLimits(doc.fields, e, formats);
    case NumberKind => r := NumberLimits(doc.fields, e);
    case _ => r := Success(e);
  }
}
