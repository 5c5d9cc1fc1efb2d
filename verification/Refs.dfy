/** Document reference strings: `@__collection__id` and `@@__collection__id`. */
module Refs {
  import opened Text

  datatype RefKind = Direct | Cached

  datatype Parsed = NotARef | Ref(kind: RefKind, collection: string, id: string, raw: string) | Invalid

  const SEP := "__"

  function Marker(kind: RefKind): string {
    if kind.Cached? then "@@__" else "@__"
  }

  /** `format_direct` and `format_cached`. */
  function Format(kind: RefKind, collection: string, id: string): string {
    Marker(kind) + (collection + (SEP + id))
  }

  /** `parse_ref`; Invalid is its ValueError. */
  function ParseRef(text: string): Parsed {
    var s := Strip(text);
    if s == "" then NotARef
    else if Marker(Cached) <= s then ParseRest(Cached, s, s[4..])
    else if Marker(Direct) <= s then ParseRest(Direct, s, s[3..])
    else NotARef
  }

  function ParseRest(kind: RefKind, s: string, rest: string): Parsed {
    var i := Find(rest, SEP);
    if i == 0 || i + 2 >= |rest| then Invalid
    else Ref(kind, rest[..i], rest[i + 2..], s)
  }

  /** Every accepted reference is the formatting of its parts, up to surrounding whitespace. */
  lemma {:induction false} ParsedFormat(text: string)
    requires ParseRef(text).Ref?
    ensures var r := ParseRef(text);
            Format(r.kind, r.collection, r.id) == Strip(text) == r.raw && r.collection != "" && r.id != ""
  {
    hide Strip;
    var s := Strip(text);
    var kind := ParseRef(text).kind;
    var rest := s[|Marker(kind)|..];
    assert Marker(kind) <= s && s == Marker(kind) + rest;
    assert ParseRef(text) == ParseRest(kind, s, rest);
    hide ParseRef, ParseRest;
    RestFormat(kind, s, rest);
  }

  lemma {:induction false} RestFormat(kind: RefKind, s: string, rest: string)
    requires s == Marker(kind) + rest && ParseRest(kind, s, rest).Ref?
    ensures var r := ParseRest(kind, s, rest);
            r.kind == kind && r.raw == s && Format(kind, r.collection, r.id) == s && r.collection != "" && r.id != ""
  {
    var i := Find(rest, SEP);
    TakeDrop(rest, i);
    PrefixRest(SEP, rest[i..]);
    assert rest[i..][2..] == rest[i + 2..];
  }

  lemma {:induction false} PrefixRest(p: string, s: string)
    requires p <= s
    ensures s == p + s[|p|..]
  {
  }

  /** The collection name can be told from what follows it. */
  predicate Separable(collection: string) {
    && collection != ""
    && Find(collection, SEP) > |collection|
    && collection[|collection| - 1] != '_'
  }

  lemma {:induction false} FindSeparator(collection: string, id: string)
    requires collection != ""
    ensures Find(collection + (SEP + id), SEP) == |collection| <==> Separable(collection)
  {
    var n := |collection|;
    var rest := collection + (SEP + id);
    var i := Find(rest, SEP);
    assert rest[n..] == SEP + id && SEP <= rest[n..];
    assert rest[n] == '_';
    if Separable(collection) {
      forall k | 0 <= k < n ensures !(SEP <= rest[k..]) {
        assert rest[k..][0] == collection[k];
        assert k + 1 < n ==> rest[k..][1] == collection[k + 1] && !(SEP <= collection[k..]);
        assert k + 1 < n ==> collection[k..][0] == collection[k] && collection[k..][1] == collection[k + 1];
      }
    } else if collection[n - 1] == '_' {
      assert rest[n - 1..][0] == '_' && rest[n - 1..][1] == '_';
      assert SEP <= rest[n - 1..];
    } else {
      var k := Find(collection, SEP);
      assert SEP <= collection[k..];
      assert collection[k..][0] == '_' && collection[k..][1] == '_';
      assert rest[k..][0] == '_' && rest[k..][1] == '_';
      assert SEP <= rest[k..];
    }
  }

  /** Parsing a formatted reference gives back exactly its parts if and only if the collection is
      non-empty, has no double underscore and no underscore at its end, and the id is non-empty
      and does not end in whitespace. */
  lemma {:induction false} FormatRoundTrip(kind: RefKind, collection: string, id: string)
    ensures var s := Format(kind, collection, id);
            ParseRef(s) == Ref(kind, collection, id, s)
            <==> Separable(collection) && id != "" && !IsSpace(id[|id| - 1])
  {
    var s := Format(kind, collection, id);
    StripOnce(s);
    assert s[|s| - 1] == if id == "" then '_' else id[|id| - 1];
    hide Strip;
    if Strip(s) == s {
      ParseUnstripped(kind, collection, id);
    }
  }

  lemma {:induction false} ParseUnstripped(kind: RefKind, collection: string, id: string)
    requires Strip(Format(kind, collection, id)) == Format(kind, collection, id)
    ensures var s := Format(kind, collection, id);
            ParseRef(s) == Ref(kind, collection, id, s) <==> Separable(collection) && id != ""
  {
    hide Strip, Separable, ParseRest;
    var s := Format(kind, collection, id);
    var rest := collection + (SEP + id);
    DropMarker(kind, rest);
    RestParses(kind, s, collection, id);
  }

  lemma {:induction false} DropMarker(kind: RefKind, rest: string)
    ensures var s := Marker(kind) + rest;
            && s != "" && s[|Marker(kind)|..] == rest && Marker(kind) <= s
            && (kind.Direct? ==> !(Marker(Cached) <= s))
  {
    var s := Marker(kind) + rest;
    assert kind.Direct? ==> s[1] == '_' && Marker(Cached)[1] == '@';
  }

  lemma {:induction false} RestParses(kind: RefKind, s: string, collection: string, id: string)
    ensures var rest := collection + (SEP + id);
            ParseRest(kind, s, rest) == Ref(kind, collection, id, s) <==> Separable(collection) && id != ""
  {
    hide Separable;
    var rest := collection + (SEP + id);
    var n := |collection|;
    if collection == "" {
      NotSeparable();
      assert rest == SEP + id && SEP <= rest[0..];
    } else {
      FindSeparator(collection, id);
      assert rest[..n] == collection && rest[n + 2..] == id;
      var i := Find(rest, SEP);
      assert i <= |rest| && i != n ==> |rest[..i]| != n;
    }
  }

  lemma {:induction false} NotSeparable()
    ensures !Separable("")
  {
  }

  /** A text is no reference at all exactly when, stripped, it begins with neither marker; what
      begins with one is of that kind or invalid. */
  lemma {:induction false} MarkerDecides(text: string)
    ensures ParseRef(text).NotARef? <==> !("@__" <= Strip(text)) && !("@@__" <= Strip(text))
    ensures ParseRef(text).Ref? ==> (ParseRef(text).kind.Cached? <==> "@@__" <= Strip(text))
    ensures ParseRef(text).Ref? ==> (ParseRef(text).kind.Direct? <==> "@__" <= Strip(text))
  {
    hide Strip;
    var s := Strip(text);
    assert "@__"[1] == '_' && "@@__"[1] == '@';
  }

  /** Of what begins with a marker, exactly the formattings of a separable collection and a
      non-empty id are references; the rest is invalid. */
  lemma {:induction false} AcceptedIff(text: string)
    ensures ParseRef(text).Ref? <==>
              exists kind, collection, id :: Separable(collection) && id != "" && Strip(text) == Format(kind, collection, id)
  {
    if ParseRef(text).Ref? {
      ParsedFormat(text);
      ParsedSeparable(text);
      var r := ParseRef(text);
      assert Separable(r.collection) && r.id != "" && Strip(text) == Format(r.kind, r.collection, r.id);
    }
    if kind, collection, id :| Separable(collection) && id != "" && Strip(text) == Format(kind, collection, id) {
      var s := Format(kind, collection, id);
      StripTwice(text);
      FormatRoundTrip(kind, collection, id);
      ParseUnstripped(kind, collection, id);
      ParseStripped(text);
    }
  }

  lemma {:induction false} ParsedSeparable(text: string)
    requires ParseRef(text).Ref?
    ensures Separable(ParseRef(text).collection)
  {
    ParsedFormat(text);
    var r := ParseRef(text);
    FindSeparator(r.collection, r.id);
    var rest := Strip(text)[|Marker(r.kind)|..];
    DropMarker(r.kind, r.collection + (SEP + r.id));
  }

  lemma {:induction false} StripTwice(text: string)
    ensures Strip(Strip(text)) == Strip(text)
  {
    var s := Strip(text);
    if s != "" {
      StripOnce(s);
    }
  }

  lemma {:induction false} ParseStripped(text: string)
    ensures ParseRef(Strip(text)) == ParseRef(text)
  {
    StripTwice(text);
  }
}
