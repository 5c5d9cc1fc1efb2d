/** JSON pointers (RFC 6901): escaping, parsing, formatting and array indexes. */
module Pointer {
  import opened Wrappers
  import opened Text

  type Path = seq<string>

  function Escape(segment: string): string {
    Replace(Replace(segment, "~", "~0"), "/", "~1")
  }

  function Unescape(segment: string): string {
    Replace(Replace(segment, "~1", "/"), "~0", "~")
  }

  function UnescapeAll(parts: seq<string>): Path {
    seq(|parts|, i requires 0 <= i < |parts| => Unescape(parts[i]))
  }

  function EscapeAll(segments: Path): seq<string> {
    seq(|segments|, i requires 0 <= i < |segments| => Escape(segments[i]))
  }

  function ParsePointer(pointer: string): Result<Path, Error> {
    if pointer == "" then Success([])
    else if pointer[0] != '/' then Failure(ValueErr)
    else Success(UnescapeAll(Split(pointer[1..], '/')))
  }

  function FormatPointer(segments: Path): string {
    if segments == [] then "" else "/" + Join(EscapeAll(segments), '/')
  }

  /** An index, or None for the append marker `-`. */
  function ParseArrayIndex(segment: string, allowAppend: bool): (r: Result<Option<nat>, Error>)
    ensures r.Success? && r.value.None? ==> allowAppend
  {
    if allowAppend && segment == "-" then Success(None)
    else if segment == "" || (segment[0] == '0' && segment != "0") then Failure(ValueErr)
    else if !AllDigits(segment) then Failure(ValueErr)
    else Success(Some(DigitsValue(segment)))
  }

  /** Every `~` is followed by 0 or 1 (the grammar of section 3 of RFC 6901). */
  predicate WellEscaped(s: string) {
    forall i :: 0 <= i < |s| && s[i] == '~' ==> i + 1 < |s| && (s[i + 1] == '0' || s[i + 1] == '1')
  }

  // ----- escaping, one character or one escape sequence at a time

  function EscapeChar(c: char): string {
    if c == '~' then "~0" else if c == '/' then "~1" else [c]
  }

  /** No occurrence starts here, because the texts differ at offset k. */
  lemma {:induction false} ReplaceStep(s: string, pat: string, rep: string, k: nat)
    requires s != [] && k < |pat| && (|s| <= k || s[k] != pat[k])
    ensures Replace(s, pat, rep) == [s[0]] + Replace(s[1..], pat, rep)
  {
    assert !(pat <= s);
    assert s == [s[0]] + s[1..];
  }

  lemma {:induction false} EscapeCons(c: char, t: string)
    ensures Escape([c] + t) == EscapeChar(c) + Escape(t)
  {
    ReplaceCharAppend([c], t, '~', "~0");
    var head := Replace([c], "~", "~0");
    ReplaceCharAppend(head, Replace(t, "~", "~0"), '/', "~1");
    assert Replace([], "~", "~0") == [] == Replace([], "/", "~1");
    assert [c][1..] == [] && "~0"[1..] == "0" && "0"[1..] == [];
    ReplaceStep("0", "/", "~1", 0);
    ReplaceStep("~0", "/", "~1", 0);
    assert Replace(head, "/", "~1") == EscapeChar(c);
  }

  lemma {:induction false} UnescapePlain(c: char, t: string)
    requires c != '~'
    ensures Unescape([c] + t) == [c] + Unescape(t)
  {
    assert ([c] + t)[1..] == t;
    var u := Replace(t, "~1", "/");
    assert ([c] + u)[1..] == u;
    ReplaceStep([c] + t, "~1", "/", 0);
    ReplaceStep([c] + u, "~0", "~", 0);
  }

  lemma {:induction false} UnescapeEscape(d: char, t: string)
    requires d == '0' || d == '1'
    ensures Unescape(['~', d] + t) == [if d == '0' then '~' else '/'] + Unescape(t)
  {
    var s := ['~', d] + t;
    var u := Replace(t, "~1", "/");
    assert s[1..] == [d] + t && s[2..] == t && ([d] + t)[1..] == t;
    if d == '1' {
      assert "~1" <= s;
      assert Replace(s, "~1", "/") == "/" + u;
      assert ("/" + u)[1..] == u;
      ReplaceStep("/" + u, "~0", "~", 0);
    } else {
      ReplaceStep([d] + t, "~1", "/", 0);
      ReplaceStep(s, "~1", "/", 1);
      var w := ['~'] + ([d] + u);
      assert w == "~0" + u && w[2..] == u;
      assert Replace(w, "~0", "~") == "~" + Replace(u, "~0", "~");
    }
  }

  /** Escaping loses nothing, and its output is a well-formed reference token. */
  lemma {:induction false} EscapeRoundTrip(s: string)
    ensures Unescape(Escape(s)) == s
    ensures WellEscaped(Escape(s)) && '/' !in Escape(s)
  {
    if s != [] {
      hide Escape, Unescape;
      var c, t := s[0], s[1..];
      assert s == [c] + t;
      EscapeRoundTrip(t);
      EscapeCons(c, t);
      if c == '~' {
        assert Escape(s) == ['~', '0'] + Escape(t);
        UnescapeEscape('0', Escape(t));
      } else if c == '/' {
        assert Escape(s) == ['~', '1'] + Escape(t);
        UnescapeEscape('1', Escape(t));
      } else {
        UnescapePlain(c, Escape(t));
      }
      var e := EscapeChar(c);
      forall i | 0 <= i < |Escape(s)| && Escape(s)[i] == '~'
        ensures i + 1 < |Escape(s)| && (Escape(s)[i + 1] == '0' || Escape(s)[i + 1] == '1')
      {
        if i >= |e| {
          assert Escape(s)[i] == Escape(t)[i - |e|];
          assert Escape(s)[i + 1] == Escape(t)[i - |e| + 1];
        }
      }
    }
  }

  lemma {:induction false} UnescapeRoundTrip(s: string)
    requires WellEscaped(s) && '/' !in s
    ensures Escape(Unescape(s)) == s
  {
    if s != [] {
      if s[0] == '~' {
        var d, t := s[1], s[2..];
        assert s == ['~', d] + t;
        assert WellEscaped(t) by {
          forall i | 0 <= i < |t| && t[i] == '~'
            ensures i + 1 < |t| && (t[i + 1] == '0' || t[i + 1] == '1')
          {
            assert s[i + 2] == '~';
          }
        }
        UnescapeRoundTrip(t);
        UnescapeEscape(d, t);
        EscapeCons(if d == '0' then '~' else '/', Unescape(t));
      } else {
        var c, t := s[0], s[1..];
        assert s == [c] + t;
        assert WellEscaped(t) by {
          forall i | 0 <= i < |t| && t[i] == '~'
            ensures i + 1 < |t| && (t[i + 1] == '0' || t[i + 1] == '1')
          {
            assert s[i + 1] == '~';
          }
        }
        UnescapeRoundTrip(t);
        UnescapePlain(c, t);
        EscapeCons(c, Unescape(t));
      }
    }
  }

  lemma {:induction false} EscapeInjective(a: string, b: string)
    requires Escape(a) == Escape(b)
    ensures a == b
  {
    EscapeRoundTrip(a);
    EscapeRoundTrip(b);
  }

  // ----- whole pointers

  /** Every segment list survives formatting and parsing (sections 3 and 4 of RFC 6901). */
  lemma {:induction false} ParseFormat(segments: Path)
    ensures ParsePointer(FormatPointer(segments)) == Success(segments)
  {
    if segments != [] {
      var parts := EscapeAll(segments);
      forall i | 0 <= i < |segments|
        ensures '/' !in parts[i] && Unescape(parts[i]) == segments[i]
      {
        EscapeRoundTrip(segments[i]);
      }
      SplitJoin(parts, '/');
      assert FormatPointer(segments)[1..] == Join(parts, '/');
      assert UnescapeAll(parts) == segments;
    }
  }

  /** A part of a split string, as a slice: escapes never straddle a `/`. */
  lemma {:induction false} WellEscapedParts(s: string)
    ensures WellEscaped(s) <==> forall p :: p in Split(s, '/') ==> WellEscaped(p)
  {
    if s != [] {
      var rest := Split(s[1..], '/');
      WellEscapedParts(s[1..]);
      assert rest == [rest[0]] + rest[1..];
      JoinSplit(s[1..], '/');
      if s[0] == '/' {
        assert Split(s, '/') == [[]] + rest;
        WellEscapedTail(s);
      } else {
        var head := [s[0]] + rest[0];
        assert Split(s, '/') == [head] + rest[1..];
        assert s[1..] == if |rest| == 1 then rest[0] else rest[0] + ['/'] + Join(rest[1..], '/');
        WellEscapedTail(s);
        WellEscapedTail(head);
        assert head[1..] == rest[0];
      }
    }
  }

  lemma {:induction false} WellEscapedTail(s: string)
    requires s != []
    ensures WellEscaped(s) <==>
            WellEscaped(s[1..]) && (s[0] == '~' ==> 1 < |s| && (s[1] == '0' || s[1] == '1'))
  {
    forall i | 0 <= i < |s[1..]| ensures s[1..][i] == s[i + 1] { }
    if WellEscaped(s[1..]) && (s[0] == '~' ==> 1 < |s| && (s[1] == '0' || s[1] == '1')) {
      forall i | 0 <= i < |s| && s[i] == '~'
        ensures i + 1 < |s| && (s[i + 1] == '0' || s[i + 1] == '1')
      {
        if i > 0 {
          assert s[1..][i - 1] == '~';
        }
      }
    }
  }

  /** The reverse round trip holds exactly for the pointers of the RFC 6901 grammar. */
  lemma {:induction false} FormatParse(pointer: string)
    requires ParsePointer(pointer).Success?
    ensures FormatPointer(ParsePointer(pointer).value) == pointer <==> WellEscaped(pointer)
  {
    if pointer != "" {
      var body := pointer[1..];
      var parts := Split(body, '/');
      var back := EscapeAll(UnescapeAll(parts));
      JoinSplit(body, '/');
      WellEscapedParts(body);
      WellEscapedTail(pointer);
      assert pointer == "/" + body;
      assert FormatPointer(UnescapeAll(parts)) == "/" + Join(back, '/');
      if WellEscaped(body) {
        forall i | 0 <= i < |parts| ensures back[i] == parts[i] {
          assert parts[i] in parts;
          UnescapeRoundTrip(parts[i]);
        }
        assert back == parts;
      }
      if FormatPointer(UnescapeAll(parts)) == pointer {
        assert Join(back, '/') == body by {
          assert ("/" + Join(back, '/'))[1..] == Join(back, '/');
        }
        forall i | 0 <= i < |back| ensures '/' !in back[i] && WellEscaped(back[i]) {
          EscapeRoundTrip(Unescape(parts[i]));
        }
        SplitJoin(back, '/');
      }
    }
  }

  /** The smallest accepted pointer outside the grammar: "/~" is read as one segment and written
      back as "/~0". */
  lemma {:induction false} BareTildeAccepted()
    ensures ParsePointer("/~") == Success(["~"]) && FormatPointer(["~"]) == "/~0" && !WellEscaped("/~")
  {
    assert "/~"[1..] == "~" && "/~"[1] == '~';
    SplitJoin(["~"], '/');
    assert Split("~", '/') == ["~"];
    assert Unescape("~") == "~" && UnescapeAll(["~"]) == ["~"];
    FormatCons("~", []);
    assert ["~"] + [] == ["~"] && FormatPointer([]) == "";
    EscapeCons('~', "");
    assert ['~'] + "" == "~";
    assert "/" + "~0" + "" == "/~0";
  }

  lemma {:induction false} FormatCons(s: string, t: Path)
    ensures FormatPointer([s] + t) == "/" + Escape(s) + FormatPointer(t)
  {
    assert EscapeAll([s] + t) == [Escape(s)] + EscapeAll(t);
  }

  lemma {:induction false} FormatAppend(a: Path, b: Path)
    ensures FormatPointer(a + b) == FormatPointer(a) + FormatPointer(b)
  {
    if a == [] {
      assert a + b == b;
    } else {
      assert (a + b)[1..] == a[1..] + b;
      HeadAndRest(a);
      HeadAndRest(a + b);
      FormatAppend(a[1..], b);
      var e, x, y := Escape(a[0]), FormatPointer(a[1..]), FormatPointer(b);
      Reassociate(e, x, y);
      Reassociate("/", e + x, y);
    }
  }

  /** A textual prefix ending at a `/` is a segment prefix. */
  lemma {:induction false} PrefixOfFormat(a: Path, b: Path)
    requires FormatPointer(a) + "/" <= FormatPointer(b)
    ensures a < b
  {
    if a != [] {
      assert b != [];
      var (ea, ta) := (Escape(a[0]), FormatPointer(a[1..]) + "/");
      var (eb, tb) := (Escape(b[0]), FormatPointer(b[1..]));
      HeadAndRest(a);
      HeadAndRest(b);
      assert FormatPointer(a) + "/" == "/" + (ea + ta);
      DropFirst(ea + ta, eb + tb);
      EscapeRoundTrip(a[0]);
      EscapeRoundTrip(b[0]);
      StartsWithSlash(a[1..]);
      StartsWithSlash(b[1..]);
      TokenPrefix(ea, ta, eb, tb);
      EscapeInjective(a[0], b[0]);
      PrefixOfFormat(a[1..], b[1..]);
      assert a == [a[0]] + a[1..] && b == [b[0]] + b[1..];
    }
  }

  lemma {:induction false} HeadAndRest(a: Path)
    requires a != []
    ensures FormatPointer(a) == "/" + (Escape(a[0]) + FormatPointer(a[1..]))
  {
    assert a == [a[0]] + a[1..];
    FormatCons(a[0], a[1..]);
  }

  lemma {:induction false} StartsWithSlash(a: Path)
    ensures FormatPointer(a) != "" ==> FormatPointer(a)[0] == '/'
  {
  }

  lemma {:induction false} DropFirst(x: string, y: string)
    requires "/" + x <= "/" + y
    ensures x <= y
  {
    assert x == ("/" + x)[1..] && y == ("/" + y)[1..];
    assert forall i :: 0 <= i < |x| ==> x[i] == ("/" + x)[i + 1] && y[i] == ("/" + y)[i + 1];
  }

  lemma {:induction false} FormatPrefix(a: Path, b: Path)
    ensures FormatPointer(a) + "/" <= FormatPointer(b) <==> a < b
  {
    if a < b {
      var c := b[|a|..];
      assert b == a + c;
      FormatAppend(a, c);
      HeadAndRest(c);
    } else if FormatPointer(a) + "/" <= FormatPointer(b) {
      PrefixOfFormat(a, b);
    }
  }

  /** Two tokens without `/`, one followed by `/` and the other by `/` or the end, agree. */
  lemma {:induction false} TokenPrefix(ea: string, ta: string, eb: string, tb: string)
    requires ea + ta <= eb + tb
    requires '/' !in ea && '/' !in eb
    requires ta != [] && ta[0] == '/'
    requires tb != [] ==> tb[0] == '/'
    ensures ea == eb && ta <= tb
  {
    var x, y := ea + ta, eb + tb;
    assert x[|ea|] == '/' && y[|ea|] == '/';
    assert forall k :: 0 <= k < |eb| ==> y[k] == eb[k] && y[k] != '/';
    assert forall k :: 0 <= k < |ea| ==> x[k] == ea[k] && y[k] == x[k] && y[k] != '/';
    assert |eb| < |y| ==> y[|eb|] == tb[0];
    assert |ea| == |eb|;
    assert ea == x[..|ea|] && eb == y[..|ea|];
    assert ta == x[|ea|..] && tb == y[|ea|..];
  }

  /** What the string guard on `move` decides: section 4.4 of RFC 6902 forbids
      moving a value into one of its own children. */
  predicate MoveGuard(from: string, path: string) {
    from != path && from + "/" <= path
  }

  lemma {:induction false} MoveGuardIsProperPrefix(from: Path, path: Path)
    ensures MoveGuard(FormatPointer(from), FormatPointer(path)) <==> from < path
  {
    FormatPrefix(from, path);
  }

  /** An array index written with `str` is read back as the same index. */
  lemma {:induction false} IndexRoundTrip(i: nat, allowAppend: bool)
    ensures ParseArrayIndex(Decimal(i), allowAppend) == Success(Some(i))
  {
    assert IsDigit(Decimal(i)[0]);
  }

  /** An index is accepted exactly in its decimal form: no sign, no leading zero. */
  lemma {:induction false} IndexIsDecimal(segment: string, allowAppend: bool, i: nat)
    ensures ParseArrayIndex(segment, allowAppend) == Success(Some(i)) <==> segment == Decimal(i)
  {
    IndexRoundTrip(i, allowAppend);
    if ParseArrayIndex(segment, allowAppend) == Success(Some(i)) {
      DecimalOfDigits(segment);
    }
  }

  /** A pointer is the empty text or begins with a slash; anything else is refused. */
  lemma {:induction false} PointerAcceptedIff(pointer: string)
    ensures ParsePointer(pointer).Success? <==> pointer == "" || pointer[0] == '/'
    ensures ParsePointer(pointer) == Success([]) <==> pointer == ""
  {
  }
}
