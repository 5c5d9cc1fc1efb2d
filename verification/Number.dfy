/** JSON number lexemes (section 6 of RFC 8259) as exact rationals. */
module Number {
  import opened Wrappers
  import opened Text

  datatype Exponent = Exponent(marker: char, sign: string, digits: string) {
    predicate Valid() {
      && (marker == 'e' || marker == 'E')
      && (sign == "" || sign == "+" || sign == "-")
      && IsDigits(digits)
    }

    function Render(): string {
      [marker] + (sign + digits)
    }

    function Value(): int
      requires Valid()
    {
      if sign == "-" then -(DigitsValue(digits) as int) else DigitsValue(digits)
    }
  }

  /** The parts of a number text, as the groups of the grammar's regular expression. */
  datatype Lexeme = Lexeme(negative: bool, whole: string, fraction: Option<string>, exponent: Option<Exponent>) {
    predicate Valid() {
      && IsInteger(whole)
      && (fraction.Some? ==> IsDigits(fraction.value))
      && (exponent.Some? ==> exponent.value.Valid())
    }

    function FractionDigits(): string {
      fraction.GetOr("")
    }

    /** Everything before the exponent. */
    function RenderBase(): string {
      RenderSign(negative) + (whole + RenderFraction(fraction))
    }

    function Render(): string {
      RenderSign(negative) + (whole + (RenderFraction(fraction) + RenderExponent(exponent)))
    }

    /** The signed integer spelled by all the digits, decimal point ignored. */
    function Mantissa(): int
      requires Valid()
    {
      AllDigitsAppend(whole, FractionDigits());
      Signed(negative, DigitsValue(whole + FractionDigits()))
    }

    /** The power of ten that the mantissa is scaled by. */
    function Scale(): int
      requires Valid()
    {
      (if exponent.Some? then exponent.value.Value() else 0) - |FractionDigits()|
    }

    function Value(): real
      requires Valid()
    {
      Shift(Mantissa() as real, Scale())
    }
  }

  function Signed(negative: bool, n: nat): int {
    if negative then -(n as int) else n
  }

  function RenderSign(negative: bool): string {
    if negative then "-" else ""
  }

  function RenderFraction(f: Option<string>): string {
    if f.Some? then "." + f.value else ""
  }

  function RenderExponent(e: Option<Exponent>): string {
    if e.Some? then e.value.Render() else ""
  }

  lemma {:induction false} AllDigitsAppend(a: string, b: string)
    ensures AllDigits(a + b) <==> AllDigits(a) && AllDigits(b)
  {
    if AllDigits(a + b) {
      forall i | 0 <= i < |b| ensures IsDigit(b[i]) {
        assert b[i] == (a + b)[|a| + i];
      }
      forall i | 0 <= i < |a| ensures IsDigit(a[i]) {
        assert a[i] == (a + b)[i];
      }
    }
  }

  predicate IsDigits(s: string) {
    s != "" && AllDigits(s)
  }

  /** `0` or a digit string without leading zero. */
  predicate IsInteger(s: string) {
    IsDigits(s) && (s[0] == '0' ==> |s| == 1)
  }

  /** m * 10**n. */
  function TimesTen(m: int, n: nat): int {
    if n == 0 then m else 10 * TimesTen(m, n - 1)
  }

  /** The rational x * 10**k, for any integer k. */
  function Shift(x: real, k: int): real
    decreases if k < 0 then -k else k
  {
    if k == 0 then x
    else if k > 0 then 10.0 * Shift(x, k - 1)
    else Shift(x, k + 1) / 10.0
  }

  // ----- recognising a text

  /** Length of the leading run of digits. */
  function DigitRun(s: string): (n: nat)
    ensures n <= |s|
  {
    if s == [] || !IsDigit(s[0]) then 0 else 1 + DigitRun(s[1..])
  }

  function ScanExponent(s: string): Option<Exponent> {
    if s == "" || (s[0] != 'e' && s[0] != 'E') then None
    else
      var sign := if |s| > 1 && (s[1] == '+' || s[1] == '-') then [s[1]] else "";
      var digits := s[1 + |sign|..];
      if IsDigits(digits) then Some(Exponent(s[0], sign, digits)) else None
  }

  /** An optional fraction and the text after it; None when a point has no digits. */
  function ScanFraction(s: string): Option<(Option<string>, string)> {
    if s == "" || s[0] != '.' then Some((None, s))
    else
      var n := DigitRun(s[1..]);
      if n == 0 then None else Some((Some(s[1..][..n]), s[1..][n..]))
  }

  /** The one way to read a text as a number, None when the grammar rejects it. */
  function Scan(text: string): Option<Lexeme> {
    var negative := text != "" && text[0] == '-';
    var body := if negative then text[1..] else text;
    var n := DigitRun(body);
    var f := ScanFraction(body[n..]);
    if !IsInteger(body[..n]) || f.None? then None
    else if f.value.1 == "" then Some(Lexeme(negative, body[..n], f.value.0, None))
    else
      var e := ScanExponent(f.value.1);
      if e.None? then None else Some(Lexeme(negative, body[..n], f.value.0, e))
  }

  lemma {:induction false} DigitRunSound(s: string)
    ensures AllDigits(s[..DigitRun(s)])
  {
    if s != [] && IsDigit(s[0]) {
      DigitRunSound(s[1..]);
      assert s[..DigitRun(s)] == [s[0]] + s[1..][..DigitRun(s[1..])];
    }
  }

  lemma {:induction false} ScanExponentSound(s: string)
    requires ScanExponent(s).Some?
    ensures ScanExponent(s).value.Valid() && ScanExponent(s).value.Render() == s
  {
    var e := ScanExponent(s).value;
    assert s == [s[0]] + (e.sign + e.digits);
  }

  lemma {:induction false} ScanFractionSound(s: string)
    requires ScanFraction(s).Some?
    ensures var (f, tail) := ScanFraction(s).value;
            s == RenderFraction(f) + tail && (f.Some? ==> IsDigits(f.value))
  {
    if s != "" && s[0] == '.' {
      var n := DigitRun(s[1..]);
      DigitRunSound(s[1..]);
      assert s == ("." + s[1..][..n]) + s[1..][n..];
    }
  }

  /** Scanning accepts nothing outside the grammar. */
  lemma {:induction false} ScanSound(text: string)
    requires Scan(text).Some?
    ensures Scan(text).value.Valid() && Scan(text).value.Render() == text
  {
    var negative := text != "" && text[0] == '-';
    assert negative ==> text[..1] == "-";
    if negative { TakeDrop(text, 1); }
    ScanBodySound(negative, if negative then text[1..] else text);
    assert !negative ==> "" + text == text;
  }

  lemma {:induction false} ScanBodySound(negative: bool, body: string)
    requires var n := DigitRun(body);
             && IsInteger(body[..n])
             && ScanFraction(body[n..]).Some?
             && var (f, tail) := ScanFraction(body[n..]).value; (tail == "" || ScanExponent(tail).Some?)
    ensures var n := DigitRun(body);
            var (f, tail) := ScanFraction(body[n..]).value;
            var l := Lexeme(negative, body[..n], f, if tail == "" then None else ScanExponent(tail));
            l.Valid() && l.Render() == RenderSign(negative) + body
  {
    var n := DigitRun(body);
    TakeDrop(body, n);
    ScanFractionSound(body[n..]);
    var tail := ScanFraction(body[n..]).value.1;
    if tail != "" {
      ScanExponentSound(tail);
    }
  }

  /** `is_valid_number`. */
  predicate IsValidNumber(text: string) {
    Scan(text).Some?
  }

  lemma {:induction false} DigitRunOf(d: string, rest: string)
    requires AllDigits(d) && (rest != "" ==> !IsDigit(rest[0]))
    ensures DigitRun(d + rest) == |d|
  {
    if d == "" {
      assert d + rest == rest;
    } else {
      assert (d + rest)[1..] == d[1..] + rest;
      DigitRunOf(d[1..], rest);
    }
  }

  lemma {:induction false} ScanExponentComplete(e: Exponent)
    requires e.Valid()
    ensures ScanExponent(e.Render()) == Some(e)
  {
    var s := e.Render();
    assert IsDigit(e.digits[0]);
    assert s[1..] == e.sign + e.digits;
    assert s[1 + |e.sign|..] == e.digits;
    if e.sign == "" {
      assert s[1] == e.digits[0];
    } else {
      assert s[1] == e.sign[0];
    }
  }

  lemma {:induction false} ScanFractionComplete(f: Option<string>, tail: string)
    requires f.Some? ==> IsDigits(f.value)
    requires tail != "" ==> !IsDigit(tail[0]) && tail[0] != '.'
    ensures ScanFraction(RenderFraction(f) + tail) == Some((f, tail))
  {
    var s := RenderFraction(f) + tail;
    if f.Some? {
      assert s[1..] == f.value + tail;
      DigitRunOf(f.value, tail);
      assert s[1..][..|f.value|] == f.value && s[1..][|f.value|..] == tail;
    } else {
      assert s == tail;
    }
  }

  lemma {:induction false} Slices(a: string, b: string)
    ensures (a + b)[..|a|] == a && (a + b)[|a|..] == b
  {
  }

  /** Scanning misses nothing inside the grammar: every rendered lexeme has one reading. */
  lemma {:induction false} ScanComplete(l: Lexeme)
    requires l.Valid()
    ensures Scan(l.Render()) == Some(l)
  {
    var tail := RenderExponent(l.exponent);
    var rest := RenderFraction(l.fraction) + tail;
    var body := l.whole + rest;
    assert IsDigit(body[0]) by { assert body[0] == l.whole[0]; }
    Slices(RenderSign(l.negative), body);
    assert rest != "" ==> !IsDigit(rest[0]);
    DigitRunOf(l.whole, rest);
    Slices(l.whole, rest);
    ScanFractionComplete(l.fraction, tail);
    if l.exponent.Some? {
      ScanExponentComplete(l.exponent.value);
    }
  }

  // ----- the rational

  function RationalOf(text: string): Result<real, Error> {
    match Scan(text)
    case None => Failure(ValueErr)
    case Some(l) => ScanSound(text); Success(l.Value())
  }

  lemma {:induction false} RationalRender(l: Lexeme)
    requires l.Valid()
    ensures RationalOf(l.Render()) == Success(l.Value())
  {
    ScanComplete(l);
  }

  /** `int(s)` for an optional sign and digits. */
  function SignedValue(s: string): int
    requires IsDigits(s) || (s != "" && (s[0] == '+' || s[0] == '-') && IsDigits(s[1..]))
  {
    if s[0] == '-' then -(DigitsValue(s[1..]) as int)
    else if s[0] == '+' then DigitsValue(s[1..])
    else DigitsValue(s)
  }

  lemma {:induction false} BaseThenExponent(l: Lexeme)
    ensures l.Render() == l.RenderBase() + RenderExponent(l.exponent)
  {
    var a, b, c := RenderSign(l.negative), l.whole, RenderFraction(l.fraction);
    var d := RenderExponent(l.exponent);
    assert b + (c + d) == (b + c) + d;
    assert a + ((b + c) + d) == (a + (b + c)) + d;
  }

  /** Python's reading of the exponent text. */
  lemma {:induction false} ExponentText(e: Exponent)
    requires e.Valid()
    ensures var t := e.Render()[1..];
            && t == e.sign + e.digits
            && (IsDigits(t) || (t != "" && (t[0] == '+' || t[0] == '-') && IsDigits(t[1..])))
            && SignedValue(t) == e.Value()
  {
    var t := e.sign + e.digits;
    assert e.Render()[1..] == t;
    assert IsDigit(e.digits[0]);
    if e.sign == "" {
      assert t == e.digits;
    } else {
      assert t[1..] == e.digits && t[0] == e.sign[0];
    }
  }

  lemma {:induction false} MarkerPosition(text: string, l: Lexeme)
    requires l.Valid() && l.Render() == text
    ensures var mark := |l.RenderBase()|;
            && mark <= |text| && text[..mark] == l.RenderBase()
            && (forall k :: 0 <= k < mark ==> text[k] != 'e' && text[k] != 'E')
            && (mark < |text| <==> l.exponent.Some?)
            && (mark < |text| ==> (text[mark] == 'e' || text[mark] == 'E')
                                  && text[mark + 1..] == l.exponent.value.Render()[1..])
  {
    BaseHasNoMarker(l);
    BaseThenExponent(l);
    var mark := |l.RenderBase()|;
    Slices(l.RenderBase(), RenderExponent(l.exponent));
    assert forall k :: 0 <= k < mark ==> text[k] == l.RenderBase()[k];
    if mark < |text| {
      assert text[mark] == text[mark..][0];
      assert text[mark..][1..] == text[mark + 1..];
    }
  }

  /** The text before the first exponent marker, and the exponent (0 when there is none). */
  method SplitExponent(text: string, ghost l: Lexeme) returns (base: string, exp: int)
    requires l.Valid() && l.Render() == text
    ensures base == l.RenderBase()
    ensures exp == if l.exponent.Some? then l.exponent.value.Value() else 0
  {
    MarkerPosition(text, l);
    ghost var mark := |l.RenderBase()|;
    base := text;
    exp := 0;
    var i := 0;
    while i < |text|
      invariant 0 <= i <= mark
      invariant base == text && exp == 0
    {
      if text[i] == 'e' || text[i] == 'E' {
        assert i == mark;
        ExponentText(l.exponent.value);
        return text[..i], SignedValue(text[i + 1..]);
      }
      assert i != mark;
      i := i + 1;
    }
  }

  lemma {:induction false} BaseHasNoMarker(l: Lexeme)
    requires l.Valid()
    ensures 'e' !in l.RenderBase() && 'E' !in l.RenderBase()
  {
    NoLetter(l.whole);
    if l.fraction.Some? { NoLetter(l.fraction.value); }
  }

  lemma {:induction false} NoLetter(s: string)
    requires AllDigits(s)
    ensures forall c :: c in s ==> IsDigit(c)
  {
  }

  lemma {:induction false} DotPosition(whole: string, frac: string)
    requires AllDigits(whole) && (frac != "" ==> frac[0] == '.')
    ensures Find(whole + frac, ".") == if frac == "" then |whole + frac| + 1 else |whole|
  {
    var s := whole + frac;
    var i := Find(s, ".");
    assert forall k :: 0 <= k < |whole| ==> s[k..][0] == whole[k];
    if frac != "" {
      assert s[|whole|..] == frac;
      assert "." <= s[|whole|..];
    }
  }

  /** The digits of a base text with the point removed, and how many follow the point. */
  method SplitPoint(base: string, ghost l: Lexeme) returns (digits: string, fractionDigits: nat)
    requires l.Valid() && base == l.whole + RenderFraction(l.fraction)
    ensures digits == l.whole + l.FractionDigits() && fractionDigits == |l.FractionDigits()|
  {
    fractionDigits := 0;
    digits := base;
    DotPosition(l.whole, RenderFraction(l.fraction));
    Slices(l.whole, RenderFraction(l.fraction));
    var dot := Find(base, ".");
    if dot <= |base| {
      assert base[dot..][1..] == base[dot + 1..];
      assert RenderFraction(l.fraction)[1..] == l.fraction.value;
      fractionDigits := |base[dot + 1..]|;
      digits := base[..dot] + base[dot + 1..];
    }
  }

  /** `parse_json_number_rat`: what the scan over the text computes is the lexeme's
      sign and digits times ten to the exponent minus the number of fraction digits. */
  method ParseJsonNumberRat(text: string) returns (r: Result<real, Error>)
    ensures r == RationalOf(text)
  {
    var l := Scan(text);
    if l.None? {
      return Failure(ValueErr);
    }
    ScanSound(text);
    r := ReadValue(text, l.value);
  }

  method ReadValue(text: string, ghost l: Lexeme) returns (r: Result<real, Error>)
    requires l.Valid() && l.Render() == text
    ensures r == Success(l.Value())
  {
    var base, exp := SplitExponent(text, l);
    var numerator, fractionDigits := SplitSign(base, l);
    var scale := fractionDigits - exp;
    assert -scale == l.Scale();
    var f := Fraction(numerator, scale);
    r := Success(f);
  }

  /** The signed integer of the digits of a base text, and how many follow the point. */
  method SplitSign(text: string, ghost l: Lexeme) returns (numerator: int, fractionDigits: nat)
    requires l.Valid() && text == l.RenderBase()
    ensures numerator == l.Mantissa()
    ensures fractionDigits == |l.FractionDigits()|
  {
    ghost var unsigned := l.whole + RenderFraction(l.fraction);
    assert IsDigit(unsigned[0]) by { assert unsigned[0] == l.whole[0]; }
    Slices(RenderSign(l.negative), unsigned);
    var base := text;
    var sign: int := 1;
    if base[0] == '-' {
      sign := -1;
      base := base[1..];
    }
    var digits;
    digits, fractionDigits := SplitPoint(base, l);
    AllDigitsAppend(l.whole, l.FractionDigits());
    numerator := sign * DigitsValue(digits);
  }

  /** numerator / 10**scale, by an integer product when the scale is negative. */
  method Fraction(numerator: int, scale: int) returns (f: real)
    ensures f == Shift(numerator as real, -scale)
  {
    if scale < 0 {
      ShiftInteger(numerator, -scale);
      f := TimesTen(numerator, -scale) as real;
    } else {
      ShiftDown(numerator as real, scale);
      Quotient(Shift(numerator as real, -scale), TimesTen(1, scale) as real);
      f := numerator as real / TimesTen(1, scale) as real;
    }
  }

  lemma {:induction false} ShiftDown(x: real, n: nat)
    ensures TimesTen(1, n) > 0 && Shift(x, 0 - n) * TimesTen(1, n) as real == x
  {
    if n > 0 {
      ShiftDown(x, n - 1);
      ShiftStep(x, 0 - n);
      TenAcross(Shift(x, 0 - n), TimesTen(1, n - 1) as real);
    }
  }

  lemma {:induction false} TenAcross(y: real, p: real)
    ensures y * (10.0 * p) == (10.0 * y) * p
  {
  }

  lemma {:induction false} Quotient(y: real, p: real)
    requires p > 0.0
    ensures y == y * p / p
  {
  }

  lemma {:induction false} ShiftInteger(m: int, n: nat)
    ensures Shift(m as real, n) == TimesTen(m, n) as real
  {
    if n > 0 {
      ShiftInteger(m, n - 1);
    }
  }

  // ----- equality of numbers

  /** `values_equal_number`: rational equality, text equality when either text is no number. */
  predicate ValuesEqualNumber(a: string, b: string) {
    if RationalOf(a).Success? && RationalOf(b).Success? then RationalOf(a) == RationalOf(b) else a == b
  }

  lemma {:induction false} ShiftMore(x: real, k: int, n: nat)
    ensures Shift(x, k + n) == Shift(Shift(x, n), k)
    decreases if k < 0 then -k else k
  {
    if k > 0 {
      ShiftMore(x, k - 1, n);
    } else if k < 0 {
      ShiftMore(x, k + 1, n);
      ShiftStep(x, k + n);
    }
  }

  lemma {:induction false} ShiftStep(x: real, k: int)
    ensures Shift(x, k + 1) == 10.0 * Shift(x, k)
  {
  }

  lemma {:induction false} ShiftInjective(x: real, y: real, k: int)
    ensures Shift(x, k) == Shift(y, k) <==> x == y
    decreases if k < 0 then -k else k
  {
    if k != 0 {
      ShiftInjective(x, y, if k > 0 then k - 1 else k + 1);
    }
  }

  /** Two number texts are equal exactly when their integer mantissas agree after
      scaling to the smaller power of ten: no rounding, no limit on the digits. */
  lemma {:induction false} EqualNumbersIff(a: Lexeme, b: Lexeme)
    requires a.Valid() && b.Valid() && a.Scale() >= b.Scale()
    ensures ValuesEqualNumber(a.Render(), b.Render())
            <==> TimesTen(a.Mantissa(), a.Scale() - b.Scale()) == b.Mantissa()
  {
    EqualValues(a, b);
    EqualScaled(a.Mantissa(), a.Scale(), b.Mantissa(), b.Scale());
  }

  lemma {:induction false} EqualValues(a: Lexeme, b: Lexeme)
    requires a.Valid() && b.Valid()
    ensures ValuesEqualNumber(a.Render(), b.Render()) <==> a.Value() == b.Value()
  {
    RationalRender(a);
    RationalRender(b);
  }

  lemma {:induction false} EqualScaled(m: int, j: int, n: int, k: int)
    requires j >= k
    ensures Shift(m as real, j) == Shift(n as real, k) <==> TimesTen(m, j - k) == n
  {
    var d := j - k;
    assert Shift(m as real, j) == Shift(Shift(m as real, d), k) by {
      ShiftMore(m as real, k, d);
    }
    assert Shift(m as real, d) == TimesTen(m, d) as real by {
      ShiftInteger(m, d);
    }
    ShiftInjective(TimesTen(m, d) as real, n as real, k);
  }

  /** Zeros appended to the fraction do not change the number. */
  lemma {:induction false} TrailingFractionZero(l: Lexeme, z: Lexeme)
    requires l.Valid() && l.fraction.Some?
    requires z == l.(fraction := Some(l.fraction.value + "0"))
    ensures z.Valid() && ValuesEqualNumber(l.Render(), z.Render())
  {
    AllDigitsAppend(l.fraction.value, "0");
    AllDigitsAppend(l.whole, l.fraction.value);
    AllDigitsAppend(l.whole, z.fraction.value);
    var d := l.whole + z.fraction.value;
    assert d[..|d| - 1] == l.whole + l.fraction.value;
    assert DigitsValue(d) == 10 * DigitsValue(l.whole + l.fraction.value);
    assert z.Mantissa() == 10 * l.Mantissa() && z.Scale() == l.Scale() - 1;
    assert TimesTen(l.Mantissa(), 1) == 10 * TimesTen(l.Mantissa(), 0);
    EqualNumbersIff(l, z);
  }

  /** Moving the decimal point and shifting the exponent by as much keeps the number. */
  lemma {:induction false} PointShift(a: Lexeme, b: Lexeme)
    requires a.Valid() && b.Valid() && a.negative == b.negative
    requires a.whole + a.FractionDigits() == b.whole + b.FractionDigits()
    requires a.Scale() == b.Scale()
    ensures ValuesEqualNumber(a.Render(), b.Render())
  {
    EqualValues(a, b);
  }

  // ----- constructor hygiene

  /** The shape of every number text: a digit first behind the sign, no second digit behind a
      leading zero, and a digit last. */
  lemma {:induction false} NumberShape(s: string)
    requires Scan(s).Some?
    ensures var from := if s != "" && s[0] == '-' then 1 else 0;
            && from < |s| && IsDigit(s[from]) && IsDigit(s[|s| - 1])
            && (s[from] == '0' && from + 1 < |s| ==> !IsDigit(s[from + 1]))
  {
    ScanSound(s);
    var l := Scan(s).value;
    hide Scan;
    var sign, tail := RenderSign(l.negative), RenderFraction(l.fraction) + RenderExponent(l.exponent);
    assert s == sign + (l.whole + tail);
    assert tail != "" ==> !IsDigit(tail[0]);
    assert IsDigit(l.whole[0]) && IsDigit(l.whole[|l.whole| - 1]);
    LastDigit(l);
    assert s[|sign|] == l.whole[0];
    if |sign| + 1 < |s| && l.whole[0] == '0' {
      assert |l.whole| == 1 && s[|sign| + 1] == tail[0];
    }
  }

  lemma {:induction false} LastDigit(l: Lexeme)
    requires l.Valid()
    ensures var s := l.Render(); s != "" && IsDigit(s[|s| - 1])
  {
    BaseThenExponent(l);
    if l.exponent.Some? {
      var d := l.exponent.value.digits;
      assert IsDigit(d[|d| - 1]) && l.Render()[|l.Render()| - 1] == d[|d| - 1];
    } else if l.fraction.Some? {
      var f := l.fraction.value;
      assert IsDigit(f[|f| - 1]) && l.Render()[|l.Render()| - 1] == f[|f| - 1];
    } else {
      assert IsDigit(l.whole[|l.whole| - 1]) && l.Render()[|l.Render()| - 1] == l.whole[|l.whole| - 1];
    }
  }

  // ----- what the parts of a text contribute

  lemma {:induction false} ShiftNegate(x: real, k: int)
    ensures Shift(-x, k) == -Shift(x, k)
    decreases if k < 0 then -k else k
  {
    if k != 0 {
      ShiftNegate(x, if k > 0 then k - 1 else k + 1);
    }
  }

  lemma {:induction false} ShiftBoth(x: real, i: int, j: int)
    ensures Shift(Shift(x, i), j) == Shift(x, i + j)
    decreases if j < 0 then -j else j
  {
    if j > 0 {
      ShiftBoth(x, i, j - 1);
      ShiftStep(x, i + j - 1);
    } else if j < 0 {
      ShiftBoth(x, i, j + 1);
      ShiftStep(x, i + j);
    }
  }

  /** 10**n. */
  function TenTo(n: nat): (p: real)
    ensures p > 0.0
  {
    ShiftDown(0.0, n);
    TimesTen(1, n) as real
  }

  lemma {:induction false} ShiftUp(x: real, n: nat)
    ensures Shift(x, n) == x * TenTo(n)
  {
    if n > 0 {
      ShiftUp(x, n - 1);
      TenAcross(x, TenTo(n - 1));
    }
  }

  /** The decimal form of a natural number denotes it. */
  lemma {:induction false} IntegerText(n: nat)
    ensures RationalOf(Decimal(n)) == Success(n as real)
  {
    var l := Lexeme(false, Decimal(n), None, None);
    assert l.Render() == Decimal(n);
    assert Decimal(n) + "" == Decimal(n);
    RationalRender(l);
  }

  lemma {:induction false} UnsignedScan(s: string)
    requires Scan(s).Some? && s != "" && s[0] != '-'
    ensures !Scan(s).value.negative
  {
    ScanSound(s);
  }

  lemma {:induction false} SignFirst(s: string)
    requires s == "" || s[0] != '-'
    ensures var t := "-" + s;
            && (Scan(t).Some? <==> Scan(s).Some?)
            && (Scan(s).Some? ==> Scan(t).Some? && Scan(t).value == Scan(s).value.(negative := true) && !Scan(s).value.negative)
  {
    hide *;
    if Scan(s).Some? { SignAdded(s); }
    if Scan("-" + s).Some? { SignDropped(s); }
  }

  lemma {:induction false} RenderSigned(l: Lexeme)
    requires !l.negative
    ensures l.(negative := true).Render() == "-" + l.Render()
  {
  }

  lemma {:induction false} SignAdded(s: string)
    requires (s == "" || s[0] != '-') && Scan(s).Some?
    ensures !Scan(s).value.negative && Scan("-" + s) == Some(Scan(s).value.(negative := true))
  {
    ScanSound(s);
    var l := Scan(s).value;
    assert !l.negative;
    assert l.(negative := true).Valid();
    hide *;
    RenderSigned(l);
    ScanComplete(l.(negative := true));
  }

  lemma {:induction false} SignDropped(s: string)
    requires (s == "" || s[0] != '-') && Scan("-" + s).Some?
    ensures Scan(s).Some?
  {
    var t := "-" + s;
    ScanSound(t);
    var m := Scan(t).value;
    var l := m.(negative := false);
    assert m.negative;
    assert l.Valid();
    hide *;
    RenderSigned(l);
    assert s == t[1..] && l.Render() == ("-" + l.Render())[1..];
    ScanComplete(l);
  }

  /** A leading minus makes the number its negative; it neither makes nor breaks a number. */
  lemma {:induction false} MinusNegates(s: string)
    requires s == "" || s[0] != '-'
    ensures RationalOf("-" + s).Success? <==> RationalOf(s).Success?
    ensures RationalOf(s).Success? ==> RationalOf("-" + s) == Success(-RationalOf(s).value)
  {
    SignFirst(s);
    if Scan(s).Some? {
      ScanSound(s);
      ScanSound("-" + s);
      NegativeValue(Scan(s).value);
      hide Scan;
    }
  }

  lemma {:induction false} NegativeValue(l: Lexeme)
    requires l.Valid() && !l.negative
    ensures l.(negative := true).Valid() && l.(negative := true).Value() == -l.Value()
  {
    ShiftNegate(l.Mantissa() as real, l.Scale());
  }

  /** So a number and its negative are equal exactly at zero. */
  lemma {:induction false} NegativeEqualsIff(s: string)
    requires (s == "" || s[0] != '-') && RationalOf(s).Success?
    ensures ValuesEqualNumber(s, "-" + s) <==> RationalOf(s).value == 0.0
  {
    MinusNegates(s);
  }

  lemma {:induction false} Scaled(x: real, i: int, n: nat)
    ensures Shift(x, i + n) == Shift(x, i) * TenTo(n)
  {
    ShiftBoth(x, i, n);
    ShiftUp(Shift(x, i), n);
  }

  /** A text without exponent, read. */
  lemma {:induction false} PlainScan(base: string)
    requires 'e' !in base && 'E' !in base && Scan(base).Some?
    ensures var l := Scan(base).value;
            l.Valid() && l.exponent.None? && l.RenderBase() == base && l.Render() == base
  {
    ScanSound(base);
    hide Scan;
    var l := Scan(base).value;
    BaseThenExponent(l);
    assert l.exponent.None?;
    assert l.RenderBase() + "" == l.RenderBase();
  }

  /** The mantissa and scale of a text without exponent, and with one put behind it. */
  lemma {:induction false} WithExponent(base: string, e: Exponent) returns (x: real, i: int)
    requires 'e' !in base && 'E' !in base && e.Valid() && Scan(base).Some?
    ensures RationalOf(base) == Success(Shift(x, i))
    ensures RationalOf(base + e.Render()) == Success(Shift(x, i + e.Value()))
  {
    hide *;
    PlainScan(base);
    var l := Scan(base).value;
    PlainValue(l);
    ValueMore(l, e);
    x, i := l.Mantissa() as real, l.Scale();
  }

  lemma {:induction false} PlainValue(l: Lexeme)
    requires l.Valid()
    ensures RationalOf(l.Render()) == Success(Shift(l.Mantissa() as real, l.Scale()))
  {
    hide Scan, Shift, DigitsValue, IsInteger, AllDigits;
    RationalRender(l);
  }

  lemma {:induction false} ValueMore(l: Lexeme, e: Exponent)
    requires l.Valid() && l.exponent.None? && e.Valid()
    ensures RationalOf(l.Render() + e.Render()) == Success(Shift(l.Mantissa() as real, l.Scale() + e.Value()))
  {
    hide *;
    RenderMore(l, e);
    ScaleMore(l, e);
    PlainValue(l.(exponent := Some(e)));
  }

  lemma {:induction false} ScaleMore(l: Lexeme, e: Exponent)
    requires l.Valid() && l.exponent.None? && e.Valid()
    ensures var m := l.(exponent := Some(e));
            m.Valid() && m.Mantissa() == l.Mantissa() && m.Scale() == l.Scale() + e.Value()
  {
    hide Shift, DigitsValue, IsInteger, AllDigits;
  }

  lemma {:induction false} RenderMore(l: Lexeme, e: Exponent)
    requires l.exponent.None?
    ensures l.(exponent := Some(e)).Render() == l.Render() + e.Render()
  {
    BaseThenExponent(l);
    BaseThenExponent(l.(exponent := Some(e)));
    assert l.RenderBase() + "" == l.RenderBase();
  }

  /** An exponent multiplies by a power of ten, a negative one divides by it; it neither makes nor
      breaks a number. */
  lemma {:induction false} ExponentScales(base: string, e: Exponent)
    requires 'e' !in base && 'E' !in base && e.Valid() && RationalOf(base).Success?
    ensures var r := RationalOf(base + e.Render());
            var p := TenTo(DigitsValue(e.digits));
            && r.Success?
            && (e.sign == "-" ==> r.value * p == RationalOf(base).value)
            && (e.sign != "-" ==> r.value == RationalOf(base).value * p)
  {
    hide Shift, TenTo, DigitsValue, Scan;
    var x, i := WithExponent(base, e);
    hide RationalOf;
    Scaled(x, i + (if e.sign == "-" then e.Value() else 0), DigitsValue(e.digits));
  }

  /** Digits behind the point divide by a power of ten. */
  lemma {:induction false} PointDivides(whole: string, fraction: string)
    requires IsInteger(whole) && IsDigits(fraction)
    ensures AllDigits(whole + fraction)
    ensures RationalOf(whole + ("." + fraction)) == Success(DigitsValue(whole + fraction) as real / TenTo(|fraction|))
  {
    hide RationalOf, DigitsValue, Shift, IsInteger, IsDigits;
    PointScan(whole, fraction);
    Divided(DigitsValue(whole + fraction) as real, |fraction|);
  }

  lemma {:induction false} Divided(x: real, n: nat)
    ensures Shift(x, 0 - n) == x / TenTo(n)
  {
    ShiftDown(x, n);
    Quotient(Shift(x, 0 - n), TenTo(n));
  }

  lemma {:induction false} PointScan(whole: string, fraction: string)
    requires IsInteger(whole) && IsDigits(fraction)
    ensures AllDigits(whole + fraction)
    ensures RationalOf(whole + ("." + fraction)) == Success(Shift(DigitsValue(whole + fraction) as real, 0 - |fraction|))
  {
    var l := Lexeme(false, whole, Some(fraction), None);
    AllDigitsAppend(whole, fraction);
    PointText(whole, fraction);
    RationalRender(l);
    hide Shift, RationalOf;
  }

  lemma {:induction false} PointText(whole: string, fraction: string)
    ensures Lexeme(false, whole, Some(fraction), None).Render() == whole + ("." + fraction)
  {
    assert ("." + fraction) + "" == "." + fraction;
  }

  predicate TrailingPoint(s: string) {
    s != "" && s[|s| - 1] == '.'
  }

  function Unsigned(s: string): string {
    if s != "" && s[0] == '-' then s[1..] else s
  }

  /** `prepare_number`: a trailing-point integer becomes a valid text for the same integer,
      any other text is accepted exactly when it is a number, at the same value. */
  method PrepareNumber(text: string) returns (r: Result<string, Error>)
    ensures r.Success? ==> IsValidNumber(r.value)
    ensures var s := Strip(text);
            TrailingPoint(s) ==>
              var left := s[..|s| - 1];
              && (r.Success? <==> IsInteger(Unsigned(left)))
              && (r.Success? ==> RationalOf(r.value)
                                 == Success(Signed(left[0] == '-', DigitsValue(Unsigned(left))) as real))
    ensures var s := Strip(text);
            !TrailingPoint(s) ==>
              && (r.Success? <==> IsValidNumber(s))
              && (r.Success? ==> RationalOf(r.value) == RationalOf(s))
  {
    var s := Strip(text);
    if TrailingPoint(s) {
      var left := s[..|s| - 1];
      if left == "" || left == "-" {
        return Failure(ValueErr);
      }
      var sign := "";
      var digits := left;
      if left[0] == '-' {
        sign := "-";
        digits := left[1..];
      }
      if !IsInteger(digits) {
        return Failure(ValueErr);
      }
      s := sign + "0." + digits + "E" + Decimal(|digits|);
      PointRewrite(left[0] == '-', digits);
    }
    UpperExponent(s);
    s := Replace(s, "e", "E");
    if !IsValidNumber(s) {
      return Failure(ValueErr);
    }
    r := Success(s);
  }

  function PointLexeme(negative: bool, digits: string, count: string): Lexeme {
    Lexeme(negative, "0", Some(digits), Some(Exponent('E', "", count)))
  }

  lemma {:induction false} PointRewrite(negative: bool, digits: string)
    requires IsDigits(digits)
    ensures var s := RenderSign(negative) + "0." + digits + "E" + Decimal(|digits|);
            RationalOf(s) == Success(Signed(negative, DigitsValue(digits)) as real)
  {
    var l := PointLexeme(negative, digits, Decimal(|digits|));
    PointRender(negative, digits, Decimal(|digits|));
    RationalRender(l);
    LeadingZero(digits);
  }

  lemma {:induction false} PointRender(negative: bool, digits: string, n: string)
    ensures PointLexeme(negative, digits, n).Render() == RenderSign(negative) + "0." + digits + "E" + n
  {
    var sign := RenderSign(negative);
    var tail := "E" + n;
    assert ['E'] + ("" + n) == tail;
    Reassociate(sign + "0." + digits, "E", n);
    Reassociate(sign + "0.", digits, tail);
    Reassociate(sign, "0.", digits + tail);
    Reassociate(".", digits, tail);
    assert "0." + (digits + tail) == "0" + ("." + (digits + tail));
  }

  lemma {:induction false} LeadingZero(d: string)
    requires AllDigits(d)
    ensures AllDigits("0" + d) && DigitsValue("0" + d) == DigitsValue(d)
  {
    AllDigitsAppend("0", d);
    if d == "" {
      assert "0" + d == "0";
      assert "0"[..0] == "";
    } else {
      assert ("0" + d)[..|d|] == "0" + d[..|d| - 1];
      LeadingZero(d[..|d| - 1]);
    }
  }

  function WithMarker(l: Lexeme, marker: char): Lexeme {
    if l.exponent.Some? then l.(exponent := Some(l.exponent.value.(marker := marker))) else l
  }

  /** `s.replace("e", "E")` changes nothing but the letter e. */
  lemma {:induction false} ReplaceE(s: string)
    ensures |Replace(s, "e", "E")| == |s|
    ensures 'E' !in Replace(s, "e", "E") ==> Replace(s, "e", "E") == s
    ensures 'e' !in s ==> Replace(s, "e", "E") == s
  {
    if s != "" {
      ReplaceE(s[1..]);
      assert s == [s[0]] + s[1..];
      var u := Replace(s[1..], "e", "E");
      assert Replace(s, "e", "E") == (if s[0] == 'e' then "E" else [s[0]]) + u;
    }
  }

  /** A text of three parts, the middle one a single character. */
  lemma {:induction false} ReplaceEMiddle(a: string, c: char, b: string)
    ensures Replace(a + ([c] + b), "e", "E")
            == Replace(a, "e", "E") + ([if c == 'e' then 'E' else c] + Replace(b, "e", "E"))
  {
    ReplaceCharAppend(a, [c] + b, 'e', "E");
    assert ([c] + b)[1..] == b;
  }

  lemma {:induction false} NoMarkers(l: Lexeme)
    requires l.Valid() && l.exponent.Some?
    ensures 'e' !in l.exponent.value.sign + l.exponent.value.digits
    ensures 'E' !in l.exponent.value.sign + l.exponent.value.digits
  {
    NoLetter(l.exponent.value.digits);
  }

  /** Upper-casing the marker neither makes nor breaks a number, and keeps its value. */
  lemma {:induction false} UpperExponent(s: string)
    ensures RationalOf(Replace(s, "e", "E")) == RationalOf(s)
  {
    if IsValidNumber(s) {
      ScanSound(s);
      UpperValid(s, Scan(s).value);
    } else if IsValidNumber(Replace(s, "e", "E")) {
      ScanSound(Replace(s, "e", "E"));
      LowerValid(s, Scan(Replace(s, "e", "E")).value);
      assert false;
    }
  }

  lemma {:induction false} UpperRender(l: Lexeme)
    requires l.Valid()
    ensures Replace(l.Render(), "e", "E") == WithMarker(l, 'E').Render()
  {
    var u := WithMarker(l, 'E');
    BaseThenExponent(l);
    BaseThenExponent(u);
    assert u.RenderBase() == l.RenderBase();
    BaseHasNoMarker(l);
    ReplaceE(l.RenderBase());
    if l.exponent.Some? {
      var e := l.exponent.value;
      NoMarkers(l);
      ReplaceE(e.sign + e.digits);
      ReplaceEMiddle(l.RenderBase(), e.marker, e.sign + e.digits);
    } else {
      assert l.RenderBase() + "" == l.RenderBase();
    }
  }

  lemma {:induction false} UpperValid(s: string, l: Lexeme)
    requires l.Valid() && l.Render() == s
    ensures RationalOf(Replace(s, "e", "E")) == RationalOf(s)
  {
    var u := WithMarker(l, 'E');
    UpperRender(l);
    RationalRender(l);
    RationalRender(u);
    assert u.Mantissa() == l.Mantissa() && u.Scale() == l.Scale();
  }

  /** Undoing the upper-casing of a valid text: only the marker can differ. */
  lemma {:induction false} LowerRender(s: string, u: Lexeme)
    requires u.Valid() && u.exponent.Some? && Replace(s, "e", "E") == u.Render()
    requires |u.RenderBase()| < |s|
    ensures s == u.RenderBase() + ([s[|u.RenderBase()|]] + (u.exponent.value.sign + u.exponent.value.digits))
    ensures s[|u.RenderBase()|] == 'e' || s[|u.RenderBase()|] == u.exponent.value.marker
  {
    var base, e := u.RenderBase(), u.exponent.value;
    var mark := |base|;
    var a, c, b := s[..mark], s[mark], s[mark + 1..];
    SplitAt(s, mark);
    ReplaceEMiddle(a, c, b);
    MarkerRender(u);
    hide Replace, Lexeme.Render, Lexeme.RenderBase;
    LowerParts(a, c, b, base, e.marker, e.sign + e.digits);
  }

  lemma {:induction false} SplitAt(s: string, i: nat)
    requires i < |s|
    ensures s == s[..i] + ([s[i]] + s[i + 1..])
  {
  }

  lemma {:induction false} MarkerRender(u: Lexeme)
    requires u.Valid() && u.exponent.Some?
    ensures var e := u.exponent.value;
            && u.Render() == u.RenderBase() + ([e.marker] + (e.sign + e.digits))
            && 'E' !in u.RenderBase() && 'E' !in e.sign + e.digits
  {
    BaseThenExponent(u);
    BaseHasNoMarker(u);
    NoMarkers(u);
  }

  /** Upper-casing that yields parts without markers around one marker changed nothing but that one. */
  lemma {:induction false} LowerParts(a: string, c: char, b: string, base: string, marker: char, tail: string)
    requires |a| == |base| && 'E' !in base && 'E' !in tail
    requires Replace(a, "e", "E") + ([if c == 'e' then 'E' else c] + Replace(b, "e", "E")) == base + ([marker] + tail)
    ensures a == base && b == tail && (c == 'e' || c == marker)
  {
    var c' := if c == 'e' then 'E' else c;
    ReplaceE(a);
    ReplaceE(b);
    var a', b' := Replace(a, "e", "E"), Replace(b, "e", "E");
    hide Replace;
    Slices(a', [c'] + b');
    Slices(base, [marker] + tail);
    assert [c'] + b' == [marker] + tail;
    assert ([c'] + b')[1..] == b' && ([marker] + tail)[1..] == tail;
    assert c' == ([c'] + b')[0] == marker;
  }

  lemma {:induction false} LowerValid(s: string, u: Lexeme)
    requires u.Valid() && u.Render() == Replace(s, "e", "E")
    ensures IsValidNumber(s)
  {
    BaseThenExponent(u);
    ReplaceE(s);
    if u.exponent.None? {
      BaseHasNoMarker(u);
      assert u.RenderBase() + "" == u.RenderBase();
      ScanComplete(u);
    } else {
      LowerRender(s, u);
      var l := WithMarker(u, s[|u.RenderBase()|]);
      BaseThenExponent(l);
      ScanComplete(l);
    }
  }
}
