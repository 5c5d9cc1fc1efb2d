/** The Python string operations that the modelled code relies on. */
module Text {

  /** `s.replace(pat, rep)`: leftmost, non-overlapping occurrences. */
  function Replace(s: string, pat: string, rep: string): string
    requires pat != []
  {
    if |s| < |pat| then s
    else if pat <= s then rep + Replace(s[|pat|..], pat, rep)
    else [s[0]] + Replace(s[1..], pat, rep)
  }

  /** Replacing a single character works piecewise. */
  lemma {:induction false} ReplaceCharAppend(a: string, b: string, p: char, rep: string)
    ensures Replace(a + b, [p], rep) == Replace(a, [p], rep) + Replace(b, [p], rep)
  {
    if a == [] {
      assert a + b == b;
    } else {
      assert (a + b)[1..] == a[1..] + b;
      ReplaceCharAppend(a[1..], b, p, rep);
    }
  }

  /** `s.split(sep)` for a one-character separator: never empty. */
  function Split(s: string, sep: char): (parts: seq<string>)
    ensures parts != []
    ensures forall p :: p in parts ==> sep !in p
  {
    if s == [] then [[]]
    else
      var rest := Split(s[1..], sep);
      if s[0] == sep then [[]] + rest
      else
        assert rest[0] in rest;
        [[s[0]] + rest[0]] + rest[1..]
  }

  /** `sep.join(parts)`. */
  function Join(parts: seq<string>, sep: char): string {
    if parts == [] then []
    else if |parts| == 1 then parts[0]
    else parts[0] + [sep] + Join(parts[1..], sep)
  }

  lemma {:induction false} JoinSplit(s: string, sep: char)
    ensures Join(Split(s, sep), sep) == s
  {
    if s != [] {
      JoinSplit(s[1..], sep);
      var rest := Split(s[1..], sep);
      if s[0] == sep {
        assert Split(s, sep)[1..] == rest;
      } else {
        assert Split(s, sep)[1..] == rest[1..];
      }
    }
  }

  lemma {:induction false} SplitJoin(parts: seq<string>, sep: char)
    requires parts != []
    requires forall p :: p in parts ==> sep !in p
    ensures Split(Join(parts, sep), sep) == parts
    decreases |parts|, |parts[0]|
  {
    var s := Join(parts, sep);
    if parts[0] != [] {
      var shorter := [parts[0][1..]] + parts[1..];
      assert forall c :: c in parts[0][1..] ==> c in parts[0];
      SplitJoin(shorter, sep);
      assert shorter[1..] == parts[1..];
      assert s[1..] == Join(shorter, sep);
      assert s[0] == parts[0][0] && parts[0] in parts;
      assert Split(s, sep) == [[s[0]] + shorter[0]] + shorter[1..];
      assert [s[0]] + shorter[0] == parts[0];
    } else if |parts| > 1 {
      SplitJoin(parts[1..], sep);
      assert s[1..] == Join(parts[1..], sep);
      assert s[0] == sep;
    }
  }

  /** `s.find(pat)`: the least index of an occurrence, or |s| + 1 when there is none. */
  function Find(s: string, pat: string): (i: nat)
    requires pat != []
    ensures i <= |s| ==> pat <= s[i..]
    ensures forall k :: 0 <= k < i && k <= |s| ==> !(pat <= s[k..])
    ensures i <= |s| + 1
  {
    if |s| < |pat| then
      assert forall k :: 0 <= k <= |s| ==> |s[k..]| < |pat|;
      |s| + 1
    else if pat <= s then
      assert s[0..] == s;
      0
    else
      var i := Find(s[1..], pat);
      assert forall k :: 1 <= k <= |s| ==> s[k..] == s[1..][k - 1..];
      assert s[0..] == s;
      i + 1
  }

  /** The characters `str.strip()` removes, ASCII part. */
  predicate IsSpace(c: char) {
    c == ' ' || '\t' <= c <= '\r' || '\U{1c}' <= c <= '\U{1f}'
  }

  function StripLeft(s: string): (r: string)
    ensures |r| <= |s| && r == s[|s| - |r|..]
    ensures r != [] ==> !IsSpace(r[0])
  {
    if s != [] && IsSpace(s[0]) then StripLeft(s[1..]) else s
  }

  function StripRight(s: string): (r: string)
    ensures r <= s
    ensures r != [] ==> !IsSpace(r[|r| - 1])
  {
    if s != [] && IsSpace(s[|s| - 1]) then StripRight(s[..|s| - 1]) else s
  }

  /** `s.strip()`. */
  function Strip(s: string): string {
    StripRight(StripLeft(s))
  }

  lemma {:induction false} StripLeftMeaning(s: string)
    ensures forall i :: 0 <= i < |s| - |StripLeft(s)| ==> IsSpace(s[i])
  {
    if s != [] && IsSpace(s[0]) { StripLeftMeaning(s[1..]); }
  }

  lemma {:induction false} StripRightMeaning(s: string)
    ensures forall i :: |StripRight(s)| <= i < |s| ==> IsSpace(s[i])
  {
    if s != [] && IsSpace(s[|s| - 1]) { StripRightMeaning(s[..|s| - 1]); }
  }

  /** Stripping removes whitespace at both ends, all of it and nothing else. */
  lemma {:induction false} StripMeaning(s: string) returns (from: nat)
    ensures from + |Strip(s)| <= |s| && Strip(s) == s[from..from + |Strip(s)|]
    ensures forall i :: 0 <= i < from || from + |Strip(s)| <= i < |s| ==> IsSpace(s[i])
    ensures Strip(s) != "" ==> !IsSpace(Strip(s)[0]) && !IsSpace(Strip(s)[|Strip(s)| - 1])
  {
    var t := StripLeft(s);
    StripLeftMeaning(s);
    StripRightMeaning(t);
    from := |s| - |t|;
    hide IsSpace, StripLeft, StripRight;
    var k := |Strip(s)|;
    assert Strip(s) == t[..k] && (k > 0 ==> Strip(s)[0] == t[0]);
    hide Strip;
    assert t == s[from..] && t[..k] == s[from..from + k];
    forall i | from + |Strip(s)| <= i < |s| ensures IsSpace(s[i]) {
      assert t[i - from] == s[i];
    }
  }

  lemma {:induction false} StripOnce(s: string)
    requires s != "" && !IsSpace(s[0])
    ensures Strip(s) == s <==> !IsSpace(s[|s| - 1])
    ensures Strip(s) != "" && Strip(s) <= s
  {
    assert StripLeft(s) == s;
    StripKeepsFirst(s);
  }

  lemma {:induction false} StripKeepsFirst(s: string)
    requires s != "" && !IsSpace(s[0])
    ensures StripRight(s) != ""
  {
    if IsSpace(s[|s| - 1]) { StripKeepsFirst(s[..|s| - 1]); }
  }

  lemma {:induction false} JoinTwo(a: string, b: string, sep: char)
    ensures Join([a, b], sep) == a + ([sep] + b)
  {
    assert [a, b][1..] == [b];
  }

  lemma {:induction false} TakeDrop(s: string, n: nat)
    requires n <= |s|
    ensures s[..n] + s[n..] == s
  {
  }

  lemma {:induction false} Reassociate(a: string, b: string, c: string)
    ensures (a + b) + c == a + (b + c)
  {
  }

  predicate IsDigit(c: char) {
    '0' <= c <= '9'
  }

  predicate AllDigits(s: string) {
    forall i :: 0 <= i < |s| ==> IsDigit(s[i])
  }

  /** `int(s)` for a string of decimal digits. */
  function DigitsValue(s: string): nat
    requires AllDigits(s)
  {
    if s == [] then 0
    else 10 * DigitsValue(s[..|s| - 1]) + (s[|s| - 1] as nat - '0' as nat)
  }

  /** `str(n)` for a natural number. */
  function Decimal(n: nat): (s: string)
    ensures s != [] && AllDigits(s)
    ensures DigitsValue(s) == n
    ensures s[0] == '0' <==> n == 0
    ensures n == 0 ==> s == "0"
  {
    var d := ('0' as int + n % 10) as char;
    if n < 10 then [d]
    else
      var s := Decimal(n / 10) + [d];
      assert s[..|s| - 1] == Decimal(n / 10);
      s
  }

  /** Digits without a leading zero are the decimal form of their value. */
  lemma {:induction false} DecimalOfDigits(s: string)
    requires s != "" && AllDigits(s) && (s[0] == '0' ==> s == "0")
    ensures Decimal(DigitsValue(s)) == s
    decreases |s|
  {
    var n := |s| - 1;
    assert IsDigit(s[n]) && s == s[..n] + [s[n]];
    if n > 0 {
      DecimalOfDigits(s[..n]);
      PositiveDigits(s[..n]);
      var v := DigitsValue(s[..n]);
      assert DigitsValue(s) / 10 == v && DigitsValue(s) % 10 == s[n] as nat - '0' as nat;
    } else {
      assert s[..0] == "" && DigitsValue("") == 0;
    }
  }

  lemma {:induction false} PositiveDigits(s: string)
    requires s != "" && AllDigits(s) && s[0] != '0'
    ensures DigitsValue(s) > 0
    decreases |s|
  {
    assert IsDigit(s[0]);
    if |s| > 1 {
      PositiveDigits(s[..|s| - 1]);
    }
  }

  /** Python's `<=` on strings: lexicographic by code point. */
  predicate LexLeq(a: string, b: string) {
    a == [] || (b != [] && (a[0] < b[0] || (a[0] == b[0] && LexLeq(a[1..], b[1..]))))
  }

  lemma {:induction false} LexTotal(a: string, b: string)
    ensures LexLeq(a, b) || LexLeq(b, a)
    ensures LexLeq(a, b) && LexLeq(b, a) ==> a == b
  {
    if a != [] && b != [] {
      LexTotal(a[1..], b[1..]);
      assert a == [a[0]] + a[1..] && b == [b[0]] + b[1..];
    }
  }

  lemma {:induction false} LexTransitive(a: string, b: string, c: string)
    requires LexLeq(a, b) && LexLeq(b, c)
    ensures LexLeq(a, c)
  {
    if a != [] && a[0] == b[0] && b[0] == c[0] {
      LexTransitive(a[1..], b[1..], c[1..]);
    }
  }

  predicate Sorted(keys: seq<string>) {
    forall i, j :: 0 <= i <= j < |keys| ==> LexLeq(keys[i], keys[j])
  }

  function Insert(k: string, keys: seq<string>): (r: seq<string>)
    ensures multiset(r) == multiset(keys) + multiset{k}
  {
    if keys == [] then [k]
    else if LexLeq(k, keys[0]) then
      assert [k] + keys == [k] + ([keys[0]] + keys[1..]);
      [k] + keys
    else
      assert keys == [keys[0]] + keys[1..];
      [keys[0]] + Insert(k, keys[1..])
  }

  /** `sorted(keys)`: the only sorted arrangement of the same strings (see SortUnique). */
  function Sort(keys: seq<string>): (r: seq<string>)
    ensures multiset(r) == multiset(keys)
  {
    if keys == [] then []
    else
      assert keys == [keys[0]] + keys[1..];
      Insert(keys[0], Sort(keys[1..]))
  }

  lemma {:induction false} InsertSorted(k: string, keys: seq<string>)
    requires Sorted(keys)
    ensures Sorted(Insert(k, keys))
  {
    hide LexLeq;
    LexTotal(k, k);
    if keys != [] {
      LexTotal(k, keys[0]);
      var tail := Insert(k, keys[1..]);
      if LexLeq(k, keys[0]) {
        forall j | 0 <= j < |keys| ensures LexLeq(k, keys[j]) {
          LexTransitive(k, keys[0], keys[j]);
        }
      } else {
        InsertSorted(k, keys[1..]);
        forall j | 0 <= j < |tail| ensures LexLeq(keys[0], tail[j]) {
          assert tail[j] in multiset(tail);
          assert tail[j] == k || tail[j] in keys[1..];
        }
      }
    }
  }

  lemma {:induction false} SortSorted(keys: seq<string>)
    ensures Sorted(Sort(keys))
  {
    if keys != [] {
      SortSorted(keys[1..]);
      InsertSorted(keys[0], Sort(keys[1..]));
    }
  }

  lemma {:induction false} SameLeast(a: seq<string>, b: seq<string>)
    requires Sorted(a) && Sorted(b) && multiset(a) == multiset(b) && a != [] && b != []
    ensures a[0] == b[0]
  {
    hide LexLeq;
    assert a[0] in multiset(b) && b[0] in multiset(a);
    LexTotal(a[0], b[0]);
  }

  lemma {:induction false} SortedTail(a: seq<string>)
    requires Sorted(a) && a != []
    ensures Sorted(a[1..]) && multiset(a) == multiset{a[0]} + multiset(a[1..])
  {
    hide LexLeq;
    assert a == [a[0]] + a[1..];
  }

  /** There is one sorted arrangement of the same strings. */
  lemma {:induction false} SortedUnique(a: seq<string>, b: seq<string>)
    requires Sorted(a) && Sorted(b) && multiset(a) == multiset(b)
    ensures a == b
  {
    hide Sorted;
    assert |multiset(a)| == |a| && |multiset(b)| == |b|;
    if a != [] {
      SameLeast(a, b);
      SortedTail(a);
      SortedTail(b);
      assert multiset(a[1..]) == multiset(a) - multiset{a[0]} == multiset(b[1..]);
      SortedUnique(a[1..], b[1..]);
      assert a == [a[0]] + a[1..] && b == [b[0]] + b[1..];
    }
  }

  /** `sorted` is pinned by being sorted and having the same strings. */
  lemma {:induction false} SortUnique(keys: seq<string>, r: seq<string>)
    ensures r == Sort(keys) <==> Sorted(r) && multiset(r) == multiset(keys)
  {
    SortSorted(keys);
    if Sorted(r) && multiset(r) == multiset(keys) {
      SortedUnique(r, Sort(keys));
    }
  }
}
