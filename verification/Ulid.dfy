/** ULIDs: 26 Crockford base-32 digits of a 48-bit time and 80 bits of entropy. */
module Ulid {
  import opened Wrappers
  import opened Text

  const ALPHABET := "0123456789ABCDEFGHJKMNPQRSTVWXYZ"

  /** The digit of a value below 32; the letters I, L, O and U are skipped. */
  function Digit(d: nat): char
    requires d < 32
  {
    ALPHABET[d]
  }

  /** The same digits as ranges of code points. */
  function DigitByRange(d: nat): char
    requires d < 32
  {
    if d < 10 then '0' + d as char
    else if d < 18 then 'A' + (d - 10) as char
    else if d < 20 then 'J' + (d - 18) as char
    else if d < 22 then 'M' + (d - 20) as char
    else if d < 27 then 'P' + (d - 22) as char
    else 'V' + (d - 27) as char
  }

  lemma {:induction false} AlphabetRanges(d: nat)
    requires d < 32
    ensures Digit(d) == DigitByRange(d)
  {
    if d < 16 {
      assert d == 0 || d == 1 || d == 2 || d == 3 || d == 4 || d == 5 || d == 6 || d == 7
          || d == 8 || d == 9 || d == 10 || d == 11 || d == 12 || d == 13 || d == 14 || d == 15;
    } else {
      assert d == 16 || d == 17 || d == 18 || d == 19 || d == 20 || d == 21 || d == 22 || d == 23
          || d == 24 || d == 25 || d == 26 || d == 27 || d == 28 || d == 29 || d == 30 || d == 31;
    }
  }

  /** Digits keep the order of their values, so they are distinct too. */
  lemma {:induction false} DigitOrder(d: nat, e: nat)
    requires d < 32 && e < 32
    ensures Digit(d) < Digit(e) <==> d < e
    ensures Digit(d) == Digit(e) <==> d == e
  {
    AlphabetRanges(d);
    AlphabetRanges(e);
    hide Digit;
  }

  function Pow32(n: nat): (p: nat)
    ensures p > 0
  {
    if n == 0 then 1 else 32 * Pow32(n - 1)
  }

  /** The last n base-32 digits of a value, most significant first. */
  function Encode(value: nat, n: nat): (s: string)
    ensures |s| == n
  {
    if n == 0 then "" else Encode(value / 32, n - 1) + [Digit(value % 32)]
  }

  /** Two values below 32^n have the same digits only when they are the same: nothing is lost. */
  lemma {:induction false} EncodeInjective(a: nat, b: nat, n: nat)
    requires a < Pow32(n) && b < Pow32(n) && Encode(a, n) == Encode(b, n)
    ensures a == b
  {
    if n > 0 {
      var ea, eb := Encode(a / 32, n - 1), Encode(b / 32, n - 1);
      assert Encode(a, n)[..n - 1] == ea && Encode(b, n)[..n - 1] == eb;
      assert Encode(a, n)[n - 1] == Digit(a % 32) && Encode(b, n)[n - 1] == Digit(b % 32);
      DigitOrder(a % 32, b % 32);
      EncodeInjective(a / 32, b / 32, n - 1);
    }
  }

  /** The value of a digit, 32 for any other character. */
  function DigitValue(c: char): nat {
    DigitSearch(c, 0)
  }

  function DigitSearch(c: char, d: nat): nat
    requires d <= 32
    decreases 32 - d
  {
    if d == 32 then 32 else if Digit(d) == c then d else DigitSearch(c, d + 1)
  }

  lemma {:induction false} SearchFinds(d: nat, from: nat)
    requires from <= d < 32
    ensures DigitSearch(Digit(d), from) == d
    decreases d - from
  {
    hide Digit;
    DigitOrder(d, from);
    if from < d { SearchFinds(d, from + 1); }
  }

  /** Reading base-32 digits back. */
  function Decode(s: string): nat {
    if s == "" then 0 else 32 * Decode(s[..|s| - 1]) + DigitValue(s[|s| - 1])
  }

  /** Decoding returns the encoded value. */
  lemma {:induction false} DecodeEncode(value: nat, n: nat)
    requires value < Pow32(n)
    ensures Decode(Encode(value, n)) == value
  {
    hide Digit, DigitSearch;
    if n > 0 {
      var s := Encode(value, n);
      assert s[..n - 1] == Encode(value / 32, n - 1);
      SearchFinds(value % 32, 0);
      DecodeEncode(value / 32, n - 1);
    }
  }

  lemma {:induction false} LexLast(a: string, b: string, x: char, y: char)
    requires |a| == |b|
    ensures LexLeq(a + [x], b + [y]) <==> if a == b then x <= y else LexLeq(a, b)
  {
    if a != "" {
      assert (a + [x])[1..] == a[1..] + [x] && (b + [y])[1..] == b[1..] + [y];
      LexLast(a[1..], b[1..], x, y);
      assert a == [a[0]] + a[1..] && b == [b[0]] + b[1..];
    }
  }

  /** Lexicographic order of the strings is numeric order of the values. */
  lemma {:induction false} EncodeOrder(a: nat, b: nat, n: nat)
    requires a < Pow32(n) && b < Pow32(n)
    ensures LexLeq(Encode(a, n), Encode(b, n)) <==> a <= b
  {
    hide Digit, LexLeq;
    if n == 0 {
      LexTotal("", "");
    } else {
      var ea, eb := Encode(a / 32, n - 1), Encode(b / 32, n - 1);
      EncodeOrder(a / 32, b / 32, n - 1);
      LexLast(ea, eb, Digit(a % 32), Digit(b % 32));
      DigitOrder(a % 32, b % 32);
      if ea == eb { EncodeInjective(a / 32, b / 32, n - 1); }
    }
  }

  // ----- new_ulid

  const TIME_LIMIT: int := 0x1_0000_0000_0000
  const ENTROPY_LIMIT: int := 0x1_0000_0000_0000_0000_0000

  /** `int.from_bytes(bytes, "big")`. */
  function FromBytes(bytes: seq<nat>): nat {
    if bytes == [] then 0 else 256 * FromBytes(bytes[..|bytes| - 1]) + bytes[|bytes| - 1]
  }

  predicate IsEntropy(bytes: seq<nat>) {
    |bytes| == 10 && forall i :: 0 <= i < 10 ==> bytes[i] < 256
  }

  function Pow256(n: nat): (p: nat)
    ensures p > 0
  {
    if n == 0 then 1 else 256 * Pow256(n - 1)
  }

  lemma {:induction false} BytesBound(bytes: seq<nat>)
    requires forall i :: 0 <= i < |bytes| ==> bytes[i] < 256
    ensures FromBytes(bytes) < Pow256(|bytes|)
  {
    if bytes != [] { BytesBound(bytes[..|bytes| - 1]); }
  }

  lemma {:induction false} Limits()
    ensures Pow256(6) == TIME_LIMIT && Pow256(10) == ENTROPY_LIMIT
    ensures TIME_LIMIT * ENTROPY_LIMIT <= Pow32(26)
  {
    assert Pow256(5) == 0x100_0000_0000;
    assert Pow256(10) == 0x1_0000_0000_0000_0000_0000;
    assert Pow32(4) == 0x10_0000;
    assert Pow32(8) == 0x100_0000_0000;
    assert Pow32(16) == 0x1_0000_0000_0000_0000_0000;
    assert Pow32(26) == 0x4_0000_0000_0000_0000_0000_0000_0000_0000;
  }

  /** The 128-bit number of a ULID. */
  function UlidValue(ts: nat, entropy: seq<nat>): nat {
    ts * ENTROPY_LIMIT + FromBytes(entropy)
  }

  lemma {:induction false} ValueBound(ts: nat, entropy: seq<nat>)
    requires ts < TIME_LIMIT && IsEntropy(entropy)
    ensures FromBytes(entropy) < ENTROPY_LIMIT && UlidValue(ts, entropy) < Pow32(26)
  {
    hide FromBytes;
    BytesBound(entropy);
    Limits();
  }

  /** The 26-step loop of `new_ulid`: digits are appended low to high, then reversed. */
  method NewUlid(ts: int, entropy: seq<nat>) returns (r: Result<string, Error>)
    requires IsEntropy(entropy)
    ensures r.Success? <==> 0 <= ts < TIME_LIMIT
    ensures r.Success? ==> r.value == Encode(UlidValue(ts, entropy), 26)
  {
    if ts < 0 || ts >= TIME_LIMIT {
      return Failure(ValueErr);
    }
    var value := UlidValue(ts, entropy);
    var chars := Digits(value, 26);
    r := Success(Reverse(chars));
  }

  function Reverse(s: string): string {
    if s == "" then "" else Reverse(s[1..]) + [s[0]]
  }

  lemma {:induction false} ReverseAppend(s: string, c: char)
    ensures Reverse(s + [c]) == [c] + Reverse(s)
  {
    if s != "" {
      assert (s + [c])[1..] == s[1..] + [c];
      ReverseAppend(s[1..], c);
    }
  }

  method Digits(start: nat, n: nat) returns (chars: string)
    ensures Reverse(chars) == Encode(start, n)
  {
    chars := "";
    var value := start;
    var k := 0;
    while k < n
      invariant 0 <= k <= n
      invariant Encode(start, n) == Encode(value, n - k) + Reverse(chars)
    {
      hide Digit, Reverse;
      ReverseAppend(chars, Digit(value % 32));
      assert Encode(value, n - k) == Encode(value / 32, n - k - 1) + [Digit(value % 32)];
      chars := chars + [Digit(value % 32)];
      value := value / 32;
      k := k + 1;
    }
  }

  /** A ULID can be read back: its value, hence its time and its entropy. */
  lemma {:induction false} UlidRoundTrip(ts: nat, entropy: seq<nat>)
    requires ts < TIME_LIMIT && IsEntropy(entropy)
    ensures var v := Decode(Encode(UlidValue(ts, entropy), 26));
            v / ENTROPY_LIMIT == ts && v % ENTROPY_LIMIT == FromBytes(entropy)
  {
    hide FromBytes, Encode, Decode, Pow32;
    ValueBound(ts, entropy);
    DecodeEncode(UlidValue(ts, entropy), 26);
  }

  /** A later millisecond always sorts later, whatever the entropy. */
  lemma {:induction false} LaterSortsLater(ts: nat, entropy: seq<nat>, later: nat, entropy': seq<nat>)
    requires ts < later < TIME_LIMIT && IsEntropy(entropy) && IsEntropy(entropy')
    ensures !LexLeq(Encode(UlidValue(later, entropy'), 26), Encode(UlidValue(ts, entropy), 26))
  {
    hide FromBytes, Encode, LexLeq, Pow32;
    ValueBound(ts, entropy);
    ValueBound(later, entropy');
    EncodeOrder(UlidValue(later, entropy'), UlidValue(ts, entropy), 26);
  }

  /** Byte strings of one length are told apart by their numbers. */
  lemma {:induction false} BytesInjective(a: seq<nat>, b: seq<nat>)
    requires |a| == |b| && FromBytes(a) == FromBytes(b)
    requires forall i :: 0 <= i < |a| ==> a[i] < 256 && b[i] < 256
    ensures a == b
  {
    if a != [] {
      var n := |a| - 1;
      BytesInjective(a[..n], b[..n]);
      assert a == a[..n] + [a[n]] && b == b[..n] + [b[n]];
    }
  }

  /** Two ULIDs are the same text only for the same millisecond and the same entropy. */
  lemma {:induction false} UlidInjective(ts: nat, entropy: seq<nat>, ts': nat, entropy': seq<nat>)
    requires ts < TIME_LIMIT && ts' < TIME_LIMIT && IsEntropy(entropy) && IsEntropy(entropy')
    requires Encode(UlidValue(ts, entropy), 26) == Encode(UlidValue(ts', entropy'), 26)
    ensures ts == ts' && entropy == entropy'
  {
    UlidRoundTrip(ts, entropy);
    UlidRoundTrip(ts', entropy');
    BytesInjective(entropy, entropy');
  }

  /** The first byte is the most significant. */
  lemma {:induction false} FirstByteLeads(a: seq<nat>, b: seq<nat>)
    requires |a| == |b| > 0 && a[0] < b[0] && forall i :: 0 <= i < |a| ==> a[i] < 256 && b[i] < 256
    ensures FromBytes(a) < FromBytes(b)
  {
    if |a| > 1 {
      FirstByteLeads(a[..|a| - 1], b[..|b| - 1]);
    } else {
      assert a[..0] == [] && b[..0] == [];
    }
  }
}
