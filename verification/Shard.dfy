/** Shard slots, ranges and the shard map of an establishment document. */
module Shard {
  import opened Wrappers
  import opened Text
  import opened Value

  const SLOTS := 256

  /** An inclusive range of slots; its text is not modelled. */
  datatype Range = Range(start: int, end: int) {
    predicate Contains(slot: int) {
      start <= slot <= end
    }

    predicate InBounds() {
      0 <= start && end < SLOTS
    }
  }

  // ----- parsing ranges

  predicate IsHex(c: char) {
    '0' <= c <= '9' || 'a' <= c <= 'f' || 'A' <= c <= 'F'
  }

  function HexValue(c: char): (v: nat)
    requires IsHex(c)
    ensures v < 16
  {
    if c <= '9' then c as nat - '0' as nat
    else if c <= 'F' then c as nat - 'A' as nat + 10
    else c as nat - 'a' as nat + 10
  }

  /** `_parse_slot`: one or two hex digits, or a plus sign and one. */
  function ParseSlot(raw: string): Result<nat, Error> {
    var s := Strip(raw);
    if s == "" || |s| > 2 then Failure(ValueErr)
    else if |s| == 1 then
      if IsHex(s[0]) then Success(HexValue(s[0])) else Failure(ValueErr)
    else if s[0] == '+' then
      if IsHex(s[1]) then Success(HexValue(s[1])) else Failure(ValueErr)
    else if IsHex(s[0]) && IsHex(s[1]) then Success(16 * HexValue(s[0]) + HexValue(s[1]))
    else Failure(ValueErr)
  }

  function ParseRange(raw: string): Result<Range, Error> {
    var s := Strip(raw);
    if s == "" then Failure(ValueErr)
    else if '-' !in s then
      var slot :- ParseSlot(s);
      Success(Range(slot, slot))
    else
      var parts := Split(s, '-');
      if |parts| != 2 then Failure(ValueErr)
      else
        var start :- ParseSlot(parts[0]);
        var end :- ParseSlot(parts[1]);
        if start > end then Failure(ValueErr) else Success(Range(start, end))
  }

  /** A parsed range is never empty and never leaves the 256 slots. */
  lemma {:induction false} ParsedRange(raw: string)
    requires ParseRange(raw).Success?
    ensures ParseRange(raw).value.InBounds() && ParseRange(raw).value.start <= ParseRange(raw).value.end
  {
    hide Strip, Split;
  }

  /** Two hexadecimal digits of a slot, in either case. */
  function Hex(slot: nat, lower: bool): (s: string)
    requires slot < SLOTS
    ensures |s| == 2
  {
    var digits := if lower then "0123456789abcdef" else "0123456789ABCDEF";
    [digits[slot / 16], digits[slot % 16]]
  }

  lemma {:induction false} HexDigits(d: nat)
    requires d < 16
    ensures var c := "0123456789ABCDEF"[d];
            IsHex(c) && HexValue(c) == d && !IsSpace(c) && c != '-' && c != '+'
    ensures var c := "0123456789abcdef"[d];
            IsHex(c) && HexValue(c) == d && !IsSpace(c) && c != '-' && c != '+'
  {
    var c := "0123456789ABCDEF"[d];
    assert c == if d < 10 then (d + 48) as char else (d + 55) as char;
    var b := "0123456789abcdef"[d];
    assert b == if d < 10 then (d + 48) as char else (d + 87) as char;
  }

  /** Both digits of a slot are read back, in either case; below 16 the last one is enough. */
  lemma {:induction false} SlotRoundTrip(slot: nat, lower: bool)
    requires slot < SLOTS
    ensures ParseSlot(Hex(slot, lower)) == Success(slot)
    ensures slot < 16 ==> ParseSlot([Hex(slot, lower)[1]]) == Success(slot)
    ensures var s := Hex(slot, lower); '-' !in s && Strip(s) == s && !IsSpace(s[0]) && !IsSpace(s[1])
  {
    hide *;
    HexParts(slot, lower);
    var s := Hex(slot, lower);
    assert s == [s[0], s[1]];
    TwoDigits(s[0], s[1]);
    OneDigit(s[1]);
    assert slot == 16 * (slot / 16) + slot % 16;
  }

  lemma {:induction false} TwoDigits(c: char, d: char)
    requires IsHex(c) && IsHex(d) && !IsSpace(c) && !IsSpace(d) && c != '+'
    ensures ParseSlot([c, d]) == Success(16 * HexValue(c) + HexValue(d)) && Strip([c, d]) == [c, d]
  {
    hide Strip, HexValue, IsHex, IsSpace;
    StripOnce([c, d]);
  }

  lemma {:induction false} OneDigit(d: char)
    requires IsHex(d) && !IsSpace(d)
    ensures ParseSlot([d]) == Success(HexValue(d))
  {
    hide Strip, HexValue, IsHex, IsSpace;
    StripOnce([d]);
  }

  lemma {:induction false} HexParts(slot: nat, lower: bool)
    requires slot < SLOTS
    ensures var s := Hex(slot, lower);
            && IsHex(s[0]) && IsHex(s[1]) && HexValue(s[0]) == slot / 16 && HexValue(s[1]) == slot % 16
            && !IsSpace(s[0]) && !IsSpace(s[1]) && '-' !in s && '+' !in s
  {
    HexDigits(slot / 16);
    HexDigits(slot % 16);
    hide IsHex, HexValue, IsSpace;
  }

  /** Range texts are read as written: a single slot, and first to last when they are in order,
      which is refused otherwise. */
  lemma {:induction false} RangeRoundTrip(start: nat, end: nat, lower: bool)
    requires start < SLOTS && end < SLOTS
    ensures ParseRange(Hex(start, lower)) == Success(Range(start, start))
    ensures ParseRange(Hex(start, lower) + ("-" + Hex(end, lower)))
            == if start <= end then Success(Range(start, end)) else Failure(ValueErr)
  {
    hide Hex, ParseSlot, IsSpace, Strip, Split;
    SlotRoundTrip(start, lower);
    SlotRoundTrip(end, lower);
    RangeText(Hex(start, lower), Hex(end, lower));
  }

  lemma {:induction false} RangeText(a: string, b: string)
    requires |a| == |b| == 2 && '-' !in a && '-' !in b && !IsSpace(a[0]) && !IsSpace(b[1])
    ensures var s := a + ("-" + b);
            s != "" && '-' in s && Strip(s) == s && Split(s, '-') == [a, b]
  {
    hide IsSpace, Strip, Split;
    var s := a + ("-" + b);
    assert s[0] == a[0] && s[2] == '-' && s[4] == b[1];
    StripOnce(s);
    SplitJoin([a, b], '-');
    JoinTwo(a, b, '-');
  }

  // ----- exact coverage

  /** How many of the ranges contain a slot. */
  function Count(ranges: seq<Range>, slot: int): nat {
    if ranges == [] then 0
    else Count(ranges[..|ranges| - 1], slot) + (if ranges[|ranges| - 1].Contains(slot) then 1 else 0)
  }

  /** Every slot lies in exactly one range. */
  predicate ExactCover(ranges: seq<Range>) {
    forall slot :: 0 <= slot < SLOTS ==> Count(ranges, slot) == 1
  }

  lemma {:induction false} CountMonotone(ranges: seq<Range>, n: nat, slot: int)
    requires n <= |ranges|
    ensures Count(ranges[..n], slot) <= Count(ranges, slot)
    decreases |ranges| - n
  {
    if n == |ranges| {
      assert ranges[..n] == ranges;
    } else {
      CountMonotone(ranges, n + 1, slot);
      assert ranges[..n + 1][..n] == ranges[..n];
    }
  }

  /** `validate_full_coverage`: accepts exactly the lists that put each slot in one range. */
  method ValidateFullCoverage(ranges: seq<Range>) returns (ok: bool)
    requires forall i :: 0 <= i < |ranges| ==> ranges[i].InBounds()
    ensures ok <==> ExactCover(ranges)
  {
    var covered := new bool[SLOTS](_ => false);
    for k := 0 to |ranges|
      invariant forall s :: 0 <= s < SLOTS ==> Count(ranges[..k], s) == if covered[s] then 1 else 0
    {
      var r := ranges[k];
      assert ranges[..k + 1][..k] == ranges[..k];
      var i := r.start;
      while i <= r.end
        invariant r.start <= i && (i <= r.end + 1 || i == r.start)
        invariant forall s :: 0 <= s < SLOTS ==>
                    Count(ranges[..k], s) == if covered[s] && !(r.start <= s < i) then 1 else 0
        invariant forall s :: r.start <= s < i ==> covered[s]
      {
        if covered[i] {
          CountMonotone(ranges, k + 1, i);
          assert Count(ranges[..k + 1], i) == 2;
          return false;
        }
        covered[i] := true;
        i := i + 1;
      }
      forall s | 0 <= s < SLOTS ensures Count(ranges[..k + 1], s) == if covered[s] then 1 else 0 {
      }
    }
    assert ranges[..|ranges|] == ranges;
    var s := 0;
    while s < SLOTS
      invariant 0 <= s <= SLOTS && forall t :: 0 <= t < s ==> covered[t]
    {
      if !covered[s] {
        return false;
      }
      s := s + 1;
    }
    ok := true;
  }

  // ----- assignments

  datatype Assignment = Assignment(range: Range, sotMember: string, readMembers: seq<string>, proxyMembers: seq<string>)

  /** `assignment_for_slot`: the first one whose range contains the slot. */
  function AssignmentFor(assignments: seq<Assignment>, slot: int): Option<Assignment> {
    if assignments == [] then None
    else if assignments[0].range.Contains(slot) then Some(assignments[0])
    else AssignmentFor(assignments[1..], slot)
  }

  function RangesOf(assignments: seq<Assignment>): (r: seq<Range>)
    ensures |r| == |assignments| && forall i :: 0 <= i < |r| ==> r[i] == assignments[i].range
  {
    seq(|assignments|, i requires 0 <= i < |assignments| => assignments[i].range)
  }

  lemma {:induction false} CountAtLeast(ranges: seq<Range>, i: nat, slot: int)
    requires i < |ranges| && ranges[i].Contains(slot)
    ensures Count(ranges, slot) >= 1
    ensures Count(ranges, slot) == 1 ==> forall j :: 0 <= j < |ranges| && ranges[j].Contains(slot) ==> j == i
  {
    var n := |ranges| - 1;
    var init := ranges[..n];
    if i == n {
      forall j | 0 <= j < n && ranges[j].Contains(slot) ensures Count(ranges, slot) > 1 {
        assert init[j] == ranges[j];
        CountAtLeast(init, j, slot);
      }
    } else {
      CountAtLeast(init, i, slot);
      assert forall j :: 0 <= j < n ==> init[j] == ranges[j];
    }
  }

  lemma {:induction false} CountSome(ranges: seq<Range>, slot: int) returns (i: nat)
    requires Count(ranges, slot) >= 1
    ensures i < |ranges| && ranges[i].Contains(slot)
  {
    var n := |ranges| - 1;
    if ranges[n].Contains(slot) {
      i := n;
    } else {
      i := CountSome(ranges[..n], slot);
    }
  }

  lemma {:induction false} FoundAt(assignments: seq<Assignment>, slot: int)
    ensures AssignmentFor(assignments, slot).None? <==>
              forall i :: 0 <= i < |assignments| ==> !assignments[i].range.Contains(slot)
    ensures var a := AssignmentFor(assignments, slot);
            a.Some? ==> a.value in assignments && a.value.range.Contains(slot)
  {
    if assignments != [] && !assignments[0].range.Contains(slot) {
      FoundAt(assignments[1..], slot);
      assert forall i :: 0 < i < |assignments| ==> assignments[i] == assignments[1..][i - 1];
    }
  }

  /** On an exactly covering map every slot has an assignment. */
  lemma {:induction false} LookupTotal(assignments: seq<Assignment>, slot: int)
    requires ExactCover(RangesOf(assignments)) && 0 <= slot < SLOTS
    ensures var a := AssignmentFor(assignments, slot);
            a.Some? && a.value in assignments && a.value.range.Contains(slot)
  {
    FoundAt(assignments, slot);
    var i := CountSome(RangesOf(assignments), slot);
    assert assignments[i].range.Contains(slot);
  }

  /** The order in which the map lists its ranges does not matter. */
  lemma {:induction false} LookupOrder(assignments: seq<Assignment>, shuffled: seq<Assignment>, slot: int)
    requires ExactCover(RangesOf(assignments)) && multiset(assignments) == multiset(shuffled)
    requires 0 <= slot < SLOTS
    ensures AssignmentFor(shuffled, slot) == AssignmentFor(assignments, slot)
  {
    LookupTotal(assignments, slot);
    FoundAt(shuffled, slot);
    var a := AssignmentFor(assignments, slot).value;
    assert a in multiset(shuffled);
    var m :| 0 <= m < |shuffled| && shuffled[m] == a;
    var b := AssignmentFor(shuffled, slot).value;
    assert b in multiset(assignments);
    var i :| 0 <= i < |assignments| && assignments[i] == a;
    var j :| 0 <= j < |assignments| && assignments[j] == b;
    CountAtLeast(RangesOf(assignments), i, slot);
  }

  // ----- the shard map of an establishment document

  /** `_str`. */
  function StringAt(fs: seq<Field>, k: string): string {
    var v := Lookup(fs, k);
    if v.Some? && v.value.Str? then v.value.s else ""
  }

  function Strings(items: seq<JSON>): seq<string> {
    if items == [] then []
    else (if items[0].Str? then [items[0].s] else []) + Strings(items[1..])
  }

  function NamesAt(fs: seq<Field>, k: string): seq<string> {
    var v := Lookup(fs, k);
    if v.Some? && v.value.Arr? then Strings(v.value.items) else []
  }

  function ParseMembers(range: Range, members: JSON): Assignment {
    if members.Obj? then
      Assignment(range, StringAt(members.fields, "SHARD_SOT_MEMBER"),
                 NamesAt(members.fields, "SHARD_READ_MEMBER"), NamesAt(members.fields, "PROXY_READ_MEMBER"))
    else Assignment(range, "", [], [])
  }

  function ParseAssignments(fs: seq<Field>): Result<seq<Assignment>, Error> {
    if fs == [] then Success([])
    else
      var init :- ParseAssignments(fs[..|fs| - 1]);
      var last := fs[|fs| - 1];
      var r :- ParseRange(last.key);
      Success(init + [ParseMembers(r, last.value)])
  }

  /** The `default` part of `parse_establishment`: accepted exactly when every range parses and
      the ranges cover each slot once. */
  method ParseShardMap(fs: seq<Field>) returns (r: Result<seq<Assignment>, Error>)
    ensures r.Success? <==> ParseAssignments(fs).Success? && ExactCover(RangesOf(ParseAssignments(fs).value))
    ensures r.Success? ==> r == ParseAssignments(fs)
  {
    hide ParseRange, ParseMembers, Count;
    var ranges: seq<Range> := [];
    var assignments: seq<Assignment> := [];
    for i := 0 to |fs|
      invariant ParseAssignments(fs[..i]) == Success(assignments)
      invariant ranges == RangesOf(assignments)
      invariant forall j :: 0 <= j < |ranges| ==> ranges[j].InBounds()
    {
      assert fs[..i + 1][..i] == fs[..i];
      var range := ParseRange(fs[i].key);
      if range.Failure? {
        FailsOn(fs, i + 1);
        return Failure(range.error);
      }
      ParsedRange(fs[i].key);
      MembersRange(range.value, fs[i].value);
      ranges := ranges + [range.value];
      assignments := assignments + [ParseMembers(range.value, fs[i].value)];
    }
    assert fs[..|fs|] == fs;
    var ok := ValidateFullCoverage(ranges);
    r := if ok then Success(assignments) else Failure(ValueErr);
  }

  lemma {:induction false} MembersRange(range: Range, members: JSON)
    ensures ParseMembers(range, members).range == range
  {
  }

  /** Each assignment of a parsed map is the range of its key with the members that the document
      names for it, each list under its own name. */
  lemma {:induction false} ParsedMap(fs: seq<Field>, i: nat)
    requires ParseAssignments(fs).Success? && i < |fs|
    ensures |ParseAssignments(fs).value| == |fs|
    ensures var a := ParseAssignments(fs).value[i];
            && ParseRange(fs[i].key) == Success(a.range)
            && (fs[i].value.Obj? ==>
                  var members := fs[i].value.fields;
                  && (Lookup(members, "SHARD_SOT_MEMBER") == Some(Str(a.sotMember)) || a.sotMember == "")
                  && (forall s :: Lookup(members, "SHARD_SOT_MEMBER") == Some(Str(s)) ==> a.sotMember == s)
                  && Names(Lookup(members, "SHARD_READ_MEMBER"), a.readMembers)
                  && Names(Lookup(members, "PROXY_READ_MEMBER"), a.proxyMembers))
            && (!fs[i].value.Obj? ==> a.sotMember == "" && a.readMembers == [] && a.proxyMembers == [])
    decreases |fs|
  {
    hide ParseRange, Lookup;
    if i < |fs| - 1 {
      ParsedMap(fs[..|fs| - 1], i);
    } else if |fs| > 1 {
      ParsedMap(fs[..|fs| - 1], 0);
    }
    if fs[i].value.Obj? {
      var members := fs[i].value.fields;
      NamesOf(Lookup(members, "SHARD_READ_MEMBER"));
      NamesOf(Lookup(members, "PROXY_READ_MEMBER"));
    }
  }

  /** `names` are the strings of a listed attribute, in order. */
  ghost predicate Names(v: Option<JSON>, names: seq<string>) {
    if v.None? || !v.value.Arr? then names == []
    else
      var items := v.value.items;
      && (forall s :: s in names <==> Str(s) in items)
      && |names| <= |items|
      && ((forall i :: 0 <= i < |items| ==> items[i].Str?) ==>
            |names| == |items| && forall i :: 0 <= i < |items| ==> items[i] == Str(names[i]))
  }

  lemma {:induction false} NamesOf(v: Option<JSON>)
    ensures Names(v, if v.Some? && v.value.Arr? then Strings(v.value.items) else [])
  {
    if v.Some? && v.value.Arr? {
      StringsOf(v.value.items);
    }
  }

  lemma {:induction false} StringsOf(items: seq<JSON>)
    ensures Names(Some(Arr(items)), Strings(items))
  {
    if items != [] {
      StringsOf(items[1..]);
      var names, rest := Strings(items), Strings(items[1..]);
      assert names == (if items[0].Str? then [items[0].s] else []) + rest;
      forall s ensures s in names <==> Str(s) in items {
        assert Str(s) in items <==> items[0] == Str(s) || Str(s) in items[1..];
      }
    }
  }

  lemma {:induction false} FailsOn(fs: seq<Field>, i: nat)
    requires i <= |fs| && ParseAssignments(fs[..i]).Failure?
    ensures ParseAssignments(fs).Failure?
    decreases |fs| - i
  {
    hide ParseRange, ParseMembers;
    if i == |fs| {
      assert fs[..i] == fs;
    } else {
      assert fs[..i + 1][..i] == fs[..i];
      FailsOn(fs, i + 1);
    }
  }

  // ----- slots of documents

  /** The prefix up to the first period at index 6 or later. */
  function ShardingPrefix(id: string): string {
    PrefixFrom(id, 0)
  }

  function PrefixFrom(id: string, i: nat): string
    requires i <= |id|
    decreases |id| - i
  {
    if i == |id| then id
    else if id[i] == '.' && i >= 6 then id[..i]
    else PrefixFrom(id, i + 1)
  }

  /** `_sharding_prefix` as it runs. */
  method FindShardingPrefix(id: string) returns (prefix: string)
    ensures prefix == ShardingPrefix(id)
    ensures prefix <= id && forall k :: 6 <= k < |prefix| ==> prefix[k] != '.'
    ensures |prefix| < |id| ==> |prefix| >= 6 && id[|prefix|] == '.'
  {
    var i := 0;
    while i < |id|
      invariant 0 <= i <= |id|
      invariant forall k :: 6 <= k < i ==> id[k] != '.'
      invariant PrefixFrom(id, i) == ShardingPrefix(id)
    {
      if id[i] == '.' && i >= 6 {
        return id[..i];
      }
      i := i + 1;
    }
    prefix := id;
  }

  /** CRC32 is any function to natural numbers; the slot is its low byte. */
  function Slot(crc: string -> nat, id: string): (slot: nat)
    ensures slot < SLOTS
  {
    crc(ShardingPrefix(id)) % SLOTS
  }

  lemma {:induction false} PrefixOfFamily(p: string, x: string, i: nat)
    requires |p| >= 6 && i <= |p|
    ensures PrefixFrom(p + "." + x, i) == PrefixFrom(p, i)
    decreases |p| - i
  {
    var q := p + "." + x;
    if i == |p| {
      assert q[i] == '.' && q[..i] == p;
    } else {
      assert q[i] == p[i] && q[..i] == p[..i];
      PrefixOfFamily(p, x, i + 1);
    }
  }

  /** Documents `p` and `p.x` share their slot, hence their assignment, once p has six characters. */
  lemma {:induction false} FamilySharesSlot(crc: string -> nat, assignments: seq<Assignment>, p: string, x: string)
    requires |p| >= 6
    ensures Slot(crc, p + "." + x) == Slot(crc, p)
    ensures AssignmentFor(assignments, Slot(crc, p + "." + x)) == AssignmentFor(assignments, Slot(crc, p))
  {
    PrefixOfFamily(p, x, 0);
  }

  /** The slot of a document is the low byte of the checksum of its family's name. */
  lemma {:induction false} SlotIsLowByte(crc: string -> nat, p: string, x: string)
    requires |p| >= 6 && forall k :: 6 <= k < |p| ==> p[k] != '.'
    ensures Slot(crc, p) == crc(p) % 256 && Slot(crc, p + "." + x) == crc(p) % 256
  {
    PrefixOfFamily(p, x, 0);
    WholePrefix(p, 0);
  }

  lemma {:induction false} WholePrefix(p: string, i: nat)
    requires i <= |p| && forall k :: 6 <= k < |p| ==> p[k] != '.'
    ensures PrefixFrom(p, i) == p
    decreases |p| - i
  {
    if i < |p| { WholePrefix(p, i + 1); }
  }

  /** The assignment found for a slot is any one of an exact cover that contains it. */
  lemma {:induction false} FoundIsOwner(assignments: seq<Assignment>, slot: int, a: Assignment)
    requires ExactCover(RangesOf(assignments)) && 0 <= slot < SLOTS
    requires a in assignments && a.range.Contains(slot)
    ensures AssignmentFor(assignments, slot) == Some(a)
  {
    var j :| 0 <= j < |assignments| && assignments[j] == a;
    FoundAt(assignments, slot);
    CountAtLeast(RangesOf(assignments), j, slot);
  }
}
