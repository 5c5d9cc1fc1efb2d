/** Candidate servers for a command, from one establishment document. */
module Routing {
  import opened Wrappers
  import opened Shard

  /** The parts of an establishment document that routing reads; servers map names to base URLs. */
  datatype Establishment = Establishment(establishmentServer: string, servers: map<string, string>, assignments: seq<Assignment>)

  datatype Route = Route(name: string, base: string)

  /** `rstrip("/")`. */
  function TrimSlashes(s: string): string {
    if s != "" && s[|s| - 1] == '/' then TrimSlashes(s[..|s| - 1]) else s
  }

  function BaseUrl(est: Establishment, name: string): string {
    if name in est.servers then TrimSlashes(est.servers[name]) else ""
  }

  function RouteTo(est: Establishment, name: string): Route {
    Route(name, BaseUrl(est, name))
  }

  function EstablishmentRoute(est: Establishment): Route {
    RouteTo(est, est.establishmentServer)
  }

  /** `route_document_write`. */
  function WriteRoute(crc: string -> nat, est: Establishment, id: string): Route {
    if id == "" then EstablishmentRoute(est)
    else
      var a := AssignmentFor(est.assignments, Slot(crc, id));
      if a.None? || a.value.sotMember == "" then EstablishmentRoute(est) else RouteTo(est, a.value.sotMember)
  }

  function RoutesTo(est: Establishment, names: seq<string>): seq<Route> {
    seq(|names|, i requires 0 <= i < |names| => RouteTo(est, names[i]))
  }

  /** The servers a document may be read from: its read members, else the establishment server. */
  function ReadNames(crc: string -> nat, est: Establishment, id: string): (names: seq<string>)
    ensures names != []
  {
    if id == "" then [est.establishmentServer]
    else
      var a := AssignmentFor(est.assignments, Slot(crc, id));
      if a.None? || a.value.readMembers == [] then [est.establishmentServer] else a.value.readMembers
  }

  /** One possible outcome of the shuffle. */
  ghost predicate IsReadCandidates(crc: string -> nat, est: Establishment, id: string, cands: seq<Route>) {
    exists names: seq<string> :: multiset(names) == multiset(ReadNames(crc, est, id)) && cands == RoutesTo(est, names)
  }

  /** One possible outcome of `route_search`; a missing slot means no path segments. */
  predicate IsSearchRoute(est: Establishment, slot: Option<nat>, r: Route) {
    if slot.None? then r == EstablishmentRoute(est)
    else
      var a := AssignmentFor(est.assignments, slot.value);
      if a.None? then r == EstablishmentRoute(est)
      else if a.value.readMembers != [] then r.name in a.value.readMembers && r == RouteTo(est, r.name)
      else if a.value.sotMember != "" then r == RouteTo(est, a.value.sotMember)
      else r == EstablishmentRoute(est)
  }

  // ----- what the routes are

  /** A shard map as it is accepted: none at all, or each slot in exactly one range. */
  predicate WellMapped(est: Establishment) {
    est.assignments == [] || ExactCover(RangesOf(est.assignments))
  }

  /** The server that owns a document: the source-of-truth member of the shard that its slot lies
      in, else the establishment server. */
  ghost predicate OwnedBy(crc: string -> nat, est: Establishment, id: string, name: string) {
    || (id != "" && name != "" && exists a :: a in est.assignments && a.range.Contains(Slot(crc, id)) && a.sotMember == name)
    || (name == est.establishmentServer
        && (id == "" || forall a :: a in est.assignments && a.range.Contains(Slot(crc, id)) ==> a.sotMember == ""))
  }

  /** Writes go to the owner, at its base URL. */
  lemma {:induction false} WriteRouteIsOwner(crc: string -> nat, est: Establishment, id: string, name: string)
    requires WellMapped(est)
    ensures OwnedBy(crc, est, id, name) <==> name == WriteRoute(crc, est, id).name
    ensures WriteRoute(crc, est, id) == RouteTo(est, WriteRoute(crc, est, id).name)
  {
    if id != "" {
      var slot := Slot(crc, id);
      FoundAt(est.assignments, slot);
      if est.assignments != [] {
        LookupTotal(est.assignments, slot);
        forall a | a in est.assignments && a.range.Contains(slot) ensures AssignmentFor(est.assignments, slot) == Some(a) {
          FoundIsOwner(est.assignments, slot, a);
        }
      }
    }
  }

  /** `url` is `full` without its trailing slashes. */
  predicate IsTrimmed(url: string, full: string) {
    && url <= full && (url != "" ==> url[|url| - 1] != '/')
    && forall i :: |url| <= i < |full| ==> full[i] == '/'
  }

  lemma {:induction false} TrimSlashesMeaning(s: string)
    ensures IsTrimmed(TrimSlashes(s), s)
  {
    if s != "" && s[|s| - 1] == '/' { TrimSlashesMeaning(s[..|s| - 1]); }
  }

  /** A base URL is the configured one, trimmed; a server that is not configured has none. */
  lemma {:induction false} BaseUrlMeaning(est: Establishment, name: string)
    ensures if name in est.servers then IsTrimmed(BaseUrl(est, name), est.servers[name]) else BaseUrl(est, name) == ""
  {
    if name in est.servers { TrimSlashesMeaning(est.servers[name]); }
  }

  /** Reads go to the read members of the document's shard, all of them and no others, or to the
      establishment server when it has none. */
  lemma {:induction false} ReadsStayInShard(crc: string -> nat, est: Establishment, id: string, cands: seq<Route>, a: Assignment)
    requires id != "" && ExactCover(RangesOf(est.assignments)) && IsReadCandidates(crc, est, id, cands)
    requires a in est.assignments && a.range.Contains(Slot(crc, id))
    ensures |cands| == if a.readMembers == [] then 1 else |a.readMembers|
    ensures forall r :: r in cands ==>
              r == RouteTo(est, r.name) && if a.readMembers == [] then r.name == est.establishmentServer else r.name in a.readMembers
    ensures forall name :: name in a.readMembers ==> RouteTo(est, name) in cands
  {
    FoundIsOwner(est.assignments, Slot(crc, id), a);
    ReadCandidatesNonEmpty(crc, est, id, cands);
    var members := ReadNames(crc, est, id);
    var names: seq<string> :| multiset(names) == multiset(members) && cands == RoutesTo(est, names);
    forall r | r in cands ensures r == RouteTo(est, r.name) && r.name in members {
      var i :| 0 <= i < |cands| && cands[i] == r;
      assert names[i] in multiset(members);
    }
    forall name | name in members ensures RouteTo(est, name) in cands {
      assert name in multiset(names);
      var i :| 0 <= i < |names| && names[i] == name;
      assert cands[i] == RouteTo(est, name);
    }
  }

  /** Searches go to a read member of the search's shard, to its source-of-truth member when it has
      none, and to the establishment server without a shard or without either. */
  lemma {:induction false} SearchStaysInShard(est: Establishment, slot: Option<nat>, r: Route)
    requires WellMapped(est) && IsSearchRoute(est, slot, r) && (slot.Some? ==> slot.value < SLOTS)
    ensures r == RouteTo(est, r.name)
    ensures slot.None? || est.assignments == [] ==> r.name == est.establishmentServer
    ensures slot.Some? ==> forall a :: a in est.assignments && a.range.Contains(slot.value) ==>
              if a.readMembers != [] then r.name in a.readMembers
              else r.name == if a.sotMember != "" then a.sotMember else est.establishmentServer
  {
    if slot.Some? {
      FoundAt(est.assignments, slot.value);
      forall a | a in est.assignments && a.range.Contains(slot.value)
        ensures AssignmentFor(est.assignments, slot.value) == Some(a)
      {
        FoundIsOwner(est.assignments, slot.value, a);
      }
    }
  }

  lemma {:induction false} ReadCandidatesNonEmpty(crc: string -> nat, est: Establishment, id: string, cands: seq<Route>)
    requires IsReadCandidates(crc, est, id, cands)
    ensures |cands| == |ReadNames(crc, est, id)| > 0
  {
    var names: seq<string> :| multiset(names) == multiset(ReadNames(crc, est, id)) && cands == RoutesTo(est, names);
    assert |multiset(names)| == |names|;
    assert |multiset(ReadNames(crc, est, id))| == |ReadNames(crc, est, id)|;
  }

  /** `random.shuffle` in place, one exchange per index, for any sequence of draws. */
  method Shuffle(a: array<string>, draw: nat -> nat, from: nat)
    modifies a
    ensures multiset(a[..]) == multiset(old(a[..]))
  {
    var i := a.Length;
    while i > 1
      invariant 0 <= i <= a.Length
      invariant multiset(a[..]) == multiset(old(a[..]))
    {
      i := i - 1;
      var j := draw(from + i) % (i + 1);
      a[i], a[j] := a[j], a[i];
    }
  }

  /** `route_document_read_candidates`. */
  method ReadCandidates(crc: string -> nat, est: Establishment, id: string, draw: nat -> nat, from: nat)
    returns (cands: seq<Route>)
    ensures IsReadCandidates(crc, est, id, cands)
  {
    var names := ReadNames(crc, est, id);
    var a := new string[|names|](i requires 0 <= i < |names| => names[i]);
    assert a[..] == names;
    Shuffle(a, draw, from);
    var shuffled := a[..];
    cands := RoutesTo(est, shuffled);
  }

  /** `random.choice` over the read members of a search shard, when there are any. */
  method SearchRoute(est: Establishment, slot: Option<nat>, draw: nat) returns (r: Route)
    ensures IsSearchRoute(est, slot, r)
  {
    if slot.None? {
      return EstablishmentRoute(est);
    }
    var a := AssignmentFor(est.assignments, slot.value);
    if a.None? {
      return EstablishmentRoute(est);
    }
    if a.value.readMembers != [] {
      var name := a.value.readMembers[draw % |a.value.readMembers|];
      return RouteTo(est, name);
    }
    if a.value.sotMember != "" {
      return RouteTo(est, a.value.sotMember);
    }
    r := EstablishmentRoute(est);
  }
}
