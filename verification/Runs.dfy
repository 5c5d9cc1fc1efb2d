/** Runs of a routed command: what may happen between the first establishment and the outcome,
    whatever the servers reply and however the topology changes. */
module Runs {
  import opened Wrappers
  import opened Routing

  datatype Code = WrongMachine | ReadMemberStale | DocumentStale | DocumentExists | VersionMismatch | OtherCode(code: string)

  /** The end of one POST: an envelope or a transport failure. */
  datatype Reply = Ok(body: string) | Refused(code: Code) | Down

  /** The end of one establishment GET: a document that parsed and passed the catalog check, an
      application error, a parse or catalog error, or a transport failure. */
  datatype FetchReply = Fetched(est: Establishment) | FetchRefused(code: Code) | FetchInvalid | FetchDown

  datatype Problem = App(code: Code) | Transport | Establishing

  datatype Outcome = Answer(body: string) | Raised(problem: Problem)

  /** What the client sends, on the wire. */
  datatype Wire = Post(url: string, line: string, reply: Reply) | Get(fetch: FetchReply)

  datatype Resolver =
    | WriteTo(id: string)
    | ReadFrom(id: string, primary: Route)
    | ReadAny(id: string)
    | SearchIn(slot: Option<nat>)

  /** Fixed settings of a client. */
  datatype Settings = Settings(crc: string -> nat, rewrite: map<string, string>, transportRetries: nat, wrongMachineRetries: nat)

  /** One bounce of the loop: the document the hop was chosen from, the candidates, the URL, the
      POSTs (transport retries included) and the establishment GETs after a refusal. */
  datatype Hop = Hop(est: Establishment, cands: seq<Route>, url: string, posts: seq<Reply>, gets: seq<FetchReply>) {
    function Reply(): Reply
      requires posts != []
    {
      posts[|posts| - 1]
    }

    predicate Wrong() {
      posts != [] && Reply() == Refused(WrongMachine)
    }

    /** Refused as the wrong machine, then a fresh document. */
    predicate Bounced() {
      Wrong() && gets != [] && gets[|gets| - 1].Fetched?
    }
  }

  function Without(cands: seq<Route>, p: Route): seq<Route> {
    if cands == [] then []
    else (if cands[0] == p then [] else [cands[0]]) + Without(cands[1..], p)
  }

  /** The candidate lists a resolver may produce from a document. */
  ghost predicate ValidCandidates(s: Settings, est: Establishment, resolver: Resolver, cands: seq<Route>) {
    match resolver
    case WriteTo(id) => cands == [WriteRoute(s.crc, est, id)]
    case ReadFrom(id, p) =>
      exists all :: IsReadCandidates(s.crc, est, id, all) && cands == [p] + Without(all, p)
    case ReadAny(id) => IsReadCandidates(s.crc, est, id, cands)
    case SearchIn(slot) => |cands| == 1 && IsSearchRoute(est, slot, cands[0])
  }

  /** `_rewrite`. */
  function Rewrite(rewrite: map<string, string>, r: Route): string {
    if r.name != "" && r.name in rewrite && rewrite[r.name] != "" then TrimSlashes(rewrite[r.name])
    else if r.base in rewrite && rewrite[r.base] != "" then TrimSlashes(rewrite[r.base])
    else TrimSlashes(r.base)
  }

  /** The URL of a server is the one configured for its name, else for its base URL, else its base
      URL, trimmed; an empty configuration counts as none. */
  lemma {:induction false} RewriteMeaning(rewrite: map<string, string>, r: Route)
    ensures var byName := r.name != "" && r.name in rewrite && rewrite[r.name] != "";
            var byBase := r.base in rewrite && rewrite[r.base] != "";
            && (byName ==> IsTrimmed(Rewrite(rewrite, r), rewrite[r.name]))
            && (!byName && byBase ==> IsTrimmed(Rewrite(rewrite, r), rewrite[r.base]))
            && (!byName && !byBase ==> IsTrimmed(Rewrite(rewrite, r), r.base))
  {
    TrimSlashesMeaning(r.base);
    if r.name in rewrite { TrimSlashesMeaning(rewrite[r.name]); }
    if r.base in rewrite { TrimSlashesMeaning(rewrite[r.base]); }
  }

  /** The candidates behind the primary: all the others, none of it. */
  lemma {:induction false} WithoutMeaning(cands: seq<Route>, p: Route)
    ensures p !in Without(cands, p)
    ensures forall r :: r in cands && r != p ==> r in Without(cands, p)
    ensures forall r :: r in Without(cands, p) ==> r in cands
  {
    if cands != [] {
      WithoutMeaning(cands[1..], p);
      assert cands == [cands[0]] + cands[1..];
    }
  }

  /** The first candidate whose URL is usable and untried, "" when there is none. */
  function Choose(rewrite: map<string, string>, cands: seq<Route>, tried: set<string>): string {
    if cands == [] then ""
    else
      var url := Rewrite(rewrite, cands[0]);
      if url != "" && url !in tried then url else Choose(rewrite, cands[1..], tried)
  }

  lemma {:induction false} ChosenIsFresh(rewrite: map<string, string>, cands: seq<Route>, tried: set<string>)
    ensures Choose(rewrite, cands, tried) != "" ==> Choose(rewrite, cands, tried) !in tried
    ensures Choose(rewrite, cands, tried) == ""
            <==> forall i :: 0 <= i < |cands| ==> Rewrite(rewrite, cands[i]) == "" || Rewrite(rewrite, cands[i]) in tried
  {
    if cands != [] {
      ChosenIsFresh(rewrite, cands[1..], tried);
      assert forall i :: 0 < i < |cands| ==> cands[i] == cands[1..][i - 1];
    }
  }

  /** The chosen URL is that of the first candidate whose URL is usable and untried. */
  lemma {:induction false} ChosenIsFirst(rewrite: map<string, string>, cands: seq<Route>, tried: set<string>, i: nat)
    requires i < |cands| && Rewrite(rewrite, cands[i]) != "" && Rewrite(rewrite, cands[i]) !in tried
    requires forall j :: 0 <= j < i ==> Rewrite(rewrite, cands[j]) == "" || Rewrite(rewrite, cands[j]) in tried
    ensures Choose(rewrite, cands, tried) == Rewrite(rewrite, cands[i])
  {
    if i > 0 {
      ChosenIsFirst(rewrite, cands[1..], tried, i - 1);
    }
  }

  // ----- one request

  /** Transport retries: only the last try may succeed, and giving up takes all of them. */
  predicate PostTries(replies: seq<Reply>, retries: nat) {
    && 0 < |replies| <= retries + 1
    && (forall i :: 0 <= i < |replies| - 1 ==> replies[i].Down?)
    && (replies[|replies| - 1].Down? ==> |replies| == retries + 1)
  }

  predicate GetTries(replies: seq<FetchReply>, retries: nat) {
    && 0 < |replies| <= retries + 1
    && (forall i :: 0 <= i < |replies| - 1 ==> replies[i].FetchDown?)
    && (replies[|replies| - 1].FetchDown? ==> |replies| == retries + 1)
  }

  function FetchProblem(r: FetchReply): Problem
    requires !r.Fetched?
  {
    match r
    case FetchRefused(code) => App(code)
    case FetchInvalid => Establishing
    case FetchDown => Transport
  }

  function PostWire(url: string, line: string, posts: seq<Reply>): seq<Wire> {
    seq(|posts|, i requires 0 <= i < |posts| => Post(url, line, posts[i]))
  }

  function GetWire(gets: seq<FetchReply>): seq<Wire> {
    seq(|gets|, i requires 0 <= i < |gets| => Get(gets[i]))
  }

  function HopWire(line: string, h: Hop): seq<Wire> {
    PostWire(h.url, line, h.posts) + GetWire(h.gets)
  }

  function HopsWire(line: string, hops: seq<Hop>): seq<Wire> {
    if hops == [] then [] else HopsWire(line, hops[..|hops| - 1]) + HopWire(line, hops[|hops| - 1])
  }

  // ----- the loop of _execute_routed

  function Urls(hops: seq<Hop>): set<string> {
    set i | 0 <= i < |hops| :: hops[i].url
  }

  /** The document that a hop leaves in the cache. */
  function After(h: Hop): Establishment {
    if h.Bounced() then h.gets[|h.gets| - 1].est else h.est
  }

  /** The document that these hops leave in the cache, hence the one the next hop is chosen from. */
  function Latest(est: Establishment, hops: seq<Hop>): Establishment {
    if hops == [] then est else After(hops[|hops| - 1])
  }

  /** The cache after a run of `_execute_routed` that found `cached` there. */
  function CacheAfter(cached: Option<Establishment>, first: seq<FetchReply>, hops: seq<Hop>): Option<Establishment> {
    if cached.Some? then Some(Latest(cached.value, hops))
    else if first != [] && first[|first| - 1].Fetched? then Some(Latest(first[|first| - 1].est, hops))
    else None
  }

  /** A hop chosen from `est` when `tried` was tried. */
  ghost predicate GoodHop(s: Settings, resolver: Resolver, est: Establishment, tried: set<string>, h: Hop) {
    && h.est == est
    && ValidCandidates(s, est, resolver, h.cands)
    && h.url != "" && h.url == Choose(s.rewrite, h.cands, tried)
    && PostTries(h.posts, s.transportRetries)
    && if h.Wrong() then GetTries(h.gets, s.transportRetries) else h.gets == []
  }

  /** Every hop is chosen afresh from the document fetched after the previous refusal. */
  ghost predicate GoodHops(s: Settings, resolver: Resolver, est: Establishment, hops: seq<Hop>) {
    && (forall i :: 0 <= i < |hops| ==> GoodHop(s, resolver, Latest(est, hops[..i]), Urls(hops[..i]), hops[i]))
    && (forall i :: 0 <= i < |hops| - 1 ==> hops[i].Bounced())
  }

  /** What a hop that did not bounce ends the command with. */
  function HopOutcome(h: Hop): Outcome
    requires h.posts != []
  {
    match h.Reply()
    case Ok(body) => Answer(body)
    case Refused(code) =>
      if code.WrongMachine? && h.gets != [] && !h.gets[|h.gets| - 1].Fetched?
      then Raised(FetchProblem(h.gets[|h.gets| - 1])) else Raised(App(code))
    case Down => Raised(Transport)
  }

  /** No untried candidate is left. */
  ghost predicate Stuck(s: Settings, resolver: Resolver, est: Establishment, tried: set<string>) {
    exists cands :: ValidCandidates(s, est, resolver, cands) && Choose(s.rewrite, cands, tried) == ""
  }

  /** A complete run of the loop from the document `est`. */
  ghost predicate RoutedFrom(s: Settings, resolver: Resolver, est: Establishment, hops: seq<Hop>, outcome: Outcome) {
    && |hops| <= s.wrongMachineRetries + 1
    && GoodHops(s, resolver, est, hops)
    && if hops != [] && !hops[|hops| - 1].Bounced()
       then hops[|hops| - 1].posts != [] && outcome == HopOutcome(hops[|hops| - 1])
       else && outcome == Raised(App(WrongMachine))
            && (|hops| == s.wrongMachineRetries + 1 || Stuck(s, resolver, Latest(est, hops), Urls(hops)))
  }

  /** A complete run of `_execute_routed`: a first establishment fetch only when nothing is cached. */
  ghost predicate Routed(s: Settings, resolver: Resolver, cached: Option<Establishment>,
                         first: seq<FetchReply>, hops: seq<Hop>, outcome: Outcome)
  {
    if cached.Some? then first == [] && RoutedFrom(s, resolver, cached.value, hops, outcome)
    else
      && GetTries(first, s.transportRetries)
      && var last := first[|first| - 1];
         if last.Fetched? then RoutedFrom(s, resolver, last.est, hops, outcome)
         else hops == [] && outcome == Raised(FetchProblem(last))
  }

  /** A run that a last hop ends. */
  lemma {:induction false} EndRun(s: Settings, resolver: Resolver, est: Establishment, hops: seq<Hop>, h: Hop)
    requires GoodHops(s, resolver, est, hops) && forall i :: 0 <= i < |hops| ==> hops[i].Bounced()
    requires GoodHop(s, resolver, Latest(est, hops), Urls(hops), h) && !h.Bounced()
    requires |hops| <= s.wrongMachineRetries
    ensures RoutedFrom(s, resolver, est, hops + [h], HopOutcome(h))
  {
    hide GoodHops, HopOutcome, Latest, Stuck, Urls, ValidCandidates, Choose;
    AppendHop(s, resolver, est, hops, h);
    assert h.posts != [];
    hide GoodHop, PostTries, GetTries;
    assert (hops + [h])[|hops|] == h;
  }

  lemma {:induction false} AppendHop(s: Settings, resolver: Resolver, est: Establishment, hops: seq<Hop>, h: Hop)
    requires GoodHops(s, resolver, est, hops) && forall i :: 0 <= i < |hops| ==> hops[i].Bounced()
    requires GoodHop(s, resolver, Latest(est, hops), Urls(hops), h)
    ensures GoodHops(s, resolver, est, hops + [h])
    ensures Urls(hops + [h]) == Urls(hops) + {h.url}
  {
    hide GoodHop, Latest;
    var more := hops + [h];
    forall i | 0 <= i < |more|
      ensures GoodHop(s, resolver, Latest(est, more[..i]), Urls(more[..i]), more[i])
    {
      assert i < |hops| ==> more[..i] == hops[..i];
      assert i == |hops| ==> more[..i] == hops;
    }
    assert more[|hops|].url == h.url;
    forall u | u in Urls(hops) ensures u in Urls(more) {
      var i :| 0 <= i < |hops| && hops[i].url == u;
      assert more[i].url == u;
    }
  }

  lemma {:induction false} NoHops(s: Settings, resolver: Resolver, est: Establishment, line: string)
    ensures GoodHops(s, resolver, est, []) && HopsWire(line, []) == [] && Urls([]) == {}
  {
  }

  lemma {:induction false} AppendWire(line: string, hops: seq<Hop>, h: Hop)
    ensures HopsWire(line, hops + [h]) == HopsWire(line, hops) + HopWire(line, h)
  {
    assert (hops + [h])[..|hops|] == hops;
  }

  // ----- what holds of every run

  /** No URL is posted to twice in one run. */
  lemma {:induction false} UrlsDistinct(s: Settings, resolver: Resolver, est: Establishment, hops: seq<Hop>)
    requires GoodHops(s, resolver, est, hops)
    ensures forall i, j :: 0 <= i < j < |hops| ==> hops[i].url != hops[j].url
  {
    forall i, j | 0 <= i < j < |hops| ensures hops[i].url != hops[j].url {
      assert GoodHop(s, resolver, Latest(est, hops[..j]), Urls(hops[..j]), hops[j]);
      ChosenIsFresh(s.rewrite, hops[j].cands, Urls(hops[..j]));
      assert hops[..j][i] == hops[i];
    }
  }

  /** Every later hop is chosen from the document fetched right after the refusal before it. */
  lemma {:induction false} FreshDocuments(s: Settings, resolver: Resolver, est: Establishment, hops: seq<Hop>, i: nat)
    requires GoodHops(s, resolver, est, hops) && i < |hops| - 1
    ensures hops[i].Bounced() && hops[i].gets[|hops[i].gets| - 1] == Fetched(hops[i + 1].est)
  {
    hide ValidCandidates, Choose, PostTries, GetTries;
    var before := hops[..i + 1];
    assert GoodHop(s, resolver, Latest(est, before), Urls(before), hops[i + 1]);
    assert before[i] == hops[i];
  }

  /** An answer, and an error other than `wrongMachine`, is the last server's own, or the failure of
      the establishment refresh after that server's refusal; each kind of end has its own cause. */
  predicate OwnOutcome(hops: seq<Hop>, outcome: Outcome) {
    && (outcome.Answer? ==> hops != [] && hops[|hops| - 1].posts != [] && hops[|hops| - 1].Reply() == Ok(outcome.body))
    && (outcome.Raised? && outcome.problem.App? && !outcome.problem.code.WrongMachine? ==>
          && hops != [] && hops[|hops| - 1].posts != []
          && (|| hops[|hops| - 1].Reply() == Refused(outcome.problem.code)
              || (hops[|hops| - 1].Wrong() && FetchRefused(outcome.problem.code) in hops[|hops| - 1].gets)))
    && (outcome == Raised(Transport) ==>
          && hops != [] && hops[|hops| - 1].posts != []
          && (hops[|hops| - 1].Reply() == Down || (hops[|hops| - 1].Wrong() && FetchDown in hops[|hops| - 1].gets)))
    && (outcome == Raised(Establishing) ==>
          hops != [] && hops[|hops| - 1].Wrong() && FetchInvalid in hops[|hops| - 1].gets)
  }

  lemma {:induction false} EndsAsLast(s: Settings, resolver: Resolver, est: Establishment, hops: seq<Hop>, outcome: Outcome)
    requires RoutedFrom(s, resolver, est, hops, outcome)
    ensures OwnOutcome(hops, outcome)
  {
    hide GoodHops, Stuck, Latest;
  }

  /** Safety of every run from a document: bounded hops, distinct URLs, each later hop chosen from
      the document fetched right after the refusal before it, only `wrongMachine` leads on, and the
      answer or error is the last server's own. */
  lemma {:induction false} RoutedSafety(s: Settings, resolver: Resolver, est: Establishment, hops: seq<Hop>, outcome: Outcome)
    requires RoutedFrom(s, resolver, est, hops, outcome)
    ensures |hops| <= s.wrongMachineRetries + 1
    ensures forall i, j :: 0 <= i < j < |hops| ==> hops[i].url != hops[j].url
    ensures forall i :: 0 <= i < |hops| - 1 ==>
              && hops[i].Bounced() && hops[i].gets[|hops[i].gets| - 1] == Fetched(hops[i + 1].est)
    ensures OwnOutcome(hops, outcome)
  {
    hide GoodHops, OwnOutcome, Stuck, Latest, HopOutcome;
    UrlsDistinct(s, resolver, est, hops);
    EndsAsLast(s, resolver, est, hops, outcome);
    forall i | 0 <= i < |hops| - 1
      ensures hops[i].Bounced() && hops[i].gets[|hops[i].gets| - 1] == Fetched(hops[i + 1].est)
    {
      FreshDocuments(s, resolver, est, hops, i);
    }
  }

  /** Every hop goes to a candidate of the document it was chosen from. */
  lemma {:induction false} HopsAreCandidates(s: Settings, resolver: Resolver, est: Establishment, hops: seq<Hop>, i: nat)
    requires GoodHops(s, resolver, est, hops) && i < |hops|
    ensures ValidCandidates(s, hops[i].est, resolver, hops[i].cands)
    ensures exists r :: r in hops[i].cands && Rewrite(s.rewrite, r) == hops[i].url
  {
    assert GoodHop(s, resolver, Latest(est, hops[..i]), Urls(hops[..i]), hops[i]);
    ChosenFrom(s.rewrite, hops[i].cands, Urls(hops[..i]));
  }

  lemma {:induction false} ChosenFrom(rewrite: map<string, string>, cands: seq<Route>, tried: set<string>)
    ensures Choose(rewrite, cands, tried) != "" ==>
              exists r :: r in cands && Rewrite(rewrite, r) == Choose(rewrite, cands, tried)
  {
    if cands != [] {
      if Rewrite(rewrite, cands[0]) != "" && Rewrite(rewrite, cands[0]) !in tried {
        assert cands[0] in cands;
      } else {
        ChosenFrom(rewrite, cands[1..], tried);
      }
    }
  }

  /** The establishment server itself refused the last refresh, as the wrong machine. */
  predicate RefreshRefused(hops: seq<Hop>) {
    && hops != [] && hops[|hops| - 1].gets != []
    && hops[|hops| - 1].gets[|hops[|hops| - 1].gets| - 1] == FetchRefused(WrongMachine)
  }

  /** Ending as `wrongMachine` means that the budget is spent, or every candidate of the latest
      document is unusable or has already refused; unless a refresh was refused with that code. */
  lemma {:induction false} WrongMachineMeaning(s: Settings, resolver: Resolver, est: Establishment, hops: seq<Hop>)
    requires RoutedFrom(s, resolver, est, hops, Raised(App(WrongMachine))) && !RefreshRefused(hops)
    ensures forall i :: 0 <= i < |hops| ==> hops[i].Bounced()
    ensures |hops| == s.wrongMachineRetries + 1 ||
            exists cands :: ValidCandidates(s, Latest(est, hops), resolver, cands) &&
              forall i :: 0 <= i < |cands| ==>
                Rewrite(s.rewrite, cands[i]) == "" || exists j :: 0 <= j < |hops| && hops[j].url == Rewrite(s.rewrite, cands[i])
  {
    if hops != [] && !hops[|hops| - 1].Bounced() {
      assert GoodHop(s, resolver, Latest(est, hops[..|hops| - 1]), Urls(hops[..|hops| - 1]), hops[|hops| - 1]);
      EndsOtherwise(s, resolver, Latest(est, hops[..|hops| - 1]), Urls(hops[..|hops| - 1]), hops[|hops| - 1]);
    }
    if |hops| < s.wrongMachineRetries + 1 {
      var cands :| ValidCandidates(s, Latest(est, hops), resolver, cands) && Choose(s.rewrite, cands, Urls(hops)) == "";
      ChosenIsFresh(s.rewrite, cands, Urls(hops));
    }
  }

  /** A hop that did not bounce ends as `wrongMachine` only when the refresh was refused so. */
  lemma {:induction false} EndsOtherwise(s: Settings, resolver: Resolver, est: Establishment, tried: set<string>, h: Hop)
    requires GoodHop(s, resolver, est, tried, h) && !h.Bounced() && HopOutcome(h) == Raised(App(WrongMachine))
    ensures h.gets != [] && h.gets[|h.gets| - 1] == FetchRefused(WrongMachine)
  {
  }

  /** Every POST of a run carries the same command line and goes to the URL of one of its hops. */
  lemma {:induction false} SameLine(line: string, hops: seq<Hop>)
    ensures forall i :: 0 <= i < |HopsWire(line, hops)| && HopsWire(line, hops)[i].Post? ==>
              HopsWire(line, hops)[i].line == line && HopsWire(line, hops)[i].url in Urls(hops)
  {
    if hops != [] {
      var n := |hops| - 1;
      SameLine(line, hops[..n]);
      assert forall i :: 0 <= i < n ==> hops[..n][i] == hops[i];
      assert Urls(hops[..n]) <= Urls(hops) && hops[n].url in Urls(hops);
    }
  }

  /** No other command line is on this stretch of the wire. */
  predicate CarriesOnly(line: string, ws: seq<Wire>) {
    forall i :: 0 <= i < |ws| && ws[i].Post? ==> ws[i].line == line
  }

  lemma {:induction false} RunCarries(line: string, gets: seq<FetchReply>, hops: seq<Hop>)
    ensures CarriesOnly(line, GetWire(gets)) && CarriesOnly(line, GetWire(gets) + HopsWire(line, hops))
  {
    SameLine(line, hops);
  }

  // ----- writes converge

  /** The owner of a document, by an accepted shard map, is reached at u. */
  ghost predicate OwnerAt(s: Settings, est: Establishment, id: string, u: string) {
    WellMapped(est) && exists name :: OwnedBy(s.crc, est, id, name) && Rewrite(s.rewrite, RouteTo(est, name)) == u
  }

  /** The conditions of a settled topology, as seen by one run: every refresh names the owner at u,
      it never bounces, every other machine does, nothing is down. */
  ghost predicate Settled(s: Settings, id: string, u: string, hops: seq<Hop>) {
    && u != ""
    && forall i :: 0 <= i < |hops| && hops[i].posts != [] ==>
         && !hops[i].Reply().Down?
         && (hops[i].url == u <==> !hops[i].Wrong())
         && (forall g :: g in hops[i].gets ==> g.Fetched? && OwnerAt(s, g.est, id, u))
  }

  /** By an accepted shard map a write first goes to the owner of the document. */
  lemma {:induction false} FirstUrlIsOwners(s: Settings, est: Establishment, id: string)
    requires WellMapped(est)
    ensures forall u :: OwnerAt(s, est, id, u) <==> u == FirstUrl(s, est, id)
  {
    var name := WriteRoute(s.crc, est, id).name;
    WriteRouteIsOwner(s.crc, est, id, name);
    forall u ensures OwnerAt(s, est, id, u) <==> u == FirstUrl(s, est, id) {
      if OwnerAt(s, est, id, u) {
        var other :| OwnedBy(s.crc, est, id, other) && Rewrite(s.rewrite, RouteTo(est, other)) == u;
        WriteRouteIsOwner(s.crc, est, id, other);
      }
    }
  }

  /** The URL a write would first go to. */
  function FirstUrl(s: Settings, est: Establishment, id: string): string {
    Rewrite(s.rewrite, WriteRoute(s.crc, est, id))
  }

  lemma {:induction false} WriteHop(s: Settings, id: string, est: Establishment, tried: set<string>, h: Hop)
    requires GoodHop(s, WriteTo(id), est, tried, h)
    ensures h.url == FirstUrl(s, est, id)
  {
    ChooseOne(s.rewrite, WriteRoute(s.crc, est, id), tried);
  }

  lemma {:induction false} ChooseOne(rewrite: map<string, string>, r: Route, tried: set<string>)
    ensures Choose(rewrite, [r], tried) == if Rewrite(rewrite, r) in tried then "" else Rewrite(rewrite, r)
  {
    assert [r][1..] == [];
  }

  /** Whatever stale document was cached, a write in a settled topology is answered by the owning
      member within two hops if and only if the cached document names a usable URL at all; when it
      does not, the write fails without a single POST or refresh. */
  lemma {:induction false} WriteConverges(s: Settings, id: string, u: string, est: Establishment, hops: seq<Hop>, outcome: Outcome)
    requires s.wrongMachineRetries >= 1 && RoutedFrom(s, WriteTo(id), est, hops, outcome) && Settled(s, id, u, hops)
    ensures FirstUrl(s, est, id) != "" <==>
              1 <= |hops| <= 2 && hops[|hops| - 1].url == u && hops[|hops| - 1].posts != []
              && outcome == HopOutcome(hops[|hops| - 1]) && !hops[|hops| - 1].Wrong()
    ensures FirstUrl(s, est, id) == "" ==> hops == [] && outcome == Raised(App(WrongMachine))
  {
    var first := FirstUrl(s, est, id);
    if hops == [] {
      var cands :| ValidCandidates(s, est, WriteTo(id), cands) && Choose(s.rewrite, cands, Urls(hops)) == "";
      ChosenIsFresh(s.rewrite, cands, {});
      assert Urls(hops) == {};
      assert Rewrite(s.rewrite, cands[0]) == first;
    } else {
      assert GoodHop(s, WriteTo(id), Latest(est, hops[..0]), Urls(hops[..0]), hops[0]);
      WriteHop(s, id, est, Urls(hops[..0]), hops[0]);
      if hops[0].url == u {
        assert !hops[0].Bounced();
      } else {
        SecondHop(s, id, u, est, hops, outcome);
      }
    }
  }

  lemma {:induction false} SecondHop(s: Settings, id: string, u: string, est: Establishment, hops: seq<Hop>, outcome: Outcome)
    requires s.wrongMachineRetries >= 1 && RoutedFrom(s, WriteTo(id), est, hops, outcome) && Settled(s, id, u, hops)
    requires hops != [] && hops[0].url != u
    ensures |hops| == 2 && hops[1].url == u && hops[1].posts != [] && !hops[1].Wrong() && outcome == HopOutcome(hops[1])
  {
    var h := hops[0];
    assert GoodHop(s, WriteTo(id), Latest(est, hops[..0]), Urls(hops[..0]), h);
    var g := h.gets[|h.gets| - 1];
    assert g in h.gets;
    assert h.Bounced();
    FirstUrlIsOwners(s, g.est, id);
    hide OwnerAt;
    assert Urls([h]) == {h.url} && Latest(est, [h]) == g.est;
    NotStuck(s, id, g.est, Urls([h]));
    assert |hops| == 1 ==> hops == [h];
    assert hops[..1] == [h];
    assert GoodHop(s, WriteTo(id), Latest(est, hops[..1]), Urls(hops[..1]), hops[1]);
    WriteHop(s, id, g.est, Urls(hops[..1]), hops[1]);
    assert !hops[1].Bounced();
  }

  lemma {:induction false} NotStuck(s: Settings, id: string, est: Establishment, tried: set<string>)
    requires FirstUrl(s, est, id) != "" && FirstUrl(s, est, id) !in tried
    ensures !Stuck(s, WriteTo(id), est, tried)
  {
    forall cands | ValidCandidates(s, est, WriteTo(id), cands) ensures Choose(s.rewrite, cands, tried) != "" {
      var r := WriteRoute(s.crc, est, id);
      assert cands == [r] && cands[0] == r && Rewrite(s.rewrite, r) == FirstUrl(s, est, id);
    }
  }

  /** A converged write leaves a document in the cache that names the owner, so the next write
      goes straight there: one hop. */
  lemma {:induction false} NextWriteDirect(s: Settings, id: string, u: string, est: Establishment, hops: seq<Hop>, outcome: Outcome,
                                           hops': seq<Hop>, outcome': Outcome)
    requires s.wrongMachineRetries >= 1 && RoutedFrom(s, WriteTo(id), est, hops, outcome) && Settled(s, id, u, hops)
    requires FirstUrl(s, est, id) != ""
    requires RoutedFrom(s, WriteTo(id), Latest(est, hops), hops', outcome') && Settled(s, id, u, hops')
    ensures FirstUrl(s, Latest(est, hops), id) == u
    ensures |hops'| == 1 && hops'[0].url == u && hops'[0].posts != [] && outcome' == HopOutcome(hops'[0])
  {
    hide HopOutcome, Stuck;
    ConvergedCache(s, id, u, est, hops, outcome);
    WriteConverges(s, id, u, Latest(est, hops), hops', outcome');
    assert GoodHop(s, WriteTo(id), Latest(Latest(est, hops), hops'[..0]), Urls(hops'[..0]), hops'[0]);
    WriteHop(s, id, Latest(est, hops), Urls(hops'[..0]), hops'[0]);
    assert !hops'[0].Bounced();
  }

  lemma {:induction false} ConvergedCache(s: Settings, id: string, u: string, est: Establishment, hops: seq<Hop>, outcome: Outcome)
    requires s.wrongMachineRetries >= 1 && RoutedFrom(s, WriteTo(id), est, hops, outcome) && Settled(s, id, u, hops)
    requires FirstUrl(s, est, id) != ""
    ensures FirstUrl(s, Latest(est, hops), id) == u
  {
    hide HopOutcome, Stuck;
    WriteConverges(s, id, u, est, hops, outcome);
    var n := |hops| - 1;
    assert GoodHop(s, WriteTo(id), Latest(est, hops[..n]), Urls(hops[..n]), hops[n]);
    WriteHop(s, id, Latest(est, hops[..n]), Urls(hops[..n]), hops[n]);
    assert !hops[n].Bounced();
  }

  /** The condition is real: from a document that names no server, a write ends at once, whatever
      the settings, without a message. */
  lemma {:induction false} UnnamedServerBlocksWrite(s: Settings, id: string)
    requires s.rewrite == map[]
    ensures RoutedFrom(s, WriteTo(id), Establishment("m", map[], []), [], Raised(App(WrongMachine)))
    ensures FirstUrl(s, Establishment("m", map[], []), id) == ""
  {
    var est := Establishment("m", map[], []);
    assert WriteRoute(s.crc, est, id) == Route("m", "");
    assert Rewrite(s.rewrite, Route("m", "")) == "";
    assert ValidCandidates(s, est, WriteTo(id), [Route("m", "")]);
    ChosenIsFresh(s.rewrite, [Route("m", "")], Urls([]));
    assert Stuck(s, WriteTo(id), est, Urls([]));
  }
}
