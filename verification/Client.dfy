/** The smart client: routed execution, reads, creates. Servers and the network are arbitrary
    streams of replies, so every run of the client against any environment is a run here. */
module Client {
  import opened Wrappers
  import opened Routing
  import opened Runs
  import opened Reads

  class SmartClient {
    const settings: Settings
    const policy: Policy
    const verifyCreates: bool
    /** What the k-th request meets, were it a POST or an establishment GET; the k-th draw. */
    const replies: nat -> Reply
    const fetches: nat -> FetchReply
    const draws: nat -> nat
    var cache: Option<Establishment>
    var requests: nat
    var drawn: nat
    ghost var wire: seq<Wire>

    /** The retry setting counts only when positive; the default is 3. */
    constructor (crc: string -> nat, rewrite: map<string, string>, transportRetries: nat, wrongMachineRetries: int,
                 policy: Policy, verifyCreates: bool,
                 replies: nat -> Reply, fetches: nat -> FetchReply, draws: nat -> nat)
      ensures settings.wrongMachineRetries == (if wrongMachineRetries > 0 then wrongMachineRetries else 3)
      ensures settings.transportRetries == transportRetries && settings.crc == crc && settings.rewrite == rewrite
      ensures cache.None? && wire == []
    {
      this.settings := Settings(crc, rewrite, transportRetries, if wrongMachineRetries > 0 then wrongMachineRetries else 3);
      this.policy := policy;
      this.verifyCreates := verifyCreates;
      this.replies := replies;
      this.fetches := fetches;
      this.draws := draws;
      this.cache := None;
      this.requests := 0;
      this.drawn := 0;
      this.wire := [];
    }

    /** `_post_command`: one command to one URL, repeated on transport failures only. */
    method PostCommand(url: string, line: string) returns (reply: Reply, ghost posts: seq<Reply>)
      modifies this`requests, this`wire
      ensures PostTries(posts, settings.transportRetries) && reply == posts[|posts| - 1]
      ensures wire == old(wire) + PostWire(url, line, posts)
    {
      posts := [];
      var i := 0;
      reply := Down;
      while i < settings.transportRetries + 1
        invariant 0 <= i <= settings.transportRetries + 1 && |posts| == i
        invariant forall j :: 0 <= j < i ==> posts[j].Down?
        invariant reply.Down?
        invariant wire == old(wire) + PostWire(url, line, posts)
      {
        reply := replies(requests);
        requests := requests + 1;
        wire := wire + [Post(url, line, reply)];
        posts := posts + [reply];
        i := i + 1;
        if !reply.Down? {
          return;
        }
      }
    }

    /** `establish`: fetch with transport retries; a document that passes replaces the cache. */
    method Establish() returns (fetch: FetchReply, ghost gets: seq<FetchReply>)
      modifies this`requests, this`wire, this`cache
      ensures GetTries(gets, settings.transportRetries) && fetch == gets[|gets| - 1]
      ensures wire == old(wire) + GetWire(gets)
      ensures cache == if fetch.Fetched? then Some(fetch.est) else old(cache)
    {
      gets := [];
      var i := 0;
      fetch := FetchDown;
      while i < settings.transportRetries + 1
        invariant 0 <= i <= settings.transportRetries + 1 && |gets| == i
        invariant forall j :: 0 <= j < i ==> gets[j].FetchDown?
        invariant fetch.FetchDown? && cache == old(cache)
        invariant wire == old(wire) + GetWire(gets)
      {
        fetch := fetches(requests);
        requests := requests + 1;
        wire := wire + [Get(fetch)];
        gets := gets + [fetch];
        i := i + 1;
        if !fetch.FetchDown? {
          if fetch.Fetched? {
            cache := Some(fetch.est);
          }
          return;
        }
      }
    }

    /** `_ensure_established`: the cached document, or a fetched one. */
    method EnsureEstablished() returns (fetch: FetchReply, ghost gets: seq<FetchReply>)
      modifies this`requests, this`wire, this`cache
      ensures old(cache).Some? ==> fetch == Fetched(old(cache).value) && gets == [] && cache == old(cache)
      ensures old(cache).None? ==> GetTries(gets, settings.transportRetries) && fetch == gets[|gets| - 1]
      ensures fetch.Fetched? ==> cache == Some(fetch.est)
      ensures !fetch.Fetched? ==> cache == old(cache)
      ensures wire == old(wire) + GetWire(gets)
    {
      if cache.Some? {
        gets := [];
        return Fetched(cache.value), gets;
      }
      fetch, gets := Establish();
    }

    /** The candidate list of a resolver, with fresh random draws. */
    method Candidates(est: Establishment, resolver: Resolver) returns (cands: seq<Route>)
      modifies this`drawn
      ensures ValidCandidates(settings, est, resolver, cands)
    {
      match resolver
      case WriteTo(id) =>
        cands := [WriteRoute(settings.crc, est, id)];
      case ReadFrom(id, p) =>
        var all := ReadCandidates(settings.crc, est, id, draws, drawn);
        drawn := drawn + |all|;
        cands := [p] + Without(all, p);
      case ReadAny(id) =>
        cands := ReadCandidates(settings.crc, est, id, draws, drawn);
        drawn := drawn + |cands|;
      case SearchIn(slot) =>
        var r := SearchRoute(est, slot, draws(drawn));
        drawn := drawn + 1;
        cands := [r];
    }

    /** One turn of the bounce loop, None when no candidate is left. */
    method Bounce(est: Establishment, resolver: Resolver, line: string, tried: set<string>)
      returns (url: string, reply: Reply, fetch: FetchReply, ghost h: Hop)
      modifies this
      ensures url == "" ==> Stuck(settings, resolver, est, tried) && wire == old(wire) && cache == old(cache)
      ensures url != "" ==>
                && GoodHop(settings, resolver, est, tried, h) && h.url == url && h.Reply() == reply
                && wire == old(wire) + HopWire(line, h)
                && (h.Wrong() ==> fetch == h.gets[|h.gets| - 1] && cache == if fetch.Fetched? then Some(fetch.est) else old(cache))
                && (!h.Wrong() ==> cache == old(cache))
    {
      var cands := Candidates(est, resolver);
      url := Choose(settings.rewrite, cands, tried);
      reply, fetch, h := Down, FetchDown, Hop(est, cands, url, [], []);
      if url == "" {
        return;
      }
      ghost var posts;
      reply, posts := PostCommand(url, line);
      h := h.(posts := posts);
      if reply == Refused(WrongMachine) {
        ghost var gets;
        fetch, gets := Establish();
        h := h.(gets := gets);
      }
      assert wire == old(wire) + (PostWire(url, line, posts) + GetWire(h.gets));
    }

    /** `_execute_routed`. */
    method ExecuteRouted(line: string, resolver: Resolver)
      returns (outcome: Outcome, ghost first: seq<FetchReply>, ghost hops: seq<Hop>)
      modifies this
      ensures Routed(settings, resolver, old(cache), first, hops, outcome)
      ensures wire == old(wire) + (GetWire(first) + HopsWire(line, hops))
      ensures cache == CacheAfter(old(cache), first, hops)
    {
      hide RoutedFrom, GetTries, GetWire;
      hops := [];
      var fetch;
      fetch, first := EnsureEstablished();
      if !fetch.Fetched? {
        assert HopsWire(line, hops) == [] && GetWire(first) + [] == GetWire(first);
        return Raised(FetchProblem(fetch)), first, hops;
      }
      hide HopsWire;
      outcome, hops := RunLoop(line, resolver, fetch.est);
      assert (old(wire) + GetWire(first)) + HopsWire(line, hops) == old(wire) + (GetWire(first) + HopsWire(line, hops));
    }

    method RunLoop(line: string, resolver: Resolver, start: Establishment)
      returns (outcome: Outcome, ghost hops: seq<Hop>)
      requires cache == Some(start)
      modifies this
      ensures RoutedFrom(settings, resolver, start, hops, outcome)
      ensures wire == old(wire) + HopsWire(line, hops)
      ensures cache == Some(Latest(start, hops))
    {
      hide GoodHops, HopsWire, HopWire, Stuck, Choose, ValidCandidates;
      NoHops(settings, resolver, start, line);
      var est := start;
      var tried: set<string> := {};
      hops := [];
      var attempt := 0;
      assert old(wire) + [] == old(wire);
      while attempt < settings.wrongMachineRetries + 1
        invariant 0 <= attempt <= settings.wrongMachineRetries + 1 && |hops| == attempt
        invariant GoodHops(settings, resolver, start, hops)
        invariant forall i :: 0 <= i < |hops| ==> hops[i].Bounced()
        invariant tried == Urls(hops) && est == Latest(start, hops) && cache == Some(est)
        invariant wire == old(wire) + HopsWire(line, hops)
      {
        var url, reply, fetch;
        ghost var h;
        url, reply, fetch, h := Bounce(est, resolver, line, tried);
        if url == "" {
          break;
        }
        AppendWire(line, hops, h);
        assert wire == old(wire) + HopsWire(line, hops + [h]);
        if reply != Refused(WrongMachine) {
          outcome := match reply case Ok(body) => Answer(body) case Refused(code) => Raised(App(code)) case Down => Raised(Transport);
          EndRun(settings, resolver, start, hops, h);
          return outcome, hops + [h];
        }
        tried := tried + {url};
        if !fetch.Fetched? {
          outcome := Raised(FetchProblem(fetch));
          EndRun(settings, resolver, start, hops, h);
          return outcome, hops + [h];
        }
        AppendHop(settings, resolver, start, hops, h);
        hops := hops + [h];
        est := fetch.est;
        attempt := attempt + 1;
      }
      outcome := Raised(App(WrongMachine));
    }

    /** `read`: a complete run of the policy, and nothing else on the wire. The last statement of
        the source is never reached: the candidate list is never empty. */
    method Read(id: string, line: string) returns (outcome: Outcome, ghost reading: Reading)
      modifies this
      ensures WholeRead(settings, policy, id, old(cache), reading) && outcome == reading.outcome
      ensures wire == old(wire) + ReadWire(line, reading)
      ensures cache == ReadCache(old(cache), reading)
    {
      hide ReadRun, GetTries, GetWire, HopsWire;
      var fetch;
      ghost var first;
      fetch, first := EnsureEstablished();
      if !fetch.Fetched? {
        outcome := Raised(FetchProblem(fetch));
        reading := Reading(first, [], [], outcome);
        assert GetWire(first) + [] == GetWire(first);
        return;
      }
      var cands := ReadCandidates(settings.crc, fetch.est, id, draws, drawn);
      drawn := drawn + |cands|;
      ghost var attempts;
      outcome, attempts := ReadEach(id, line, fetch.est, cands);
      reading := Reading(first, cands, attempts, outcome);
      hide AttemptsWire;
      assert (old(wire) + GetWire(first)) + AttemptsWire(line, attempts) == old(wire) + ReadWire(line, reading);
    }

    /** One routed execution of a read, from the cached document. */
    method Ask(line: string, resolver: Resolver, ghost est: Establishment, ghost before: seq<Attempt>)
      returns (outcome: Outcome, ghost after: seq<Attempt>)
      requires Chained(settings, est, before) && cache == Some(LeftBy(est, before))
      modifies this
      ensures Chained(settings, est, after) && cache == Some(LeftBy(est, after))
      ensures |after| == |before| + 1 && after[..|before|] == before
      ensures after[|before|].resolver == resolver && after[|before|].outcome == outcome
      ensures forall w :: old(wire) == w + AttemptsWire(line, before) ==> wire == w + AttemptsWire(line, after)
    {
      hide Chained, LeftBy, AttemptsWire, HopsWire, RoutedFrom, Latest;
      ghost var first, hops;
      outcome, first, hops := ExecuteRouted(line, resolver);
      assert GetWire(first) + HopsWire(line, hops) == HopsWire(line, hops);
      ghost var a := Attempt(resolver, LeftBy(est, before), hops, outcome);
      AppendAttempt(settings, line, est, before, a);
      after := before + [a];
      forall w | old(wire) == w + AttemptsWire(line, before) ensures wire == w + AttemptsWire(line, after) {
        assert (w + AttemptsWire(line, before)) + HopsWire(line, hops) == w + (AttemptsWire(line, before) + HopsWire(line, hops));
      }
    }

    method ReadEach(id: string, line: string, ghost est: Establishment, cands: seq<Route>)
      returns (outcome: Outcome, ghost attempts: seq<Attempt>)
      requires IsReadCandidates(settings.crc, est, id, cands) && cache == Some(est)
      modifies this
      ensures ReadRun(settings, policy, id, est, cands, attempts, outcome)
      ensures wire == old(wire) + AttemptsWire(line, attempts)
      ensures cache == Some(LeftBy(est, attempts))
    {
      NoAttempts(settings, line, est);
      hide IsReadCandidates, Chained, LeftBy, AttemptsWire, IsStale;
      ReadCandidatesNonEmpty(settings.crc, est, id, cands);
      attempts := [];
      var lastErr: Option<Outcome> := None;
      var i := 0;
      assert old(wire) + [] == old(wire);
      while i < |cands|
        invariant 0 <= i <= |cands| && |attempts| == i
        invariant Chained(settings, est, attempts) && cache == Some(LeftBy(est, attempts))
        invariant forall j :: 0 <= j < i ==> attempts[j].resolver == ReadFrom(id, cands[j]) && IsStale(attempts[j].outcome)
        invariant lastErr == if i == 0 then None else Some(attempts[i - 1].outcome)
        invariant i > 0 ==> !policy.Surface?
        invariant wire == old(wire) + AttemptsWire(line, attempts)
      {
        ghost var before := attempts;
        outcome, attempts := Ask(line, ReadFrom(id, cands[i]), est, before);
        assert forall j :: 0 <= j < i ==> attempts[j] == attempts[..i][j] == before[j];
        if !IsStale(outcome) {
          return;
        }
        lastErr := Some(outcome);
        if policy.Surface? {
          return;
        }
        i := i + 1;
      }
      if policy.PreferSot? && lastErr.Some? {
        ghost var before := attempts;
        outcome, attempts := Ask(line, WriteTo(id), est, before);
        assert forall j :: 0 <= j < i ==> attempts[j] == attempts[..i][j] == before[j];
        return;
      }
      if lastErr.Some? {
        return lastErr.value, attempts;
      }
      assert false;
    }

    /** `_execute_create`: the create command is sent by one routed execution only; a doubtful
        outcome is settled by exactly one complete read, from the document that execution left,
        and never by creating again. */
    method ExecuteCreate(id: string, line: string, readLine: string, hasDocument: string -> bool)
      returns (created: Created, ghost first: seq<FetchReply>, ghost hops: seq<Hop>, ghost write: Outcome,
               ghost reading: Option<Reading>)
      modifies this
      ensures Routed(settings, WriteTo(id), old(cache), first, hops, write)
      ensures reading.Some? <==> Doubtful(write, verifyCreates)
      ensures reading.Some? ==> WholeRead(settings, policy, id, CacheAfter(old(cache), first, hops), reading.value)
      ensures wire == old(wire) + (GetWire(first) + HopsWire(line, hops))
                      + (if reading.Some? then ReadWire(readLine, reading.value) else [])
      ensures created == CreateResult(write, if reading.Some? then Some(reading.value.outcome) else None, hasDocument)
    {
      hide Routed, WholeRead, HopsWire, GetWire, ReadWire;
      var outcome;
      outcome, first, hops := ExecuteRouted(line, WriteTo(id));
      write, reading := outcome, None;
      assert wire + [] == wire;
      if outcome.Answer? {
        return Stored(outcome.body), first, hops, write, reading;
      }
      if outcome != Raised(App(DocumentExists)) && (outcome != Raised(Transport) || !verifyCreates) {
        return NotCreated(outcome.problem), first, hops, write, reading;
      }
      var found;
      ghost var r;
      found, r := Read(id, readLine);
      reading := Some(r);
      if found.Raised? {
        created := NotCreated(found.problem);
      } else if hasDocument(found.body) {
        created := Existing(found.body);
      } else {
        created := NotCreated(outcome.problem);
      }
    }
  }
}
