/** Runs of a document read under a stale-read policy, and of a create with its verification. */
module Reads {
  import opened Wrappers
  import opened Routing
  import opened Runs

  datatype Policy = Surface | Failover | PreferSot

  /** One routed execution inside a larger operation, from the document then cached. */
  datatype Attempt = Attempt(resolver: Resolver, est: Establishment, hops: seq<Hop>, outcome: Outcome)

  predicate IsStale(o: Outcome) {
    o.Raised? && o.problem.App? && (o.problem.code.ReadMemberStale? || o.problem.code.DocumentStale?)
  }

  ghost predicate RoutedAttempt(s: Settings, a: Attempt) {
    RoutedFrom(s, a.resolver, a.est, a.hops, a.outcome)
  }

  /** The document that these executions leave in the cache. */
  function LeftBy(est: Establishment, attempts: seq<Attempt>): Establishment {
    if attempts == [] then est
    else Latest(attempts[|attempts| - 1].est, attempts[|attempts| - 1].hops)
  }

  /** Executions one after the other, each from the document that the one before left. */
  ghost predicate Chained(s: Settings, est: Establishment, attempts: seq<Attempt>) {
    forall i :: 0 <= i < |attempts| ==> RoutedAttempt(s, attempts[i]) && attempts[i].est == LeftBy(est, attempts[..i])
  }

  /** All that these executions put on the wire. */
  function AttemptsWire(line: string, attempts: seq<Attempt>): seq<Wire> {
    if attempts == [] then []
    else AttemptsWire(line, attempts[..|attempts| - 1]) + HopsWire(line, attempts[|attempts| - 1].hops)
  }

  lemma {:induction false} NoAttempts(s: Settings, line: string, est: Establishment)
    ensures Chained(s, est, []) && LeftBy(est, []) == est && AttemptsWire(line, []) == []
  {
  }

  lemma {:induction false} AppendAttempt(s: Settings, line: string, est: Establishment, attempts: seq<Attempt>, a: Attempt)
    requires Chained(s, est, attempts) && RoutedAttempt(s, a) && a.est == LeftBy(est, attempts)
    ensures Chained(s, est, attempts + [a]) && LeftBy(est, attempts + [a]) == Latest(a.est, a.hops)
    ensures AttemptsWire(line, attempts + [a]) == AttemptsWire(line, attempts) + HopsWire(line, a.hops)
  {
    hide RoutedAttempt, HopsWire;
    var more := attempts + [a];
    assert more[..|attempts|] == attempts && more[|attempts|] == a;
    forall i | 0 <= i < |more| ensures RoutedAttempt(s, more[i]) && more[i].est == LeftBy(est, more[..i]) {
      if i < |attempts| {
        assert more[..i] == attempts[..i];
      }
    }
  }

  /** How a read ends: under SURFACE with the first execution; otherwise with the first outcome
      that is not stale, or after all candidates; PREFER_SOT then adds one execution against the
      source-of-truth member. */
  ghost predicate ReadEnd(policy: Policy, id: string, primaries: seq<Route>, attempts: seq<Attempt>, outcome: Outcome) {
    && attempts != []
    && outcome == attempts[|attempts| - 1].outcome
    && match policy
       case Surface => |attempts| == 1
       case Failover => |attempts| <= |primaries| && (IsStale(outcome) ==> |attempts| == |primaries|)
       case PreferSot =>
         if |attempts| <= |primaries| then !IsStale(outcome)
         else |attempts| == |primaries| + 1 && attempts[|primaries|].resolver == WriteTo(id)
  }

  /** A complete run of `read` after its first establishment. */
  ghost predicate ReadRun(s: Settings, policy: Policy, id: string, est: Establishment,
                          primaries: seq<Route>, attempts: seq<Attempt>, outcome: Outcome)
  {
    && IsReadCandidates(s.crc, est, id, primaries)
    && Chained(s, est, attempts)
    && (forall i :: 0 <= i < |attempts| && i < |primaries| ==> attempts[i].resolver == ReadFrom(id, primaries[i]))
    && (forall i :: 0 <= i < |attempts| - 1 ==> IsStale(attempts[i].outcome))
    && ReadEnd(policy, id, primaries, attempts, outcome)
  }

  /** A read: the first establishment fetch, the candidates it asked, and how it ended. */
  datatype Reading = Reading(first: seq<FetchReply>, primaries: seq<Route>, attempts: seq<Attempt>, outcome: Outcome)

  /** A complete run of `read`: an establishment fetch only when nothing is cached. */
  ghost predicate WholeRead(s: Settings, policy: Policy, id: string, cached: Option<Establishment>, r: Reading) {
    if cached.Some? then r.first == [] && ReadRun(s, policy, id, cached.value, r.primaries, r.attempts, r.outcome)
    else
      && GetTries(r.first, s.transportRetries)
      && var last := r.first[|r.first| - 1];
         if last.Fetched? then ReadRun(s, policy, id, last.est, r.primaries, r.attempts, r.outcome)
         else r.primaries == [] && r.attempts == [] && r.outcome == Raised(FetchProblem(last))
  }

  /** What a read leaves in the cache. */
  function ReadCache(cached: Option<Establishment>, r: Reading): Option<Establishment> {
    if cached.Some? then Some(LeftBy(cached.value, r.attempts))
    else if r.first != [] && r.first[|r.first| - 1].Fetched? then Some(LeftBy(r.first[|r.first| - 1].est, r.attempts))
    else None
  }

  /** All that a read puts on the wire. */
  function ReadWire(line: string, r: Reading): seq<Wire> {
    GetWire(r.first) + AttemptsWire(line, r.attempts)
  }

  /** What a create reports: stored by this command, found to exist, or a failure. */
  datatype Created = Stored(body: string) | Existing(body: string) | NotCreated(problem: Problem)

  /** A create whose answer is in doubt is followed by one read. */
  predicate Doubtful(write: Outcome, verify: bool) {
    write == Raised(App(DocumentExists)) || (write == Raised(Transport) && verify)
  }

  /** The result of a create, from its own outcome and that of the read that settled it, if any. */
  function CreateResult(write: Outcome, read: Option<Outcome>, hasDocument: string -> bool): Created {
    if write.Answer? then Stored(write.body)
    else if read.None? then NotCreated(write.problem)
    else if read.value.Raised? then NotCreated(read.value.problem)
    else if hasDocument(read.value.body) then Existing(read.value.body)
    else NotCreated(write.problem)
  }

  /** What a read takes for staleness: these two codes and nothing else. */
  lemma {:induction false} StaleCodes(o: Outcome)
    ensures IsStale(o) <==> o == Raised(App(ReadMemberStale)) || o == Raised(App(DocumentStale))
  {
  }

  /** How a create ends: as its own answer; by `documentExists`, or a lost reply when creates are
      verified, through the read that follows, which finds the document, finds none and leaves the
      create's own error, or fails with its own; and with its own error otherwise. */
  lemma {:induction false} CreateMeaning(write: Outcome, verify: bool, read: Option<Outcome>, hasDocument: string -> bool)
    requires read.Some? <==> Doubtful(write, verify)
    ensures read.Some? <==> write == Raised(App(DocumentExists)) || (write == Raised(Transport) && verify)
    ensures var created := CreateResult(write, read, hasDocument);
            && (forall body :: created == Stored(body) <==> write == Answer(body))
            && (forall body :: created == Existing(body) <==>
                  && (write == Raised(App(DocumentExists)) || (write == Raised(Transport) && verify))
                  && read == Some(Answer(body)) && hasDocument(body))
            && (forall problem :: created == NotCreated(problem) ==>
                  read == Some(Raised(problem)) || (write == Raised(problem) && (read.None? || read.value.Answer?)))
  {
  }

  predicate AllStale(attempts: seq<Attempt>, n: nat) {
    n <= |attempts| && forall i :: 0 <= i < n ==> IsStale(attempts[i].outcome)
  }

  /** SURFACE raises the first execution's stale error. FAILOVER reports a stale error exactly when
      every candidate of the initial shuffle was the primary of an execution that ended stale.
      PREFER_SOT adds its source-of-truth execution exactly then, and reports a stale error only
      from there. */
  lemma {:induction false} StaleOutcome(s: Settings, policy: Policy, id: string, est: Establishment,
                                        primaries: seq<Route>, attempts: seq<Attempt>, outcome: Outcome)
    requires ReadRun(s, policy, id, est, primaries, attempts, outcome)
    ensures forall i :: 0 <= i < |attempts| && i < |primaries| ==> attempts[i].resolver == ReadFrom(id, primaries[i])
    ensures policy.Surface? ==> |attempts| == 1 <= |primaries| && outcome == attempts[0].outcome
    ensures policy.Failover? ==>
              |attempts| <= |primaries| && (IsStale(outcome) <==> AllStale(attempts, |primaries|))
    ensures policy.PreferSot? ==>
              && (|attempts| == |primaries| + 1 <==> AllStale(attempts, |primaries|))
              && (|attempts| == |primaries| + 1 ==> attempts[|primaries|].resolver == WriteTo(id))
              && (IsStale(outcome) ==> |attempts| == |primaries| + 1)
  {
    hide IsReadCandidates, Chained, IsStale;
    ReadCandidatesNonEmpty(s.crc, est, id, primaries);
    assert attempts[|attempts| - 1].outcome == outcome;
  }

  /** The primary's URL, when usable, is the first one asked. */
  lemma {:induction false} PrimaryFirst(s: Settings, a: Attempt, id: string, p: Route)
    requires RoutedAttempt(s, a) && a.resolver == ReadFrom(id, p) && Rewrite(s.rewrite, p) != ""
    ensures a.hops != [] && a.hops[0].url == Rewrite(s.rewrite, p)
  {
    hide HopOutcome;
    PrimaryNotStuck(s, id, p, a.est);
    hide Stuck;
    assert Urls([]) == {} && Latest(a.est, []) == a.est;
    assert a.hops != [];
    assert a.hops[..0] == [];
    assert GoodHop(s, a.resolver, Latest(a.est, a.hops[..0]), Urls(a.hops[..0]), a.hops[0]);
  }

  lemma {:induction false} PrimaryNotStuck(s: Settings, id: string, p: Route, est: Establishment)
    requires Rewrite(s.rewrite, p) != ""
    ensures !Stuck(s, ReadFrom(id, p), est, {})
  {
    forall cands | ValidCandidates(s, est, ReadFrom(id, p), cands) ensures Choose(s.rewrite, cands, {}) != "" {
      assert cands[0] == p;
    }
  }

  // ----- how much is sent

  /** The POSTs among the messages, transport retries included. */
  function PostCount(ws: seq<Wire>): nat {
    if ws == [] then 0 else PostCount(ws[..|ws| - 1]) + if ws[|ws| - 1].Post? then 1 else 0
  }

  lemma {:induction false} PostCountAppend(a: seq<Wire>, b: seq<Wire>)
    ensures PostCount(a + b) == PostCount(a) + PostCount(b)
    decreases |b|
  {
    if b == [] {
      assert a + b == a;
    } else {
      assert (a + b)[..|a + b| - 1] == a + b[..|b| - 1];
      PostCountAppend(a, b[..|b| - 1]);
    }
  }

  lemma {:induction false} PostCountPosts(url: string, line: string, posts: seq<Reply>)
    ensures PostCount(PostWire(url, line, posts)) == |posts|
  {
    if posts != [] {
      assert PostWire(url, line, posts)[..|posts| - 1] == PostWire(url, line, posts[..|posts| - 1]);
      PostCountPosts(url, line, posts[..|posts| - 1]);
    }
  }

  lemma {:induction false} PostCountGets(gets: seq<FetchReply>)
    ensures PostCount(GetWire(gets)) == 0
  {
    if gets != [] {
      assert GetWire(gets)[..|gets| - 1] == GetWire(gets[..|gets| - 1]);
      PostCountGets(gets[..|gets| - 1]);
    }
  }

  lemma {:induction false} PostCountHops(line: string, hops: seq<Hop>, n: nat)
    requires forall i :: 0 <= i < |hops| ==> |hops[i].posts| <= n
    ensures PostCount(HopsWire(line, hops)) <= |hops| * n
  {
    hide PostCount, PostWire, GetWire;
    if hops == [] {
      NoPosts();
    } else {
      var before, h := hops[..|hops| - 1], hops[|hops| - 1];
      PostCountHops(line, before, n);
      HopPosts(line, h);
      PostCountAppend(HopsWire(line, before), HopWire(line, h));
      OneMore(|before|, n);
    }
  }

  lemma {:induction false} HopPosts(line: string, h: Hop)
    ensures PostCount(HopWire(line, h)) == |h.posts|
  {
    PostCountAppend(PostWire(h.url, line, h.posts), GetWire(h.gets));
    PostCountPosts(h.url, line, h.posts);
    PostCountGets(h.gets);
  }

  lemma {:induction false} OneMore(n: nat, m: nat)
    ensures (n + 1) * m == n * m + m
  {
  }

  /** One execution posts at most (wm_retries + 1) * (transport_retries + 1) times. */
  lemma {:induction false} RunPostBound(s: Settings, line: string, resolver: Resolver, est: Establishment, hops: seq<Hop>, outcome: Outcome)
    requires RoutedFrom(s, resolver, est, hops, outcome)
    ensures PostCount(HopsWire(line, hops)) <= (s.wrongMachineRetries + 1) * (s.transportRetries + 1)
  {
    hide PostCount, HopsWire, HopOutcome, Stuck;
    forall i | 0 <= i < |hops| ensures |hops[i].posts| <= s.transportRetries + 1 {
      assert GoodHop(s, resolver, Latest(est, hops[..i]), Urls(hops[..i]), hops[i]);
    }
    PostCountHops(line, hops, s.transportRetries + 1);
    MoreTimes(|hops|, s.wrongMachineRetries + 1, s.transportRetries + 1);
  }

  lemma {:induction false} MoreTimes(n: nat, k: nat, m: nat)
    requires n <= k
    ensures n * m <= k * m
  {
    assert k * m == n * m + (k - n) * m;
  }

  lemma {:induction false} AttemptsPostBound(s: Settings, line: string, attempts: seq<Attempt>, m: nat)
    requires m == (s.wrongMachineRetries + 1) * (s.transportRetries + 1)
    requires forall i :: 0 <= i < |attempts| ==> RoutedAttempt(s, attempts[i])
    ensures PostCount(AttemptsWire(line, attempts)) <= |attempts| * m
  {
    hide PostCount, HopsWire, RoutedFrom;
    if attempts == [] {
      NoPosts();
    } else {
      var before, a := attempts[..|attempts| - 1], attempts[|attempts| - 1];
      AttemptsPostBound(s, line, before, m);
      RunPostBound(s, line, a.resolver, a.est, a.hops, a.outcome);
      PostCountAppend(AttemptsWire(line, before), HopsWire(line, a.hops));
      OneMore(|before|, m);
    }
  }

  lemma {:induction false} NoPosts()
    ensures PostCount([]) == 0
  {
  }

  /** What a read over n candidates sends: at most (n + 1) * (wm_retries + 1) * (transport_retries + 1)
      POSTs, for one execution each and one more under PREFER_SOT; all of the read command. */
  lemma {:induction false} ReadPostBound(s: Settings, policy: Policy, id: string, cached: Option<Establishment>, r: Reading, line: string)
    requires WholeRead(s, policy, id, cached, r)
    ensures PostCount(ReadWire(line, r))
            <= (|r.primaries| + if policy.PreferSot? then 1 else 0) * ((s.wrongMachineRetries + 1) * (s.transportRetries + 1))
    ensures CarriesOnly(line, ReadWire(line, r))
  {
    hide WholeRead, ReadWire, RoutedAttempt;
    var n := |r.primaries| + if policy.PreferSot? then 1 else 0;
    AskedAtMost(s, policy, id, cached, r);
    ReadCarries(line, r);
    ReadPosts(line, r);
    SentAtMost(s, line, r.attempts, n);
  }

  lemma {:induction false} SentAtMost(s: Settings, line: string, attempts: seq<Attempt>, n: nat)
    requires |attempts| <= n && forall i :: 0 <= i < |attempts| ==> RoutedAttempt(s, attempts[i])
    ensures PostCount(AttemptsWire(line, attempts)) <= n * ((s.wrongMachineRetries + 1) * (s.transportRetries + 1))
  {
    hide RoutedAttempt, PostCount, AttemptsWire;
    var m: nat := (s.wrongMachineRetries + 1) * (s.transportRetries + 1);
    AttemptsPostBound(s, line, attempts, m);
    MoreTimes(|attempts|, n, m);
  }

  lemma {:induction false} ReadPosts(line: string, r: Reading)
    ensures PostCount(ReadWire(line, r)) == PostCount(AttemptsWire(line, r.attempts))
  {
    PostCountGets(r.first);
    PostCountAppend(GetWire(r.first), AttemptsWire(line, r.attempts));
  }

  lemma {:induction false} AskedAtMost(s: Settings, policy: Policy, id: string, cached: Option<Establishment>, r: Reading)
    requires WholeRead(s, policy, id, cached, r)
    ensures |r.attempts| <= |r.primaries| + if policy.PreferSot? then 1 else 0
    ensures forall i :: 0 <= i < |r.attempts| ==> RoutedAttempt(s, r.attempts[i])
  {
    hide IsReadCandidates, RoutedAttempt, IsStale;
    if r.attempts != [] {
      var est := if cached.Some? then cached.value else r.first[|r.first| - 1].est;
      ReadCandidatesNonEmpty(s.crc, est, id, r.primaries);
    }
  }

  lemma {:induction false} AttemptsCarry(line: string, attempts: seq<Attempt>)
    ensures CarriesOnly(line, AttemptsWire(line, attempts))
  {
    if attempts != [] {
      AttemptsCarry(line, attempts[..|attempts| - 1]);
      SameLine(line, attempts[|attempts| - 1].hops);
    }
  }

  lemma {:induction false} ReadCarries(line: string, r: Reading)
    ensures CarriesOnly(line, ReadWire(line, r))
  {
    AttemptsCarry(line, r.attempts);
    RunCarries(line, r.first, []);
  }
}
