/** `patch_with_version_retry` against a document that other writers change at any time. */
module VersionRetry {
  import opened Wrappers
  import opened Value
  import opened Patch

  /** One version of the document, and who made it. */
  datatype Commit = Commit(version: string, content: JSON, ours: bool)

  /** A read result: a version and its content. */
  datatype Doc = Doc(version: string, content: JSON)

  /** A patch request: the version it names and its operations. */
  datatype Detail = Detail(version: string, ops: seq<PatchOp>)

  datatype Reply = Accepted(version: string) | Mismatch | Rejected | Lost

  datatype ReadReply = Found(doc: Doc) | NotRead

  /** How the whole call ends: as the last patch did, or at a read that failed. */
  datatype Ending = Ended(reply: Reply) | ReadFailed

  /** What the client asked the server for, and got. */
  datatype Event = Asked(found: ReadReply) | Sent(detail: Detail, reply: Reply)

  /** A read followed by the patch built from what it returned. */
  predicate OneTry(t: seq<Event>, build: Doc -> Detail) {
    && |t| == 2 && t[0].Asked? && t[0].found.Found?
    && t[1].Sent? && t[1].detail == build(t[0].found.doc)
  }

  /** The complete exchange of one call: a second read and patch exactly after a mismatch. */
  predicate Exchange(t: seq<Event>, build: Doc -> Detail, r: Ending) {
    if |t| < 2 then t == [Asked(NotRead)] && r == ReadFailed
    else
      && OneTry(t[..2], build)
      && if !t[1].reply.Mismatch? then |t| == 2 && r == Ended(t[1].reply)
         else if |t| < 4 then t[2..] == [Asked(NotRead)] && r == ReadFailed
         else OneTry(t[2..], build) && r == Ended(t[3].reply)
  }

  function PatchesIn(t: seq<Event>): nat {
    if t == [] then 0 else (if t[0].Sent? then 1 else 0) + PatchesIn(t[1..])
  }

  /** At most two patches; two only after a mismatch; none when the first read fails. */
  lemma {:induction false} AtMostTwoPatches(t: seq<Event>, build: Doc -> Detail, r: Ending)
    requires Exchange(t, build, r)
    ensures PatchesIn(t) <= 2 && |t| <= 4
    ensures PatchesIn(t) == 2 <==> |t| == 4 && t[1].reply.Mismatch?
    ensures PatchesIn(t) == 0 <==> t == [Asked(NotRead)]
  {
    assert PatchesIn([]) == 0;
    if |t| >= 2 {
      assert t[0] == t[..2][0] && t[1] == t[..2][1];
      assert PatchesIn(t) == 1 + PatchesIn(t[1..][1..]) && t[1..][1..] == t[2..];
      if |t| == 4 {
        var u := t[2..];
        assert PatchesIn(u) == 1 + PatchesIn(u[1..][1..]) && u[1..][1..] == [];
      }
    }
  }

  predicate Knows(history: seq<Commit>, version: string) {
    exists i :: 0 <= i < |history| && history[i].version == version
  }

  /** Versions are never reused. */
  predicate NoReuse(history: seq<Commit>) {
    forall i, j :: 0 <= i < j < |history| ==> history[i].version != history[j].version
  }

  function OursFrom(history: seq<Commit>, n: nat): nat
    requires n <= |history|
    decreases |history| - n
  {
    if n == |history| then 0 else (if history[n].ours then 1 else 0) + OursFrom(history, n + 1)
  }

  /** Commit i is our patch, applied to exactly the document state `doc` it was built from. */
  ghost predicate AppliedTo(history: seq<Commit>, i: nat, doc: Doc, build: Doc -> Detail) {
    && 0 < i < |history| && history[i].ours
    && history[i - 1].version == doc.version && history[i - 1].content == doc.content
    && ApplyPatch(doc.content, build(doc).ops, Rfc) == Success(history[i].content)
  }

  /** The server's document: `history` ends with the current version. Before every request others
      may write any number of versions; a read may answer with any version there ever was; a reply
      may be lost after the patch was applied or before. */
  class Document {
    var history: seq<Commit>
    var requests: nat
    ghost var trace: seq<Event>
    const others: nat -> seq<JSON>
    const lag: nat -> nat
    const fails: nat -> bool
    const lossBefore: nat -> bool
    const lossAfter: nat -> bool
    const newVersion: seq<Commit> -> string

    ghost predicate Valid()
      reads this
    {
      && history != [] && NoReuse(history)
      && forall h :: !Knows(h, newVersion(h))
    }

    method Commits(content: JSON, ours: bool) returns (version: string)
      requires Valid()
      modifies this`history
      ensures Valid() && history == old(history) + [Commit(version, content, ours)]
      ensures !Knows(old(history), version)
    {
      version := newVersion(history);
      assert !Knows(history, version);
      history := history + [Commit(version, content, ours)];
    }

    /** Everything the other writers do before the next request. */
    method OthersWrite()
      requires Valid()
      modifies this`history
      ensures Valid() && old(history) <= history
      ensures forall i :: |old(history)| <= i < |history| ==> !history[i].ours
    {
      var contents := others(requests);
      var i := 0;
      while i < |contents|
        invariant 0 <= i <= |contents| && Valid() && old(history) <= history
        invariant forall j :: |old(history)| <= j < |history| ==> !history[j].ours
      {
        var _ := Commits(contents[i], false);
        i := i + 1;
      }
    }

    /** A read: any earlier state, or a failure. */
    method Read() returns (r: ReadReply)
      requires Valid()
      modifies this`history, this`requests, this`trace
      ensures Valid() && old(history) <= history && trace == old(trace) + [Asked(r)]
      ensures forall i :: |old(history)| <= i < |history| ==> !history[i].ours
      ensures r.Found? ==> exists i :: 0 <= i < |history| && r.doc == Doc(history[i].version, history[i].content)
    {
      OthersWrite();
      var k := requests;
      requests := requests + 1;
      if fails(k) {
        trace := trace + [Asked(NotRead)];
        return NotRead;
      }
      var i := lag(k) % |history|;
      assert 0 <= i < |history|;
      r := Found(Doc(history[i].version, history[i].content));
      trace := trace + [Asked(r)];
    }

    /** A patch: accepted only when its version is the current one. The new commit, when there is
        one, is the last; `applied` says whether there is. */
    method Patch(detail: Detail) returns (r: Reply, ghost applied: bool)
      requires Valid()
      modifies this`history, this`requests, this`trace
      ensures Valid() && old(history) <= history && trace == old(trace) + [Sent(detail, r)]
      ensures forall i :: |old(history)| <= i < |history| - (if applied then 1 else 0) ==> !history[i].ours
      ensures applied ==>
                && |old(history)| < |history| && history[|history| - 1].ours
                && history[|history| - 2].version == detail.version
                && ApplyPatch(history[|history| - 2].content, detail.ops, Rfc) == Success(history[|history| - 1].content)
      ensures r.Accepted? ==> applied && r.version == history[|history| - 1].version
      ensures r.Mismatch? || r.Rejected? ==> !applied
    {
      r, applied := Judge(detail);
      trace := trace + [Sent(detail, r)];
    }

    /** What the server does with a patch. */
    method Judge(detail: Detail) returns (r: Reply, ghost applied: bool)
      requires Valid()
      modifies this`history, this`requests
      ensures Valid() && old(history) <= history
      ensures forall i :: |old(history)| <= i < |history| - (if applied then 1 else 0) ==> !history[i].ours
      ensures applied ==>
                && |old(history)| < |history| && history[|history| - 1].ours
                && history[|history| - 2].version == detail.version
                && ApplyPatch(history[|history| - 2].content, detail.ops, Rfc) == Success(history[|history| - 1].content)
      ensures r.Accepted? ==> applied && r.version == history[|history| - 1].version
      ensures r.Mismatch? || r.Rejected? ==> !applied
    {
      hide ApplyPatch;
      OthersWrite();
      var k := requests;
      requests := requests + 1;
      applied := false;
      if lossBefore(k) {
        return Lost, applied;
      }
      var current := history[|history| - 1];
      if detail.version != current.version {
        return Mismatch, applied;
      }
      var next := ApplyPatch(current.content, detail.ops, Rfc);
      if next.Failure? {
        return Rejected, applied;
      }
      var version := Commits(next.value, true);
      applied := true;
      if lossAfter(k) {
        return Lost, applied;
      }
      r := Accepted(version);
    }

    /** One read and the patch built from it, after a history in which none of ours is new. */
    method Attempt(build: Doc -> Detail, ghost start: nat) returns (r: Ending)
      requires Valid() && forall d :: build(d).version == d.version
      requires start <= |history| && forall i :: start <= i < |history| ==> !history[i].ours
      modifies this`history, this`requests, this`trace
      ensures Valid() && old(history) <= history && old(trace) <= trace
      ensures r.ReadFailed? ==> trace == old(trace) + [Asked(NotRead)]
      ensures r.Ended? ==> OneTry(trace[|old(trace)|..], build) && trace[|trace| - 1].reply == r.reply
      ensures r == Ended(Mismatch) || r.ReadFailed? ==> forall i :: start <= i < |history| ==> !history[i].ours
      ensures OursFrom(history, start) == 0 || (r.Ended? && r.reply.Accepted?) || r == Ended(Lost)
      ensures r.Ended? && OursFrom(history, start) > 0 ==>
                && OursFrom(history, start) == 1
                && AppliedTo(history, |history| - 1, trace[|trace| - 2].found.doc, build)
      ensures r.Ended? && r.reply.Accepted? ==>
                OursFrom(history, start) == 1 && r.reply.version == history[|history| - 1].version
    {
      hide ApplyPatch, AppliedTo;
      var current := Read();
      if current.NotRead? {
        NoneOfOurs(history, start);
        return ReadFailed;
      }
      ghost var applied;
      var reply;
      reply, applied := Patch(build(current.doc));
      CountOurs(history, start, applied);
      SameState(history, current.doc, build, applied);
      r := Ended(reply);
    }

    /** `patch_with_version_retry`, transport retries off. */
    method PatchWithVersionRetry(build: Doc -> Detail) returns (r: Ending)
      requires Valid() && forall d :: build(d).version == d.version
      modifies this`history, this`requests, this`trace
      ensures Valid() && old(history) <= history && old(trace) <= trace
      ensures Exchange(trace[|old(trace)|..], build, r)
      ensures r.Ended? && r.reply.Accepted? ==>
                && OursFrom(history, |old(history)|) == 1
                && AppliedTo(history, |history| - 1, trace[|trace| - 2].found.doc, build)
                && r.reply.version == history[|history| - 1].version
      ensures r == Ended(Lost) && OursFrom(history, |old(history)|) > 0 ==>
                && OursFrom(history, |old(history)|) == 1
                && AppliedTo(history, |history| - 1, trace[|trace| - 2].found.doc, build)
      ensures r == Ended(Mismatch) || r == Ended(Rejected) || r == ReadFailed ==> OursFrom(history, |old(history)|) == 0
    {
      hide AppliedTo, OursFrom;
      ghost var start := |history|;
      r := Attempt(build, start);
      ghost var t := trace[|old(trace)|..];
      if r != Ended(Mismatch) {
        assert r.Ended? ==> t[..2] == t;
        return;
      }
      assert |t| == 2;
      r := Attempt(build, start);
      ghost var u := trace[|old(trace)|..];
      assert u[..2] == t && u[2..] == trace[|old(trace)| + 2..];
    }
  }

  lemma {:induction false} NoneOfOurs(history: seq<Commit>, n: nat)
    requires n <= |history| && forall i :: n <= i < |history| ==> !history[i].ours
    ensures OursFrom(history, n) == 0
    decreases |history| - n
  {
    if n < |history| { NoneOfOurs(history, n + 1); }
  }

  lemma {:induction false} CountOurs(history: seq<Commit>, n: nat, last: bool)
    requires n <= |history| && (last ==> n < |history| && history[|history| - 1].ours)
    requires forall i :: n <= i < |history| - (if last then 1 else 0) ==> !history[i].ours
    ensures OursFrom(history, n) == if last then 1 else 0
    decreases |history| - n
  {
    if n < |history| {
      if last && n == |history| - 1 {
        assert OursFrom(history, n + 1) == 0;
      } else {
        CountOurs(history, n + 1, last);
      }
    }
  }

  /** A version names one state: a patch accepted at the version that was read was applied to the
      content that was read, however stale the read was. */
  lemma {:induction false} SameState(history: seq<Commit>, doc: Doc, build: Doc -> Detail, applied: bool)
    requires NoReuse(history) && build(doc).version == doc.version
    requires exists i :: 0 <= i < |history| && doc == Doc(history[i].version, history[i].content)
    requires applied ==>
               && 1 < |history| && history[|history| - 1].ours && history[|history| - 2].version == doc.version
               && ApplyPatch(history[|history| - 2].content, build(doc).ops, Rfc) == Success(history[|history| - 1].content)
    ensures applied ==> AppliedTo(history, |history| - 1, doc, build)
  {
    hide ApplyPatch;
    if applied {
      var i :| 0 <= i < |history| && doc == Doc(history[i].version, history[i].content);
      assert i == |history| - 2;
    }
  }
}
