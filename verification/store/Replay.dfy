/** The materialised rows are a function of the log. */
module Replay {
  import opened Model
  import opened Tables
  import opened Pipeline
  import opened Log
  import opened Conflicts
  import Identity
  import Resolver

  /** An event that lost against the canonical event of its book. */
  datatype Rejection = Rejection(bookId: int, eventA: int, eventB: int, reason: JumpReason)

  datatype Derived = Derived(canon: map<int, Progress>, rejected: seq<Rejection>)

  /** Accept unless suspicious. */
  function Step(d: Derived, e: EventRow): Derived {
    if e.bookId in d.canon && DetectSuspiciousJump(d.canon[e.bookId], e).Some?
    then d.(rejected := d.rejected +
            [Rejection(e.bookId, d.canon[e.bookId].eventId, e.id, DetectSuspiciousJump(d.canon[e.bookId], e).value)])
    else d.(canon := d.canon[e.bookId := FromEvent(e)])
  }

  /** Left-to-right replay of the whole log. */
  function ReplayLog(events: seq<EventRow>): Derived {
    if events == [] then Derived(map[], []) else Step(ReplayLog(events[..|events| - 1]), events[|events| - 1])
  }

  function Core(c: Conflict): Rejection {
    Rejection(c.bookId, c.eventA, c.eventB, c.reason)
  }

  function Cores(cs: seq<Conflict>): seq<Rejection> {
    seq(|cs|, i requires 0 <= i < |cs| => Core(cs[i]))
  }

  /** What the tables say, without times, ids, pins and resolution. */
  function Abstract(t: Tables): Derived {
    Derived(map b | b in t.canonical :: t.canonical[b].progress, Cores(t.conflicts))
  }

  predicate PinFree(t: Tables) {
    forall b :: b in t.canonical ==> !t.canonical[b].pinned
  }

  /** Canonical rows and conflicts are exactly what the log replays to. */
  predicate Replays(t: Tables) {
    Abstract(t) == ReplayLog(t.events)
  }

  lemma CommitReplays(t: Tables, norm: Resolver.Normalizer, raw: AdapterEvent, received: int, updated: int)
    requires Identity.IdentityOK(t) && LogOK(t) && PinFree(t) && Replays(t)
    ensures var u := Commit(t, norm, raw, received, updated); PinFree(u) && Replays(u)
  {
    hide Identity.IdentityOK, LogOK, Commit, EventFor, Replays, PinFree, Jump, Pinned;
    CanonicalAfter(t, norm, raw, received, updated);
    ReplayStep(t, Commit(t, norm, raw, received, updated), EventFor(t, norm, raw, received), updated);
  }

  /** Rows that change as the pipeline changes them for event e follow the replay one step. */
  lemma ReplayStep(t: Tables, u: Tables, e: EventRow, now: int)
    requires PinFree(t) && Replays(t)
    requires u.events == t.events + [e]
    requires u.canonical == if Jump(t, e).Some? || Pinned(t, e.bookId) then t.canonical
                            else t.canonical[e.bookId := Canon(FromEvent(e), now, false)]
    requires u.conflicts == if Jump(t, e).Some?
                            then t.conflicts + [Conflict(|t.conflicts| + 1, e.bookId, t.canonical[e.bookId].progress.eventId,
                                                         e.id, Jump(t, e).value, Open, None)]
                            else t.conflicts
    ensures PinFree(u) && Replays(u)
  {
    hide DetectSuspiciousJump, FromEvent;
    assert u.events[..|u.events| - 1] == t.events && u.events[|u.events| - 1] == e;
    if Jump(t, e).Some? {
      assert Cores(u.conflicts) == Cores(t.conflicts) + [Core(u.conflicts[|t.conflicts|])];
      assert Abstract(u).canon == Abstract(t).canon;
    } else {
      assert Abstract(u).canon == Abstract(t).canon[e.bookId := FromEvent(e)];
    }
  }

  // ---------------------------------------------------------------- one book at a time

  /** The book's own log. */
  function BookLog(events: seq<EventRow>, b: int): seq<EventRow> {
    if events == [] then []
    else
      var rest := BookLog(events[..|events| - 1], b);
      if events[|events| - 1].bookId == b then rest + [events[|events| - 1]] else rest
  }

  function StepBook(p: Option<Progress>, e: EventRow): Option<Progress> {
    if p.Some? && DetectSuspiciousJump(p.value, e).Some? then p else Some(FromEvent(e))
  }

  function ReplayBook(log: seq<EventRow>): Option<Progress> {
    if log == [] then None else StepBook(ReplayBook(log[..|log| - 1]), log[|log| - 1])
  }

  /** Books do not interfere: the replay of the whole log, read at b, is the replay of b's own log. */
  lemma {:induction false} ReplayByBook(events: seq<EventRow>, b: int)
    ensures var canon := ReplayLog(events).canon;
            ReplayBook(BookLog(events, b)) == if b in canon then Some(canon[b]) else None
  {
    if events == [] {
    } else {
      var rest, e := events[..|events| - 1], events[|events| - 1];
      ReplayByBook(rest, b);
      if e.bookId == b {
        assert BookLog(events, b)[..|BookLog(rest, b)|] == BookLog(rest, b);
      }
    }
  }

  /** Event k was suspicious against what its book's earlier log replays to. */
  ghost predicate Rejected(events: seq<EventRow>, k: nat)
    requires k < |events|
  {
    var before := ReplayBook(BookLog(events[..k], events[k].bookId));
    before.Some? && DetectSuspiciousJump(before.value, events[k]).Some?
  }

  ghost function RejectionOf(events: seq<EventRow>, k: nat): Rejection
    requires k < |events| && Rejected(events, k)
  {
    var before := ReplayBook(BookLog(events[..k], events[k].bookId)).value;
    Rejection(events[k].bookId, before.eventId, events[k].id, DetectSuspiciousJump(before, events[k]).value)
  }

  /** x is the rejection of the event it names. */
  ghost predicate Lists(events: seq<EventRow>, x: Rejection) {
    1 <= x.eventB <= |events| && Rejected(events, x.eventB - 1) && x == RejectionOf(events, x.eventB - 1)
  }

  /** The rejections list the rejected events of the log, each once and in order. */
  ghost predicate ListsRejected(events: seq<EventRow>, r: seq<Rejection>) {
    && (forall c :: 0 <= c < |r| ==> Lists(events, r[c]))
    && (forall c, d :: 0 <= c < d < |r| ==> r[c].eventB < r[d].eventB)
    && (forall k :: 0 <= k < |events| && Rejected(events, k) ==> RejectionOf(events, k) in r)
  }

  lemma RejectedPrefix(events: seq<EventRow>, n: nat, k: nat)
    requires k < n <= |events|
    ensures Rejected(events[..n], k) <==> Rejected(events, k)
    ensures Rejected(events, k) ==> RejectionOf(events[..n], k) == RejectionOf(events, k)
  {
    assert events[..n][..k] == events[..k];
  }

  /** One more event: the list grows by its rejection, or not at all. */
  lemma ListsRejectedStep(events: seq<EventRow>, n: nat, r: seq<Rejection>, s: seq<Rejection>)
    requires n + 1 == |events| && ListsRejected(events[..n], r)
    requires forall i :: 0 <= i < |events| ==> events[i].id == i + 1
    requires Rejected(events, n) ==> s == r + [RejectionOf(events, n)]
    requires !Rejected(events, n) ==> s == r
    ensures ListsRejected(events, s)
  {
    ListedBefore(events, n, r);
    if Rejected(events, n) {
      RejectionNames(events, n);
      ListGrows(events, n, r, RejectionOf(events, n));
    } else {
      hide Rejected, RejectionOf;
    }
  }

  lemma ListGrows(events: seq<EventRow>, n: nat, r: seq<Rejection>, x: Rejection)
    requires n + 1 == |events| && Rejected(events, n) && x == RejectionOf(events, n) && Lists(events, x)
    requires forall c :: 0 <= c < |r| ==> Lists(events, r[c]) && r[c].eventB < x.eventB
    requires forall c, d :: 0 <= c < d < |r| ==> r[c].eventB < r[d].eventB
    requires forall k :: 0 <= k < n && Rejected(events, k) ==> RejectionOf(events, k) in r
    ensures ListsRejected(events, r + [x])
  {
    hide Rejected, RejectionOf, Lists;
    var s := r + [x];
    forall k | 0 <= k < |events| && Rejected(events, k) ensures RejectionOf(events, k) in s {
      assert k == n ==> s[|r|] == RejectionOf(events, k);
    }
  }

  lemma RejectionNames(events: seq<EventRow>, k: nat)
    requires k < |events| && Rejected(events, k) && forall i :: 0 <= i < |events| ==> events[i].id == i + 1
    ensures RejectionOf(events, k).eventB == k + 1
  {}

  /** The list of a prefix, read in the whole log. */
  lemma ListedBefore(events: seq<EventRow>, n: nat, r: seq<Rejection>)
    requires n <= |events| && ListsRejected(events[..n], r)
    ensures forall c :: 0 <= c < |r| ==> Lists(events, r[c]) && r[c].eventB <= n
    ensures forall c, d :: 0 <= c < d < |r| ==> r[c].eventB < r[d].eventB
    ensures forall k :: 0 <= k < n && Rejected(events, k) ==> RejectionOf(events, k) in r
  {
    forall k: nat | k < n
      ensures Rejected(events[..n], k) <==> Rejected(events, k)
      ensures Rejected(events, k) ==> RejectionOf(events[..n], k) == RejectionOf(events, k)
    {
      RejectedPrefix(events, n, k);
    }
    hide Rejected, RejectionOf;
  }

  lemma {:induction false} RejectionsExact(events: seq<EventRow>)
    requires forall i :: 0 <= i < |events| ==> events[i].id == i + 1
    ensures ListsRejected(events, ReplayLog(events).rejected)
  {
    if events == [] {
    } else {
      var n := |events| - 1;
      RejectionsExact(events[..n]);
      ReplayByBook(events[..n], events[n].bookId);
      ListsRejectedStep(events, n, ReplayLog(events[..n]).rejected, ReplayLog(events).rejected);
    }
  }

  /** In a pin-free state the conflict rows are in one-to-one correspondence
      with the rejected events, and each canonical row is its book's replay. */
  lemma TablesReplay(t: Tables)
    requires LogOK(t) && Replays(t)
    ensures ListsRejected(t.events, Cores(t.conflicts))
    ensures forall b :: b in t.canonical ==> ReplayBook(BookLog(t.events, b)) == Some(t.canonical[b].progress)
    ensures forall b :: b !in t.canonical ==> BookLog(t.events, b) == []
  {
    RejectionsExact(t.events);
    forall b | b in t.canonical ensures ReplayBook(BookLog(t.events, b)) == Some(t.canonical[b].progress) {
      ReplayByBook(t.events, b);
      assert b in Abstract(t).canon;
    }
    forall b | b !in t.canonical ensures BookLog(t.events, b) == [] {
      ReplayByBook(t.events, b);
      assert b !in Abstract(t).canon;
    }
  }

  // ---------------------------------------------------------------- drift

  function ReplayFrom(p: Progress, log: seq<EventRow>): Progress {
    if log == [] then p else StepBook(Some(ReplayFrom(p, log[..|log| - 1])), log[|log| - 1]).value
  }

  /** Events of the log that are accepted when replayed from p. */
  function Accepted(p: Progress, log: seq<EventRow>): nat {
    if log == [] then 0
    else Accepted(p, log[..|log| - 1])
         + (if DetectSuspiciousJump(ReplayFrom(p, log[..|log| - 1]), log[|log| - 1]).Some? then 0 else 1)
  }

  lemma {:induction false} ReplayContinues(log: seq<EventRow>, more: seq<EventRow>)
    requires ReplayBook(log).Some?
    ensures ReplayBook(log + more) == Some(ReplayFrom(ReplayBook(log).value, more))
  {
    if more == [] {
      assert log + more == log;
    } else {
      ReplayContinues(log, more[..|more| - 1]);
      assert (log + more)[..|log + more| - 1] == log + more[..|more| - 1];
    }
  }

  /** An event that reports progress and neither abandons nor restarts the book. */
  predicate Advancing(e: EventRow) {
    e.percent.Some? && e.readStatus != Abandoned && e.readStatus != NotStarted
  }

  /** k accepted events lower the canonical percentage by at most 0.10 each, however many were rejected. */
  lemma {:induction false} DriftBound(p: Progress, log: seq<EventRow>)
    requires p.percent.Some? && forall i :: 0 <= i < |log| ==> Advancing(log[i])
    ensures var q := ReplayFrom(p, log);
            q.percent.Some? && q.percent.value >= p.percent.value - 0.10 * Accepted(p, log) as real
  {
    if log == [] {
    } else {
      DriftBound(p, log[..|log| - 1]);
    }
  }

  predicate Positioned(l: LocationType) {
    l != Raw && l != NoLocation
  }

  /** While locators stay non-raw their type cannot change, and while page totals stay known and positive neither can they. */
  lemma {:induction false} FormatConstant(p: Progress, log: seq<EventRow>)
    ensures Positioned(p.locatorType) && (forall i :: 0 <= i < |log| ==> Positioned(log[i].locatorType)) ==>
              ReplayFrom(p, log).locatorType == p.locatorType
    ensures p.totalPages.Some? && p.totalPages.value > 0 && (forall i :: 0 <= i < |log| ==> log[i].totalPages.Some?) ==>
              ReplayFrom(p, log).totalPages == p.totalPages
  {
    if log == [] {
    } else {
      FormatConstant(p, log[..|log| - 1]);
    }
  }
}
