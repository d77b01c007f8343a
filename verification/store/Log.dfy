/** What every committed event keeps between the log and the rows it drives. */
module Log {
  import opened Model
  import opened Tables
  import opened Pipeline
  import Identity
  import Resolver
  import Conflicts

  ghost predicate EventsOK(t: Tables) {
    forall i :: 0 <= i < |t.events| ==> t.events[i].id == i + 1 && 1 <= t.events[i].bookId <= |t.books|
  }

  /** Every book has a canonical row, and it repeats one of the book's own events word for word. */
  ghost predicate CanonOK(t: Tables) {
    && (forall b :: b in t.canonical <==> 1 <= b <= |t.books|)
    && (forall b :: b in t.canonical ==>
          var p := t.canonical[b].progress;
          1 <= p.eventId <= |t.events| && t.events[p.eventId - 1].bookId == b && p == FromEvent(t.events[p.eventId - 1]))
  }

  /** A conflict sets two events of one book against each other, the earlier first. */
  ghost predicate ConflictOK(t: Tables, c: Conflict) {
    && 1 <= c.eventA < c.eventB <= |t.events|
    && t.events[c.eventA - 1].bookId == c.bookId == t.events[c.eventB - 1].bookId
    && (c.winner.Some? ==> c.winner.value == c.eventA || c.winner.value == c.eventB)
  }

  ghost predicate ConflictsOK(t: Tables) {
    forall i :: 0 <= i < |t.conflicts| ==> t.conflicts[i].id == i + 1 && ConflictOK(t, t.conflicts[i])
  }

  /** A job names a conflict and an event of its own book only, and a pipeline
      job never writes back to the source of its event. */
  ghost predicate JobOK(t: Tables, job: Job) {
    && 1 <= job.bookId <= |t.books|
    && (job.blocking.Some? ==>
          1 <= job.blocking.value <= |t.conflicts| && t.conflicts[job.blocking.value - 1].bookId == job.bookId)
    && (job.event.Some? ==>
          1 <= job.event.value <= |t.events| && t.events[job.event.value - 1].bookId == job.bookId
          && t.events[job.event.value - 1].source != job.target)
  }

  ghost predicate JobsOK(t: Tables) {
    t.nextJob >= 1 && forall j :: j in t.outbox ==> 1 <= j < t.nextJob && JobOK(t, t.outbox[j])
  }

  ghost predicate LogOK(t: Tables) {
    EventsOK(t) && CanonOK(t) && ConflictsOK(t) && JobsOK(t)
  }

  // ---------------------------------------------------------------- enqueueing

  /** The outbox after enqueueing: the old jobs, and one per target under the next ids. */
  lemma {:induction false} EnqueueExact(t: Tables, book: int, event: int, targets: seq<Source>, blocking: Option<int>)
    requires forall j :: j in t.outbox ==> j < t.nextJob
    ensures var u := Enqueue(t, book, event, targets, blocking);
            && u == t.(outbox := u.outbox, nextJob := t.nextJob + |targets|)
            && (forall j :: j in u.outbox <==> j in t.outbox || t.nextJob <= j < u.nextJob)
            && (forall j :: j in t.outbox ==> u.outbox[j] == t.outbox[j])
            && (forall j :: t.nextJob <= j < u.nextJob ==> u.outbox[j] == NewJob(book, event, targets[j - t.nextJob], blocking))
  {
    if targets == [] {
    } else {
      EnqueueExact(t, book, event, targets[..|targets| - 1], blocking);
    }
  }

  // ---------------------------------------------------------------- one committed event

  /** State t after resolution: all but possibly the canonical row of e's book are in order. */
  ghost predicate ReadyFor(t: Tables, e: EventRow) {
    && EventsOK(t) && ConflictsOK(t) && JobsOK(t)
    && (forall b :: b in t.canonical ==>
          var p := t.canonical[b].progress;
          1 <= b <= |t.books| && 1 <= p.eventId <= |t.events| && t.events[p.eventId - 1].bookId == b
          && p == FromEvent(t.events[p.eventId - 1]))
    && (forall b :: 1 <= b <= |t.books| && b != e.bookId ==> b in t.canonical)
    && e.id == |t.events| + 1 && 1 <= e.bookId <= |t.books|
  }

  lemma AppendKeeps(t: Tables, e: EventRow)
    requires ReadyFor(t, e)
    ensures EventsOK(Append(t, e)) && ConflictsOK(Append(t, e)) && JobsOK(Append(t, e))
  {
    var u := Append(t, e);
    forall i | 0 <= i < |t.conflicts| ensures ConflictOK(u, u.conflicts[i]) { assert ConflictOK(t, t.conflicts[i]); }
    forall j | j in t.outbox ensures JobOK(u, u.outbox[j]) { assert JobOK(t, t.outbox[j]); }
  }

  lemma NewJobOK(t: Tables, e: EventRow, k: nat, blocking: Option<int>)
    requires 1 <= e.id <= |t.events| && t.events[e.id - 1] == e && 1 <= e.bookId <= |t.books|
    requires blocking.Some? ==> 1 <= blocking.value <= |t.conflicts| && t.conflicts[blocking.value - 1].bookId == e.bookId
    requires k < |WritebackTargets(e.source)|
    ensures JobOK(t, NewJob(e.bookId, e.id, WritebackTargets(e.source)[k], blocking))
  {
    WithoutNeverEchoes(ALL_TARGETS, e.source);
    assert WritebackTargets(e.source)[k] in WritebackTargets(e.source);
  }

  lemma EnqueueKeeps(t: Tables, e: EventRow, blocking: Option<int>)
    requires JobsOK(t) && 1 <= e.id <= |t.events| && t.events[e.id - 1] == e && 1 <= e.bookId <= |t.books|
    requires blocking.Some? ==> 1 <= blocking.value <= |t.conflicts| && t.conflicts[blocking.value - 1].bookId == e.bookId
    ensures var u := Enqueue(t, e.bookId, e.id, WritebackTargets(e.source), blocking);
            JobsOK(u) && u == t.(outbox := u.outbox, nextJob := u.nextJob)
  {
    hide WritebackTargets, Enqueue, NewJob;
    var targets := WritebackTargets(e.source);
    EnqueueExact(t, e.bookId, e.id, targets, blocking);
    var u := Enqueue(t, e.bookId, e.id, targets, blocking);
    forall j | j in u.outbox ensures 1 <= j < u.nextJob && JobOK(u, u.outbox[j]) {
      if j in t.outbox {
        assert JobOK(t, t.outbox[j]);
      } else {
        NewJobOK(t, e, j - t.nextJob, blocking);
      }
    }
  }

  lemma OpenConflictKeeps(t: Tables, e: EventRow, reason: JumpReason)
    requires ReadyFor(t, e) && e.bookId in t.canonical
    ensures var u := OpenConflict(Append(t, e), e, reason);
            && EventsOK(u) && CanonOK(u) && ConflictsOK(u) && JobsOK(u)
            && |u.conflicts| == |t.conflicts| + 1 && u.conflicts[|t.conflicts|].bookId == e.bookId
  {
    AppendKeeps(t, e);
    var v := Append(t, e);
    var u := OpenConflict(v, e, reason);
    forall i | 0 <= i < |u.conflicts| ensures ConflictOK(u, u.conflicts[i]) {
      if i < |t.conflicts| { assert ConflictOK(v, v.conflicts[i]); }
    }
    forall j | j in u.outbox ensures JobOK(u, u.outbox[j]) { assert JobOK(v, v.outbox[j]); }
  }

  lemma UpsertKeeps(t: Tables, e: EventRow, now: int)
    requires ReadyFor(t, e)
    ensures var u := Upsert(Append(t, e), e, now);
            EventsOK(u) && CanonOK(u) && ConflictsOK(u) && JobsOK(u)
  {
    AppendKeeps(t, e);
    var v := Append(t, e);
    var u := Upsert(v, e, now);
    forall i | 0 <= i < |u.conflicts| ensures ConflictOK(u, u.conflicts[i]) { assert ConflictOK(v, v.conflicts[i]); }
    forall j | j in u.outbox ensures JobOK(u, u.outbox[j]) { assert JobOK(v, v.outbox[j]); }
  }

  lemma CanonReady(t: Tables, e: EventRow)
    requires ReadyFor(t, e) && e.bookId in t.canonical
    ensures CanonOK(Append(t, e))
  {}

  lemma RecordKeepsLog(t: Tables, e: EventRow, now: int)
    requires ReadyFor(t, e)
    ensures LogOK(Record(t, e, now))
  {
    hide EventsOK, CanonOK, ConflictsOK, JobsOK, Enqueue, WritebackTargets, Conflicts.DetectSuspiciousJump;
    var t1 := Append(t, e);
    var jump := Jump(t, e);
    AppendKeeps(t, e);
    if e.bookId in t.canonical { CanonReady(t, e); }
    if jump.Some? {
      var u := OpenConflict(t1, e, jump.value);
      OpenConflictKeeps(t, e, jump.value);
      EnqueueKeeps(u, e, Some(|t.conflicts| + 1));
      TransferLog(u, Enqueue(u, e.bookId, e.id, WritebackTargets(e.source), Some(|t.conflicts| + 1)));
    } else {
      var u := if Pinned(t, e.bookId) then t1 else Upsert(t1, e, now);
      if !Pinned(t, e.bookId) { UpsertKeeps(t, e, now); }
      EnqueueKeeps(u, e, None);
      TransferLog(u, Enqueue(u, e.bookId, e.id, WritebackTargets(e.source), None));
    }
  }

  lemma TransferLog(t: Tables, u: Tables)
    requires EventsOK(t) && CanonOK(t) && ConflictsOK(t) && JobsOK(u)
    requires u == t.(outbox := u.outbox, nextJob := u.nextJob)
    ensures LogOK(u)
  {
    forall i | 0 <= i < |u.conflicts| ensures ConflictOK(u, u.conflicts[i]) { assert ConflictOK(t, t.conflicts[i]); }
  }

  lemma ResolveReady(t: Tables, norm: Resolver.Normalizer, raw: AdapterEvent, received: int)
    requires Identity.IdentityOK(t) && LogOK(t)
    ensures ReadyFor(Resolve(t, norm, raw.evidence).t, EventFor(t, norm, raw, received))
  {
    Identity.ResolveKeepsIdentity(t, norm, raw.evidence);
    FindRange(t, raw.evidence, 0);
    var u := Resolve(t, norm, raw.evidence).t;
    assert u == t.(books := u.books, aliases := u.aliases);
    forall i | 0 <= i < |u.conflicts| ensures ConflictOK(u, u.conflicts[i]) { assert ConflictOK(t, t.conflicts[i]); }
    forall j | j in u.outbox ensures JobOK(u, u.outbox[j]) { assert JobOK(t, t.outbox[j]); }
  }

  /** Every committed event keeps the log, the canonical rows, the conflicts and the jobs linked. */
  lemma CommitKeepsLog(t: Tables, norm: Resolver.Normalizer, raw: AdapterEvent, received: int, updated: int)
    requires Identity.IdentityOK(t) && LogOK(t)
    ensures LogOK(Commit(t, norm, raw, received, updated))
  {
    ResolveReady(t, norm, raw, received);
    RecordKeepsLog(Resolve(t, norm, raw.evidence).t, EventFor(t, norm, raw, received), updated);
  }

  /** A pinned row is not touched by any event, of its book or another. */
  lemma PinnedRowKept(t: Tables, norm: Resolver.Normalizer, raw: AdapterEvent, received: int, updated: int, b: int)
    requires Identity.IdentityOK(t) && LogOK(t) && Pinned(t, b)
    ensures b in Commit(t, norm, raw, received, updated).canonical
    ensures Commit(t, norm, raw, received, updated).canonical[b] == t.canonical[b]
  {
    CanonicalAfter(t, norm, raw, received, updated);
  }

  /** The canonical table after a committed event: e's row is replaced exactly
      when it is neither pinned nor jumped away from; nothing else changes. */
  lemma CanonicalAfter(t: Tables, norm: Resolver.Normalizer, raw: AdapterEvent, received: int, updated: int)
    requires Identity.IdentityOK(t) && LogOK(t)
    ensures var e := EventFor(t, norm, raw, received);
            var u := Commit(t, norm, raw, received, updated);
            && Jump(Resolve(t, norm, raw.evidence).t, e) == Jump(t, e)
            && u.canonical == (if Jump(t, e).Some? || Pinned(t, e.bookId) then t.canonical
                               else t.canonical[e.bookId := Canon(FromEvent(e), updated, false)])
            && u.events == t.events + [e]
            && u.conflicts == (if Jump(t, e).Some?
                               then t.conflicts + [Conflict(|t.conflicts| + 1, e.bookId, t.canonical[e.bookId].progress.eventId,
                                                            e.id, Jump(t, e).value, Open, None)]
                               else t.conflicts)
  {
    ResolveReady(t, norm, raw, received);
    var v := Resolve(t, norm, raw.evidence).t;
    var e := EventFor(t, norm, raw, received);
    assert v == t.(books := v.books, aliases := v.aliases);
    var v1 := Append(v, e);
    if Jump(v, e).Some? {
      Identity.EnqueueKeeps(OpenConflict(v1, e, Jump(v, e).value), e.bookId, e.id, WritebackTargets(e.source), Some(|v.conflicts| + 1));
    } else {
      Identity.EnqueueKeeps(if Pinned(v, e.bookId) then v1 else Upsert(v1, e, updated), e.bookId, e.id, WritebackTargets(e.source), None);
    }
  }
}
