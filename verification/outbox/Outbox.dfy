/** Job statements of the outbox worker and of the admin API, as values and as
    methods on the database. */
module Outbox {
  import opened Model
  import opened Tables
  import Backoff

  // ---------------------------------------------------------------- the worker's statements

  predicate Ready(job: Job, target: Source, now: int) {
    && job.target == target
    && (job.status == Queued || job.status == Retrying)
    && (job.nextRetry.Some? ==> job.nextRetry.value <= now)
  }

  /** Least id from j on of a job ready for target, 0 if there is none. */
  function FirstReady(t: Tables, target: Source, now: int, j: int): int
    decreases t.nextJob - j
  {
    if j >= t.nextJob then 0
    else if j in t.outbox && Ready(t.outbox[j], target, now) then j
    else FirstReady(t, target, now, j + 1)
  }

  function SetJob(t: Tables, id: int, job: Job): Tables {
    t.(outbox := t.outbox[id := job])
  }

  function AfterClaim(t: Tables, id: int): Tables {
    if id in t.outbox then SetJob(t, id, t.outbox[id].(status := Running)) else t
  }

  function AfterSuccess(t: Tables, id: int): Tables {
    if id in t.outbox then SetJob(t, id, t.outbox[id].(status := Succeeded)) else t
  }

  function AfterFailure(t: Tables, id: int, next: int, dead: bool): Tables {
    if id in t.outbox
    then SetJob(t, id, t.outbox[id].(status := if dead then DeadLetter else Retrying,
                                     attempts := t.outbox[id].attempts + 1, nextRetry := Some(next)))
    else t
  }

  // ---------------------------------------------------------------- the admin API's statements

  /** First statement of resolveConflict. */
  function CloseConflict(t: Tables, c: int, winnerA: bool): Tables {
    if 1 <= c <= |t.conflicts| then
      var row := t.conflicts[c - 1];
      t.(conflicts := t.conflicts[c - 1 := row.(status := AutoResolved,
                                               winner := Some(if winnerA then row.eventA else row.eventB))])
    else t
  }

  /** Second statement of resolveConflict. */
  function Unblock(t: Tables, c: int): Tables {
    t.(outbox := map j | j in t.outbox ::
         if t.outbox[j].blocking == Some(c) then t.outbox[j].(status := Queued, blocking := None) else t.outbox[j])
  }

  function Dismiss(t: Tables, c: int): Tables {
    if 1 <= c <= |t.conflicts|
    then t.(conflicts := t.conflicts[c - 1 := t.conflicts[c - 1].(status := Dismissed)])
    else t
  }

  function Retry(t: Tables, id: int): Tables {
    if id in t.outbox
    then SetJob(t, id, t.outbox[id].(status := Queued, attempts := 0, nextRetry := None))
    else t
  }

  function Drop(t: Tables, id: int): Tables {
    t.(outbox := t.outbox - {id})
  }

  function ClearDeadLetters(t: Tables): Tables {
    t.(outbox := map j | j in t.outbox && t.outbox[j].status != DeadLetter :: t.outbox[j])
  }

  /** outbox.Enqueue; the foreign key refuses an unknown book. */
  function EnqueueByHand(t: Tables, book: int, target: Source): Tables {
    if 1 <= book <= |t.books|
    then t.(outbox := t.outbox[t.nextJob := Job(book, target, Queued, 0, None, None, None)], nextJob := t.nextJob + 1)
    else t
  }

  // ---------------------------------------------------------------- methods

  /** ClaimJob: select and update in one transaction, whose commit may fail.
      The job claimed is the oldest that is for this reader, waits or is to be
      retried, and is due; it is set running and nothing else changes. */
  method ClaimJob(db: Database, target: Source, now: int, fails: bool) returns (id: int)
    modifies db`outbox
    ensures id == if fails then 0 else FirstReady(old(db.View()), target, now, 1)
    ensures db.View() == if id == 0 then old(db.View()) else AfterClaim(old(db.View()), id)
    ensures id != 0 ==>
              && !fails && id in old(db.outbox)
              && var job := old(db.outbox)[id];
                 && job.target == target && (job.status == Queued || job.status == Retrying)
                 && (job.nextRetry == None || job.nextRetry.value <= now)
                 && db.outbox == old(db.outbox)[id := job.(status := Running)]
    ensures !fails ==> forall j :: 1 <= j < (if id == 0 then old(db.nextJob) else id) && j in old(db.outbox) ==>
              var job := old(db.outbox)[j];
              job.target != target || (job.status != Queued && job.status != Retrying)
              || (job.nextRetry.Some? && job.nextRetry.value > now)
    ensures id == 0 ==> db.outbox == old(db.outbox)
  {
    if fails { return 0; }
    id := 1;
    while id < db.nextJob
      invariant id >= 1
      invariant FirstReady(db.View(), target, now, 1) == FirstReady(db.View(), target, now, id)
      invariant forall j :: 1 <= j < id && j in db.outbox ==> !Ready(db.outbox[j], target, now)
    {
      if id in db.outbox && Ready(db.outbox[id], target, now) {
        db.outbox := db.outbox[id := db.outbox[id].(status := Running)];
        return;
      }
      id := id + 1;
    }
    id := 0;
  }

  method MarkSucceeded(db: Database, id: int, fails: bool)
    modifies db`outbox
    ensures db.View() == if fails then old(db.View()) else AfterSuccess(old(db.View()), id)
    ensures db.outbox == if fails || id !in old(db.outbox) then old(db.outbox)
                         else old(db.outbox)[id := old(db.outbox)[id].(status := Succeeded)]
  {
    if !fails && id in db.outbox {
      db.outbox := db.outbox[id := db.outbox[id].(status := Succeeded)];
    }
  }

  method MarkFailed(db: Database, id: int, next: int, dead: bool, fails: bool)
    modifies db`outbox
    ensures db.View() == if fails then old(db.View()) else AfterFailure(old(db.View()), id, next, dead)
    ensures db.outbox == if fails || id !in old(db.outbox) then old(db.outbox)
                         else var job := old(db.outbox)[id];
                              old(db.outbox)[id := job.(status := if dead then DeadLetter else Retrying,
                                                        attempts := job.attempts + 1, nextRetry := Some(next))]
  {
    if !fails && id in db.outbox {
      db.outbox := db.outbox[id := db.outbox[id].(status := if dead then DeadLetter else Retrying,
                                                  attempts := db.outbox[id].attempts + 1, nextRetry := Some(next))];
    }
  }

  /** processOne without interference: the executor's verdict and the random
      draw are inputs; `stored` says whether the final update succeeded. */
  method ProcessOne(db: Database, target: Source, now: int, later: int, claimFails: bool, execOk: bool, r: real, stored: bool)
      returns (id: int)
    modifies db`outbox
    ensures id == if claimFails then 0 else FirstReady(old(db.View()), target, now, 1)
    ensures id == 0 ==> db.View() == old(db.View())
    ensures id != 0 && !stored ==> db.View() == AfterClaim(old(db.View()), id)
    ensures id != 0 && stored && execOk ==> db.View() == AfterSuccess(AfterClaim(old(db.View()), id), id)
    ensures id != 0 && stored && !execOk ==>
              id in old(db.outbox) &&
              var attempts := old(db.outbox)[id].attempts + 1;
              db.View() == AfterFailure(AfterClaim(old(db.View()), id), id,
                                        Backoff.RetryAt(attempts, later, r), attempts >= Backoff.MAX_ATTEMPTS)
    ensures id != 0 ==>
              && id in old(db.outbox) && old(db.outbox)[id].target == target
              && id in db.outbox && db.outbox.Keys == old(db.outbox).Keys
              && (forall j :: j in db.outbox && j != id ==> db.outbox[j] == old(db.outbox)[j])
              && var was, job := old(db.outbox)[id], db.outbox[id];
                 if !stored then job == was.(status := Running)
                 else if execOk then job == was.(status := Succeeded)
                 else
                   job == was.(status := if was.attempts >= 9 then DeadLetter else Retrying,
                               attempts := was.attempts + 1, nextRetry := job.nextRetry)
                   && job.nextRetry == Some(Backoff.RetryAt(was.attempts + 1, later, r))
  {
    var before := db.outbox;
    id := ClaimJob(db, target, now, claimFails);
    if id == 0 { return; }
    if execOk {
      MarkSucceeded(db, id, !stored);
      return;
    }
    var attempts := before[id].attempts + 1;
    var dead := attempts >= Backoff.MAX_ATTEMPTS;
    var next := Backoff.NextRetry(attempts, later, r);
    MarkFailed(db, id, next, dead, !stored);
  }

  /** outbox.Enqueue */
  method Enqueue(db: Database, book: int, target: Source, fails: bool)
    modifies db
    ensures db.View() == if fails then old(db.View()) else EnqueueByHand(old(db.View()), book, target)
    ensures db.outbox == if fails || !(1 <= book <= |old(db.books)|) then old(db.outbox)
                         else old(db.outbox)[old(db.nextJob) := Job(book, target, Queued, 0, None, None, None)]
  {
    if !fails && 1 <= book <= |db.books| {
      db.outbox := db.outbox[db.nextJob := Job(book, target, Queued, 0, None, None, None)];
      db.nextJob := db.nextJob + 1;
    }
  }

  /** repair.ClearDeadletter */
  method ClearDeadletter(db: Database, fails: bool)
    modifies db`outbox
    ensures db.View() == if fails then old(db.View()) else ClearDeadLetters(old(db.View()))
    ensures !fails ==> forall j :: (j in db.outbox <==> j in old(db.outbox) && old(db.outbox)[j].status != DeadLetter)
                                   && (j in db.outbox ==> db.outbox[j] == old(db.outbox)[j])
  {
    if !fails {
      db.outbox := map j | j in db.outbox && db.outbox[j].status != DeadLetter :: db.outbox[j];
    }
  }

  // ---------------------------------------------------------------- the admin API

  datatype Response = NoDatabase | BadRequest | ServerError | Done(ok: bool)

  /** resolveConflict: two statements, not one transaction; an error of the second is ignored. */
  method ResolveConflict(db: Database?, c: int, winner: string, closeFails: bool, unblockFails: bool) returns (r: Response)
    modifies db
    ensures r == if db == null then NoDatabase
                 else if winner != "a" && winner != "b" then BadRequest
                 else if closeFails then ServerError
                 else Done(true)
    ensures db != null && (winner == "a" || winner == "b") && !closeFails ==>
              var closed := CloseConflict(old(db.View()), c, winner == "a");
              db.View() == if unblockFails then closed else Unblock(closed, c)
    ensures db != null && ((winner != "a" && winner != "b") || closeFails) ==> db.View() == old(db.View())
    // of the conflicts only c changes: its status, and its winner to the event asked for
    ensures r == Done(true) && 1 <= c <= |old(db.conflicts)| ==>
              && |db.conflicts| == |old(db.conflicts)|
              && (forall i :: 0 <= i < |db.conflicts| && i != c - 1 ==> db.conflicts[i] == old(db.conflicts)[i])
              && var was, row := old(db.conflicts)[c - 1], db.conflicts[c - 1];
                 && row.status == AutoResolved
                 && (winner == "a" ==> row.winner == Some(was.eventA)) && (winner == "b" ==> row.winner == Some(was.eventB))
                 && row.id == was.id && row.bookId == was.bookId && row.eventA == was.eventA && row.eventB == was.eventB
                 && row.reason == was.reason
    ensures r == Done(true) && !(1 <= c <= |old(db.conflicts)|) ==> db.conflicts == old(db.conflicts)
    // of the jobs only those blocked on c change: they are queued
    ensures r == Done(true) ==>
              && db.outbox.Keys == old(db.outbox).Keys
              && forall j :: j in db.outbox ==>
                   var was, job := old(db.outbox)[j], db.outbox[j];
                   if was.blocking == Some(c) && !unblockFails
                   then job == was.(status := Queued, blocking := None) else job == was
    ensures db != null ==> db.canonical == old(db.canonical) && db.events == old(db.events) && db.books == old(db.books)
  {
    if db == null { return NoDatabase; }
    if winner != "a" && winner != "b" { return BadRequest; }
    if closeFails { return ServerError; }
    SetWinner(db, c, winner == "a");
    if !unblockFails {
      ReleaseJobs(db, c);
    }
    return Done(true);
  }

  /** First statement of resolveConflict. */
  method SetWinner(db: Database, c: int, winnerA: bool)
    modifies db`conflicts
    ensures db.View() == CloseConflict(old(db.View()), c, winnerA)
  {
    if 1 <= c <= |db.conflicts| {
      var row := db.conflicts[c - 1];
      var event := if winnerA then row.eventA else row.eventB;
      db.conflicts := db.conflicts[c - 1 := row.(status := AutoResolved, winner := Some(event))];
    }
  }

  /** Second statement of resolveConflict: whatever state the jobs are in. */
  method ReleaseJobs(db: Database, c: int)
    modifies db`outbox
    ensures db.View() == Unblock(old(db.View()), c)
  {
    db.outbox := map j | j in db.outbox ::
      if db.outbox[j].blocking == Some(c) then db.outbox[j].(status := Queued, blocking := None) else db.outbox[j];
  }

  /** dismissConflict: the conflict's jobs stay blocked. */
  method DismissConflict(db: Database?, c: int, fails: bool) returns (r: Response)
    modifies db
    ensures r == if db == null then NoDatabase else if fails then ServerError else Done(true)
    ensures db != null ==> db.View() == if fails then old(db.View()) else Dismiss(old(db.View()), c)
    // of the conflicts only the status of c changes
    ensures r == Done(true) && 1 <= c <= |old(db.conflicts)| ==>
              db.conflicts == old(db.conflicts)[c - 1 := old(db.conflicts)[c - 1].(status := Dismissed)]
    ensures r == Done(true) && !(1 <= c <= |old(db.conflicts)|) ==> db.conflicts == old(db.conflicts)
    ensures db != null ==> db.outbox == old(db.outbox) && db.canonical == old(db.canonical)
  {
    if db == null { return NoDatabase; }
    if fails { return ServerError; }
    if 1 <= c <= |db.conflicts| {
      db.conflicts := db.conflicts[c - 1 := db.conflicts[c - 1].(status := Dismissed)];
    }
    return Done(true);
  }

  /** retryOutbox: whatever state the job is in. */
  method RetryOutbox(db: Database?, id: int, fails: bool) returns (r: Response)
    modifies db
    ensures r == if db == null then NoDatabase else if fails then ServerError else Done(id in old(db.outbox))
    ensures db != null ==> db.View() == if fails then old(db.View()) else Retry(old(db.View()), id)
    ensures db != null ==>
              db.outbox == if fails || id !in old(db.outbox) then old(db.outbox)
                           else old(db.outbox)[id := old(db.outbox)[id].(status := Queued, attempts := 0, nextRetry := None)]
  {
    if db == null { return NoDatabase; }
    if fails { return ServerError; }
    if id in db.outbox {
      db.outbox := db.outbox[id := db.outbox[id].(status := Queued, attempts := 0, nextRetry := None)];
      return Done(true);
    }
    return Done(false);
  }

  method DropOutbox(db: Database?, id: int, fails: bool) returns (r: Response)
    modifies db
    ensures r == if db == null then NoDatabase else if fails then ServerError else Done(id in old(db.outbox))
    ensures db != null ==> db.View() == if fails then old(db.View()) else Drop(old(db.View()), id)
    ensures db != null ==> db.outbox == if fails then old(db.outbox) else old(db.outbox) - {id}
  {
    if db == null { return NoDatabase; }
    if fails { return ServerError; }
    var found := id in db.outbox;
    db.outbox := db.outbox - {id};
    return Done(found);
  }
}
