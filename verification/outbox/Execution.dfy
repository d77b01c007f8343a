/** The state machine is what the operations do: each of its actions changes
    the database as one call of the method that models it. */
module Execution {
  import opened Model
  import opened Tables
  import opened Outbox
  import opened System
  import opened StoreSafety
  import Backoff
  import Identity
  import Log
  import Pipeline
  import Resolver

  /** The action on the database, by the operation that performs it; pins are
      set by the environment. */
  method Perform(db: Database, norm: Resolver.Normalizer, workers: map<int, Held>, now: int, a: Action)
    requires StoreOK(db.View())
    modifies db
    ensures forall history :: db.View() == Next(Sys(old(db.View()), workers, now, history), norm, a).t
  {
    hide Pipeline.Commit, Pipeline.Stages, Backoff.RetryAt;
    StoredRows(db.View());
    match a
    case Submit(raw, committed) => PerformSubmit(db, norm, raw, committed, now);
    case Pin(book, on) =>
      if book in db.canonical {
        db.canonical := db.canonical[book := db.canonical[book].(pinned := on)];
      }
    case Tick(_) =>
    case Claim(w, target, ok) =>
      if ok && w !in workers {
        var id := ClaimJob(db, target, now, false);
      }
    case FinishOk(w, stored) =>
      if w in workers {
        MarkSucceeded(db, workers[w].job, !stored);
      }
    case FinishErr(w, r, stored) =>
      if w in workers && 0.0 <= r < 1.0 {
        var attempts := workers[w].attempts + 1;
        var next := Backoff.NextRetry(attempts, now, r);
        MarkFailed(db, workers[w].job, next, attempts >= Backoff.MAX_ATTEMPTS, !stored);
      }
    case Close(c, winnerA) =>
      var r := ResolveConflict(db, c, if winnerA then "a" else "b", false, true);
    case Release(c) => ReleaseJobs(db, c);
    case DismissIt(c) =>
      var r := DismissConflict(db, c, false);
    case DropIt(j) =>
      var r := DropOutbox(db, j, false);
    case ClearDead => ClearDeadletter(db, false);
    case ByHand(book, target) => Enqueue(db, book, target, false);
    case RetryIt(j) =>
      var r := RetryOutbox(db, j, false);
  }

  /** A transaction that commits, or one that fails at its first statement. */
  method PerformSubmit(db: Database, norm: Resolver.Normalizer, raw: AdapterEvent, committed: bool, now: int)
    requires StoreOK(db.View())
    modifies db
    ensures db.View() == if committed && Pipeline.ValidEvent(raw)
                         then Pipeline.Commit(old(db.View()), norm, raw, now, now) else old(db.View())
  {
    hide Pipeline.Commit;
    ghost var t := db.View();
    StoredRows(t);
    if Pipeline.FindBook(t, raw.evidence) == 0 { Identity.CreateNeverRefused(t, raw.evidence); }
    var outcome := Pipeline.Process(db, norm, raw, now, now, if committed then {} else {Pipeline.BeginTx});
  }

  lemma StoredRows(t: Tables)
    requires StoreOK(t)
    ensures Pipeline.IdsOK(t) && 0 !in t.outbox
  {
    Identity.IdentityIds(t);
    assert Log.JobsOK(t);
  }
}
