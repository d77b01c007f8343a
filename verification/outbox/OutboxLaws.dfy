/** What stands over runs of the whole system: the readers that jobs are for,
    and the winners of conflicts. */
module OutboxLaws {
  import opened Model
  import opened Tables
  import opened Outbox
  import opened System
  import opened StoreSafety
  import OutboxSafety
  import ManualRetry
  import Backoff
  import Log
  import Pipeline
  import Resolver

  // ---------------------------------------------------------------- targets

  /** Every worker's job, while it exists, is for the reader it works for. */
  ghost predicate TargetsOK(s: Sys) {
    forall w :: w in s.workers ==>
      && 1 <= s.workers[w].job < s.t.nextJob
      && (s.workers[w].job in s.t.outbox ==> s.t.outbox[s.workers[w].job].target == s.workers[w].target)
  }

  lemma NextKeepsTargets(s: Sys, norm: Resolver.Normalizer, a: Action)
    requires StoreOK(s.t) && TargetsOK(s)
    ensures TargetsOK(Next(s, norm, a))
  {
    ManualRetry.StoredIds(s.t);
    hide StoreOK, Pipeline.Commit, Backoff.RetryAt, FirstReady;
    if a.Submit? {
      OutboxSafety.SubmitAddsJobs(s, norm, a.raw);
    } else if a.Claim? {
      OutboxSafety.FirstReadyIsReady(s.t, a.target, s.now, 1);
    }
  }

  /** Over any run, manual retries included, a worker only ever holds jobs of
      the reader it claimed for. */
  lemma {:induction false} RunHoldsTarget(norm: Resolver.Normalizer, actions: seq<Action>)
    ensures TargetsOK(Run(INIT, norm, actions))
  {
    if actions == [] {
    } else {
      RunHoldsTarget(norm, actions[..|actions| - 1]);
      RunKeepsStore(norm, actions[..|actions| - 1]);
      NextKeepsTargets(Run(INIT, norm, actions[..|actions| - 1]), norm, actions[|actions| - 1]);
    }
  }

  /** A claim gives the worker a job of the reader it asked for, or none. */
  lemma ClaimTakesTarget(s: Sys, norm: Resolver.Normalizer, w: int, target: Source)
    requires StoreOK(s.t) && w !in s.workers
    ensures var u := Next(s, norm, Claim(w, target, true));
            w in u.workers ==>
              && u.workers[w].target == target && u.workers[w].job in s.t.outbox
              && var job := s.t.outbox[u.workers[w].job];
                 && job.target == target && job.status in {Queued, Retrying}
                 && (job.nextRetry == None || job.nextRetry.value <= s.now)
  {
    ManualRetry.StoredIds(s.t);
    hide StoreOK;
    OutboxSafety.FirstReadyIsReady(s.t, target, s.now, 1);
  }

  // ---------------------------------------------------------------- winners

  /** Conflict c was decided for this event. */
  ghost predicate Decided(t: Tables, c: int, winner: int) {
    1 <= c <= |t.conflicts| && t.conflicts[c - 1].winner == Some(winner)
  }

  /** Resolving a conflict decides it for the event asked for. */
  lemma CloseDecides(s: Sys, norm: Resolver.Normalizer, c: int, winnerA: bool)
    requires 1 <= c <= |s.t.conflicts|
    ensures var row := s.t.conflicts[c - 1];
            Decided(Next(s, norm, Close(c, winnerA)).t, c, if winnerA then row.eventA else row.eventB)
    ensures Next(s, norm, Close(c, winnerA)).t.conflicts[c - 1].status == AutoResolved
  {}

  lemma NextKeepsDecided(s: Sys, norm: Resolver.Normalizer, a: Action, c: int, winner: int)
    requires StoreOK(s.t) && Decided(s.t, c, winner) && (a.Close? ==> a.conflict != c)
    ensures Decided(Next(s, norm, a).t, c, winner)
  {
    hide Pipeline.Commit, Backoff.RetryAt, FirstReady;
    if a.Submit? { Log.CanonicalAfter(s.t, norm, a.raw, s.now, s.now); }
  }

  /** The decision stands over any run in which c is not resolved again. */
  lemma {:induction false} DecisionStands(s: Sys, norm: Resolver.Normalizer, c: int, winnerA: bool, actions: seq<Action>)
    requires StoreOK(s.t) && 1 <= c <= |s.t.conflicts|
    requires forall i :: 0 <= i < |actions| && actions[i].Close? ==> actions[i].conflict != c
    ensures var row := s.t.conflicts[c - 1];
            var u := Run(Next(s, norm, Close(c, winnerA)), norm, actions);
            Decided(u.t, c, if winnerA then row.eventA else row.eventB) && StoreOK(u.t)
  {
    hide StoreOK;
    NextKeepsStore(s, norm, Close(c, winnerA));
    CloseDecides(s, norm, c, winnerA);
    if actions == [] {
    } else {
      var before, a := actions[..|actions| - 1], actions[|actions| - 1];
      DecisionStands(s, norm, c, winnerA, before);
      var mid := Run(Next(s, norm, Close(c, winnerA)), norm, before);
      var row := s.t.conflicts[c - 1];
      NextKeepsStore(mid, norm, a);
      NextKeepsDecided(mid, norm, a, c, if winnerA then row.eventA else row.eventB);
    }
  }
}
