/** Manual retry: what it can do to exclusive execution, and when it is safe. */
module ManualRetry {
  import opened Model
  import opened Tables
  import opened Outbox
  import opened System
  import opened StoreSafety
  import opened OutboxSafety
  import Backoff
  import Identity
  import Log
  import Pipeline
  import Resolver

  // ---------------------------------------------------------------- exclusive execution alone

  /** What exclusive execution rests on.  Unlike SysOK it says nothing of
      attempts, which a retry resets. */
  ghost predicate ExclusiveOK(s: Sys) {
    && StoreOK(s.t) && WorkersOK(s)
    && forall j :: j in s.t.outbox ==> (s.t.outbox[j].blocking.Some? <==> s.t.outbox[j].status == BlockedByConflict)
  }

  /** At most one worker holds job j. */
  ghost predicate OneWorker(s: Sys, j: int) {
    forall v, w :: v in s.workers && w in s.workers && s.workers[v].job == j == s.workers[w].job ==> v == w
  }

  /** The job is gone, or neither held by a worker nor blocked. */
  ghost predicate Retryable(s: Sys, j: int) {
    j !in s.t.outbox
    || (s.t.outbox[j].status != BlockedByConflict && forall w :: w in s.workers ==> s.workers[w].job != j)
  }

  /** Actions that leave the workers alone and only drop, unblock, requeue or add jobs. */
  lemma QuietKeepsExclusive(s: Sys, u: Sys)
    requires ExclusiveOK(s) && StoreOK(u.t) && u.workers == s.workers && u.t.nextJob >= s.t.nextJob
    requires forall j :: j in u.t.outbox && j in s.t.outbox ==>
               var x, y := s.t.outbox[j], u.t.outbox[j];
               || y == x
               || (x.blocking.Some? && y == x.(status := Queued, blocking := None))
               || (x.status != BlockedByConflict && y == x.(status := Queued, attempts := 0, nextRetry := None)
                   && forall w :: w in s.workers ==> s.workers[w].job != j)
    requires forall j :: j in u.t.outbox && j !in s.t.outbox ==>
               j >= s.t.nextJob && (u.t.outbox[j].blocking.Some? <==> u.t.outbox[j].status == BlockedByConflict)
    ensures ExclusiveOK(u)
  {
    hide StoreOK;
  }

  lemma ClaimKeepsExclusive(s: Sys, norm: Resolver.Normalizer, worker: int, target: Source)
    requires ExclusiveOK(s)
    ensures ExclusiveOK(Next(s, norm, Claim(worker, target, true)))
  {
    NextKeepsStore(s, norm, Claim(worker, target, true));
    StoredIds(s.t);
    hide StoreOK;
    FirstReadyIsReady(s.t, target, s.now, 1);
  }

  lemma FinishKeepsExclusive(s: Sys, norm: Resolver.Normalizer, a: Action)
    requires ExclusiveOK(s) && (a.FinishOk? || a.FinishErr?)
    ensures ExclusiveOK(Next(s, norm, a))
  {
    NextKeepsStore(s, norm, a);
    hide StoreOK, Backoff.RetryAt;
  }

  lemma StoredIds(t: Tables)
    requires StoreOK(t)
    ensures t.nextJob >= 1 && forall j :: j in t.outbox ==> 1 <= j < t.nextJob
  {
    hide Identity.IdentityOK;
    assert Log.JobsOK(t);
  }

  lemma NextKeepsExclusive(s: Sys, norm: Resolver.Normalizer, a: Action)
    requires ExclusiveOK(s) && (a.RetryIt? ==> Retryable(s, a.job))
    ensures ExclusiveOK(Next(s, norm, a))
  {
    hide StoreOK, WorkersOK, DoClaim, DoFinishOk, DoFinishErr, Pipeline.Commit;
    NextKeepsStore(s, norm, a);
    StoredIds(s.t);
    var u := Next(s, norm, a);
    match a
    case Submit(raw, committed) =>
      if committed {
        SubmitAddsJobs(s, norm, raw);
        QuietKeepsExclusive(s, u);
      }
    case Claim(w, target, ok) => if ok { ClaimKeepsExclusive(s, norm, w, target); }
    case FinishOk(_, _) => FinishKeepsExclusive(s, norm, a);
    case FinishErr(_, _, _) => FinishKeepsExclusive(s, norm, a);
    case _ => QuietKeepsExclusive(s, u);
  }

  /** Every manual retry of the run meets a job it may retry. */
  ghost predicate SafeRetries(s: Sys, norm: Resolver.Normalizer, actions: seq<Action>) {
    forall i :: 0 <= i < |actions| && actions[i].RetryIt? ==> Retryable(Run(s, norm, actions[..i]), actions[i].job)
  }

  /** In runs whose manual retries all meet such jobs execution stays exclusive. */
  lemma {:induction false} RunKeepsExclusive(s: Sys, norm: Resolver.Normalizer, actions: seq<Action>)
    requires ExclusiveOK(s) && SafeRetries(s, norm, actions)
    ensures ExclusiveOK(Run(s, norm, actions))
    ensures forall j :: OneWorker(Run(s, norm, actions), j)
  {
    hide StoreOK, Next, Retryable;
    if actions == [] {
    } else {
      var before, a := actions[..|actions| - 1], actions[|actions| - 1];
      forall i | 0 <= i < |before| && before[i].RetryIt? ensures Retryable(Run(s, norm, before[..i]), before[i].job) {
        assert actions[i] == before[i] && actions[..i] == before[..i];
      }
      RunKeepsExclusive(s, norm, before);
      NextKeepsExclusive(Run(s, norm, before), norm, a);
    }
  }

  lemma NoRetryIsSafe(s: Sys, norm: Resolver.Normalizer, actions: seq<Action>)
    requires NoRetry(actions)
    ensures SafeRetries(s, norm, actions)
  {}

  // ---------------------------------------------------------------- a retry that two workers execute

  /** Drop jobs 1..k. */
  function Drops(k: nat): seq<Action> {
    if k == 0 then [] else Drops(k - 1) + [DropIt(k)]
  }

  lemma {:induction false} DropsRetryNone(k: nat)
    ensures NoRetry(Drops(k))
  {
    if k == 0 {
    } else {
      DropsRetryNone(k - 1);
    }
  }

  lemma {:induction false} DropsDo(s: Sys, norm: Resolver.Normalizer, k: nat)
    ensures var u := Run(s, norm, Drops(k));
            && u == s.(t := s.t.(outbox := u.t.outbox))
            && (forall j :: j > k ==> (j in u.t.outbox <==> j in s.t.outbox) && (j in s.t.outbox ==> u.t.outbox[j] == s.t.outbox[j]))
            && (forall j :: 1 <= j <= k ==> j !in u.t.outbox)
  {
    if k == 0 {
    } else {
      DropsDo(s, norm, k - 1);
      DropDoes(Run(s, norm, Drops(k - 1)), norm, k);
      hide Next, NoRetry;
      assert Drops(k)[..|Drops(k)| - 1] == Drops(k - 1);
    }
  }

  lemma DropDoes(s: Sys, norm: Resolver.Normalizer, k: int)
    ensures Next(s, norm, DropIt(k)) == s.(t := s.t.(outbox := s.t.outbox - {k}))
  {}

  /** Claiming when j is the oldest job there is. */
  lemma OldestClaimed(s: Sys, norm: Resolver.Normalizer, j: int, w: int, target: Source)
    requires 1 <= j < s.t.nextJob && j in s.t.outbox && Ready(s.t.outbox[j], target, s.now) && w !in s.workers
    requires forall k :: 1 <= k < j ==> k !in s.t.outbox
    ensures var u := Next(s, norm, Claim(w, target, true));
            && u.workers == s.workers[w := Held(j, s.t.outbox[j].attempts, target)] && u.now == s.now
            && u.t == s.t.(outbox := s.t.outbox[j := s.t.outbox[j].(status := Running)])
  {
    FirstReadyFinds(s.t, target, s.now, 1, j);
  }

  lemma {:induction false} FirstReadyFinds(t: Tables, target: Source, now: int, j: int, id: int)
    requires 1 <= j <= id < t.nextJob && id in t.outbox && Ready(t.outbox[id], target, now)
    requires forall k :: 1 <= k < id && k in t.outbox ==> !Ready(t.outbox[k], target, now)
    ensures FirstReady(t, target, now, j) == id
    decreases id - j
  {
    if j == id {
    } else {
      FirstReadyFinds(t, target, now, j + 1, id);
    }
  }

  /** Retrying the job a worker v is executing: the next worker to claim for
      that target, unless an older job is ready, executes it beside v. */
  lemma RetryRunsJobTwice(s: Sys, norm: Resolver.Normalizer, v: int, w: int)
    requires ExclusiveOK(s) && v in s.workers && w !in s.workers && s.workers[v].job in s.t.outbox
    ensures var j := s.workers[v].job;
            var target := s.t.outbox[j].target;
            var u := Next(Next(s, norm, RetryIt(j)), norm, Claim(w, target, true));
            (forall k :: 1 <= k < j && k in s.t.outbox ==> !Ready(s.t.outbox[k], target, s.now)) ==>
              v in u.workers && w in u.workers && u.workers[v].job == u.workers[w].job == j
  {
    var j := s.workers[v].job;
    var target := s.t.outbox[j].target;
    var t := Retry(s.t, j);
    if forall k :: 1 <= k < j && k in s.t.outbox ==> !Ready(s.t.outbox[k], target, s.now) {
      FirstReadyFinds(t, target, s.now, 1, j);
    }
  }

  /** A held job that is retried can come to a second worker. */
  lemma HeldRunsTwice(s: Sys, norm: Resolver.Normalizer, j: int, v: int) returns (actions: seq<Action>)
    requires ExclusiveOK(s) && j in s.t.outbox && v in s.workers && s.workers[v].job == j
    ensures NoRetry(actions) && !OneWorker(Run(Next(s, norm, RetryIt(j)), norm, actions), j)
  {
    StoredIds(s.t);
    var r := Next(s, norm, RetryIt(j));
    DropsDo(r, norm, j - 1);
    DropsRetryNone(j - 1);
    hide StoreOK, WorkersOK, Next, FirstReady;
    var m := Run(r, norm, Drops(j - 1));
    var w := FreshKey(s.workers.Keys);
    var claim := Claim(w, s.t.outbox[j].target, true);
    OldestClaimed(m, norm, j, w, s.t.outbox[j].target);
    RunOne(m, norm, claim);
    RunConcat(r, norm, Drops(j - 1), [claim]);
    actions := Drops(j - 1) + [claim];
    SharedByTwo(Next(m, norm, claim), j, v, w);
  }

  lemma RunOne(s: Sys, norm: Resolver.Normalizer, a: Action)
    ensures Run(s, norm, [a]) == Next(s, norm, a)
  {
    hide Next;
    assert [a][..0] == [];
  }

  lemma SharedByTwo(s: Sys, j: int, v: int, w: int)
    requires v in s.workers && w in s.workers && v != w && s.workers[v].job == j == s.workers[w].job
    ensures !OneWorker(s, j)
  {}

  /** A blocked job that is retried keeps its conflict: releasing that requeues
      the job while a worker executes it. */
  lemma BlockedRunsTwice(s: Sys, norm: Resolver.Normalizer, j: int) returns (actions: seq<Action>)
    requires ExclusiveOK(s) && j in s.t.outbox && s.t.outbox[j].status == BlockedByConflict
    ensures NoRetry(actions) && !OneWorker(Run(Next(s, norm, RetryIt(j)), norm, actions), j)
  {
    StoredIds(s.t);
    var r := Next(s, norm, RetryIt(j));
    DropsDo(r, norm, j - 1);
    DropsRetryNone(j - 1);
    hide StoreOK, WorkersOK, Next, FirstReady;
    var m := Run(r, norm, Drops(j - 1));
    var rest := ReleasedWhileRun(m, norm, j);
    RunConcat(r, norm, Drops(j - 1), rest);
    actions := Drops(j - 1) + rest;
  }

  /** Claim, release of the conflict, claim. */
  lemma ReleasedWhileRun(s: Sys, norm: Resolver.Normalizer, j: int) returns (actions: seq<Action>)
    requires 1 <= j < s.t.nextJob && j in s.t.outbox && forall k :: 1 <= k < j ==> k !in s.t.outbox
    requires var job := s.t.outbox[j]; job.status == Queued && job.nextRetry.None? && job.blocking.Some?
    ensures NoRetry(actions) && !OneWorker(Run(s, norm, actions), j)
  {
    var target, c := s.t.outbox[j].target, s.t.outbox[j].blocking.value;
    var v := FreshKey(s.workers.Keys);
    var w := FreshKey(s.workers.Keys + {v});
    var first, last := Claim(v, target, true), Claim(w, target, true);
    OldestClaimed(s, norm, j, v, target);
    var s1 := Next(s, norm, first);
    var s2 := Next(s1, norm, Release(c));
    assert s2.workers == s1.workers && s2.t.outbox[j] == s.t.outbox[j].(blocking := None);
    OldestClaimed(s2, norm, j, w, target);
    hide Next, FirstReady;
    RunOne(s, norm, first);
    RunOne(s1, norm, Release(c));
    RunOne(s2, norm, last);
    RunConcat(s, norm, [first], [Release(c)]);
    RunConcat(s, norm, [first] + [Release(c)], [last]);
    actions := [first] + [Release(c)] + [last];
    SharedByTwo(Next(s2, norm, last), j, v, w);
  }

  /** A retry of a job leaves it to one worker at a time, whatever follows but
      further retries, exactly when the job is neither held nor blocked. */
  lemma RetrySafeIff(s: Sys, norm: Resolver.Normalizer, j: int)
    requires ExclusiveOK(s)
    ensures (forall actions :: NoRetry(actions) ==> OneWorker(Run(Next(s, norm, RetryIt(j)), norm, actions), j))
            <==> Retryable(s, j)
  {
    if Retryable(s, j) {
      NextKeepsExclusive(s, norm, RetryIt(j));
      forall actions | NoRetry(actions) ensures OneWorker(Run(Next(s, norm, RetryIt(j)), norm, actions), j) {
        NoRetryIsSafe(Next(s, norm, RetryIt(j)), norm, actions);
        RunKeepsExclusive(Next(s, norm, RetryIt(j)), norm, actions);
      }
    } else if s.t.outbox[j].status == BlockedByConflict {
      var actions := BlockedRunsTwice(s, norm, j);
    } else {
      var v :| v in s.workers && s.workers[v].job == j;
      var actions := HeldRunsTwice(s, norm, j, v);
    }
  }

  /** The invariant of runs without manual retry is enough to begin with. */
  lemma RunExclusive(norm: Resolver.Normalizer, actions: seq<Action>)
    requires NoRetry(actions)
    ensures ExclusiveOK(Run(INIT, norm, actions))
  {
    RunKeeps(norm, actions);
    var s := Run(INIT, norm, actions);
    forall j | j in s.t.outbox ensures s.t.outbox[j].blocking.Some? <==> s.t.outbox[j].status == BlockedByConflict {
      assert JobStateOK(s.now, s.t.outbox[j], HistoryOf(s, j));
    }
  }
}
