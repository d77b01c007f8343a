/** The outbox under any interleaving of workers, pipeline and admin API,
    manual retry excepted: exclusive execution, bounded attempts, backoff and
    termination. */
module OutboxSafety {
  import opened Model
  import opened Tables
  import opened Outbox
  import opened Backoff
  import opened System
  import opened StoreSafety
  import Identity
  import Log
  import Conflicts
  import Pipeline
  import Resolver

  // ---------------------------------------------------------------- the invariant

  predicate AttemptsOK(job: Job) {
    match job.status
    case Queued => job.attempts == 0
    case BlockedByConflict => job.attempts == 0
    case Retrying => 1 <= job.attempts < MAX_ATTEMPTS
    case Running => 0 <= job.attempts < MAX_ATTEMPTS
    case Succeeded => 0 <= job.attempts < MAX_ATTEMPTS
    case DeadLetter => job.attempts == MAX_ATTEMPTS
  }

  /** After a failures the next run is at least 4 * (2^a - 1) s after the first one. */
  predicate TimingOK(now: int, job: Job, h: History) {
    && (job.attempts >= 1 ==>
          && h.firstFail.Some? && job.nextRetry.Some?
          && job.nextRetry.value >= h.firstFail.value + 4 * SECOND * (Pow2(job.attempts) - 1)
          && (job.status == Running ==> now >= job.nextRetry.value))
    && (job.status == DeadLetter ==> h.firstFail.Some? && now >= h.firstFail.value + 2044 * SECOND)
  }

  predicate JobStateOK(now: int, job: Job, h: History) {
    && (job.blocking.Some? <==> job.status == BlockedByConflict)
    && AttemptsOK(job)
    && h.runs == job.attempts + (if job.status == Running || job.status == Succeeded then 1 else 0)
    && TimingOK(now, job, h)
  }

  ghost predicate JobStatesOK(s: Sys) {
    forall j :: j in s.t.outbox ==> JobStateOK(s.now, s.t.outbox[j], HistoryOf(s, j))
  }

  ghost predicate HistoryOK(s: Sys) {
    forall j :: j in s.history ==>
      && 1 <= j < s.t.nextJob && s.history[j].runs <= MAX_ATTEMPTS
      && (s.history[j].firstFail.Some? ==> s.history[j].firstFail.value <= s.now)
  }

  /** A worker holds a job that is running, or gone, as it read it; no two workers hold the same. */
  ghost predicate WorkersOK(s: Sys) {
    && (forall w :: w in s.workers ==>
          var held := s.workers[w];
          1 <= held.job < s.t.nextJob
          && (held.job in s.t.outbox ==>
                s.t.outbox[held.job].status == Running && s.t.outbox[held.job].attempts == held.attempts))
    && (forall v, w :: v in s.workers && w in s.workers && v != w ==> s.workers[v].job != s.workers[w].job)
  }

  ghost predicate SysOK(s: Sys) {
    StoreOK(s.t) && JobStatesOK(s) && HistoryOK(s) && WorkersOK(s)
  }

  // ---------------------------------------------------------------- one action

  lemma {:induction false} FirstReadyIsReady(t: Tables, target: Source, now: int, j: int)
    requires j >= 1
    ensures var id := FirstReady(t, target, now, j);
            id != 0 ==> j <= id < t.nextJob && id in t.outbox && Ready(t.outbox[id], target, now)
    decreases t.nextJob - j
  {
    if j >= t.nextJob {
    } else {
      FirstReadyIsReady(t, target, now, j + 1);
    }
  }

  lemma ClaimKeeps(s: Sys, worker: int, target: Source)
    requires SysOK(s)
    ensures var u := DoClaim(s, worker, target); JobStatesOK(u) && HistoryOK(u) && WorkersOK(u)
  {
    hide StoreOK;
    JobIds(s);
    var id := FirstReady(s.t, target, s.now, 1);
    FirstReadyIsReady(s.t, target, s.now, 1);
    if id in s.t.outbox && worker !in s.workers {
      var u := DoClaim(s, worker, target);
      var job, h := s.t.outbox[id], HistoryOf(s, id);
      assert JobStateOK(s.now, job, h);
      forall j | j in u.t.outbox ensures JobStateOK(u.now, u.t.outbox[j], HistoryOf(u, j)) {
        if j != id { assert JobStateOK(s.now, s.t.outbox[j], HistoryOf(s, j)); }
      }
      forall w | w in s.workers ensures s.workers[w].job != id {}
    }
  }

  lemma FinishOkKeeps(s: Sys, worker: int, stored: bool)
    requires SysOK(s) && worker in s.workers
    ensures var u := DoFinishOk(s, worker, stored); JobStatesOK(u) && HistoryOK(u) && WorkersOK(u)
  {
    var u := DoFinishOk(s, worker, stored);
    forall j | j in u.t.outbox ensures JobStateOK(u.now, u.t.outbox[j], HistoryOf(u, j)) {
      assert JobStateOK(s.now, s.t.outbox[j], HistoryOf(s, j));
    }
  }

  /** The bound a failure establishes for the next attempt, and at the last one for the dead letter. */
  lemma FailureTiming(now: int, job: Job, h: History, r: real)
    requires JobStateOK(now, job, h) && job.status == Running && 0.0 <= r < 1.0
    requires h.firstFail.Some? ==> h.firstFail.value <= now
    ensures var first := if h.firstFail.Some? then h.firstFail.value else now;
            var next := RetryAt(job.attempts + 1, now, r);
            && next >= first + 4 * SECOND * (Pow2(job.attempts + 1) - 1)
            && (job.attempts + 1 >= MAX_ATTEMPTS ==> now >= first + 2044 * SECOND)
  {
    RetryAtLeast(job.attempts + 1, now, r);
    Pow2Values();
  }

  lemma FinishErrKeeps(s: Sys, worker: int, r: real, stored: bool)
    requires SysOK(s) && worker in s.workers && 0.0 <= r < 1.0
    ensures var u := DoFinishErr(s, worker, r, stored); JobStatesOK(u) && HistoryOK(u) && WorkersOK(u)
  {
    var u := DoFinishErr(s, worker, r, stored);
    var held := s.workers[worker];
    forall j | j in u.t.outbox ensures JobStateOK(u.now, u.t.outbox[j], HistoryOf(u, j)) {
      assert JobStateOK(s.now, s.t.outbox[j], HistoryOf(s, j));
      if j == held.job { FailureTiming(s.now, s.t.outbox[j], HistoryOf(s, j), r); }
    }
  }

  /** Actions that leave workers and history alone and only drop, unblock or add jobs. */
  lemma OtherKeeps(s: Sys, u: Sys)
    requires SysOK(s) && u.workers == s.workers && u.history == s.history && u.now >= s.now
    requires u.t.nextJob >= s.t.nextJob
    requires forall j :: j in u.t.outbox && j in s.t.outbox && j < s.t.nextJob ==>
               u.t.outbox[j] == s.t.outbox[j]
               || (s.t.outbox[j].blocking.Some? && u.t.outbox[j] == s.t.outbox[j].(status := Queued, blocking := None))
    requires forall j :: j in u.t.outbox && j !in s.t.outbox ==>
               j >= s.t.nextJob && u.t.outbox[j].attempts == 0
               && (if u.t.outbox[j].blocking.Some? then u.t.outbox[j].status == BlockedByConflict else u.t.outbox[j].status == Queued)
    ensures JobStatesOK(u) && HistoryOK(u) && WorkersOK(u)
  {
    assert Log.JobsOK(s.t);
    forall j | j in u.t.outbox ensures JobStateOK(u.now, u.t.outbox[j], HistoryOf(u, j)) {
      if j in s.t.outbox { assert JobStateOK(s.now, s.t.outbox[j], HistoryOf(s, j)); }
    }
  }

  lemma SubmitJobs(s: Sys, norm: Resolver.Normalizer, raw: AdapterEvent)
    requires SysOK(s)
    ensures var u := Next(s, norm, Submit(raw, true)); JobStatesOK(u) && HistoryOK(u) && WorkersOK(u)
  {
    SubmitAddsJobs(s, norm, raw);
    OtherKeeps(s, Next(s, norm, Submit(raw, true)));
  }

  /** A transaction leaves the jobs there are alone; its own are queued, or
      blocked on a conflict it opens. */
  lemma SubmitAddsJobs(s: Sys, norm: Resolver.Normalizer, raw: AdapterEvent)
    requires StoreOK(s.t)
    ensures var t, u := s.t, Next(s, norm, Submit(raw, true)).t;
            && u.nextJob >= t.nextJob
            && (forall j :: j < t.nextJob ==> (j in u.outbox <==> j in t.outbox) && (j in t.outbox ==> u.outbox[j] == t.outbox[j]))
            && (forall j :: j in u.outbox && j !in t.outbox ==>
                  j >= t.nextJob && u.outbox[j].attempts == 0
                  && (if u.outbox[j].blocking.Some?
                      then u.outbox[j].status == BlockedByConflict && u.outbox[j].blocking.value > |t.conflicts|
                      else u.outbox[j].status == Queued))
  {
    if Pipeline.ValidEvent(raw) {
      assert Log.JobsOK(s.t);
      Log.ResolveReady(s.t, norm, raw, s.now);
      var t := Pipeline.Resolve(s.t, norm, raw.evidence).t;
      assert t == s.t.(books := t.books, aliases := t.aliases);
      RecordJobs(t, Pipeline.EventFor(s.t, norm, raw, s.now), s.now);
    }
  }

  /** Recording an event only adds fresh jobs: queued, or blocked on the conflict it opens. */
  lemma RecordJobs(t: Tables, e: EventRow, now: int)
    requires forall j :: j in t.outbox ==> j < t.nextJob
    ensures var u := Pipeline.Record(t, e, now);
            && u.nextJob >= t.nextJob
            && (forall j :: j < t.nextJob ==> (j in u.outbox <==> j in t.outbox))
            && (forall j :: j in t.outbox ==> u.outbox[j] == t.outbox[j])
            && (forall j :: j in u.outbox && j !in t.outbox ==>
                  j >= t.nextJob && u.outbox[j].attempts == 0
                  && (if u.outbox[j].blocking.Some?
                      then u.outbox[j].status == BlockedByConflict && u.outbox[j].blocking.value == |t.conflicts| + 1
                      else u.outbox[j].status == Queued))
  {
    hide Pipeline.Enqueue, Conflicts.DetectSuspiciousJump;
    var t1 := Pipeline.Append(t, e);
    var jump := Pipeline.Jump(t, e);
    var targets := Pipeline.WritebackTargets(e.source);
    if jump.Some? {
      Log.EnqueueExact(Pipeline.OpenConflict(t1, e, jump.value), e.bookId, e.id, targets, Some(|t.conflicts| + 1));
    } else {
      Log.EnqueueExact(if Pipeline.Pinned(t, e.bookId) then t1 else Pipeline.Upsert(t1, e, now), e.bookId, e.id, targets, None);
    }
  }

  predicate AdminAction(a: Action) {
    !a.Submit? && !a.Claim? && !a.FinishOk? && !a.FinishErr? && !a.RetryIt?
  }

  lemma AdminKeeps(s: Sys, norm: Resolver.Normalizer, a: Action)
    requires SysOK(s) && AdminAction(a)
    ensures var u := Next(s, norm, a); JobStatesOK(u) && HistoryOK(u) && WorkersOK(u)
  {
    JobIds(s);
    hide SysOK, JobStatesOK, HistoryOK, WorkersOK;
    OtherKeeps(s, Next(s, norm, a));
  }

  lemma JobIds(s: Sys)
    requires SysOK(s)
    ensures s.t.nextJob >= 1 && forall j :: j in s.t.outbox ==> 1 <= j < s.t.nextJob
  {
    hide Identity.IdentityOK, JobStatesOK, HistoryOK, WorkersOK;
    assert Log.JobsOK(s.t);
  }

  lemma NextKeeps(s: Sys, norm: Resolver.Normalizer, a: Action)
    requires SysOK(s) && !a.RetryIt?
    ensures SysOK(Next(s, norm, a))
  {
    hide StoreOK, JobStatesOK, HistoryOK, WorkersOK, DoClaim, DoFinishOk, DoFinishErr, Pipeline.Commit;
    NextKeepsStore(s, norm, a);
    match a
    case Submit(raw, committed) => if committed { SubmitJobs(s, norm, raw); }
    case Claim(w, target, ok) => if ok { ClaimKeeps(s, w, target); }
    case FinishOk(w, stored) => if w in s.workers { FinishOkKeeps(s, w, stored); }
    case FinishErr(w, r, stored) => if w in s.workers && 0.0 <= r < 1.0 { FinishErrKeeps(s, w, r, stored); }
    case _ => AdminKeeps(s, norm, a);
  }

  /** The invariant holds in every state of every run without manual retry. */
  lemma {:induction false} RunKeeps(norm: Resolver.Normalizer, actions: seq<Action>)
    requires NoRetry(actions)
    ensures SysOK(Run(INIT, norm, actions))
  {
    if actions == [] {
      InitStore();
    } else {
      RunKeeps(norm, actions[..|actions| - 1]);
      NextKeeps(Run(INIT, norm, actions[..|actions| - 1]), norm, actions[|actions| - 1]);
    }
  }

  /** What the invariant says to a user of the outbox. */
  lemma OutboxPromises(norm: Resolver.Normalizer, actions: seq<Action>, j: int)
    requires NoRetry(actions)
    ensures var s := Run(INIT, norm, actions);
            // no job is executed more than ten times, not even one that has been deleted
            && HistoryOf(s, j).runs <= MAX_ATTEMPTS
            // at most one worker holds it, and then it is running or gone
            && (forall v, w :: v in s.workers && w in s.workers && s.workers[v].job == j == s.workers[w].job ==> v == w)
            && (j in s.t.outbox ==>
                  var job := s.t.outbox[j];
                  && (job.status == Queued || job.status == BlockedByConflict ==> job.attempts == 0)
                  && (job.status == Retrying ==> 1 <= job.attempts <= 9)
                  && (job.status == DeadLetter <==> job.attempts == 10)
                  && (job.blocking.Some? <==> job.status == BlockedByConflict)
                  && (job.blocking.Some? ==> 1 <= job.blocking.value <= |s.t.conflicts|
                                             && s.t.conflicts[job.blocking.value - 1].bookId == job.bookId)
                  // a dead letter died at least 2044 s after its first failure
                  && (job.status == DeadLetter ==>
                        HistoryOf(s, j).firstFail.Some? && s.now >= HistoryOf(s, j).firstFail.value + 2044 * SECOND))
  {
    hide Identity.IdentityOK, Run, Pow2;
    RunKeeps(norm, actions);
    var s := Run(INIT, norm, actions);
    assert WorkersOK(s);
    assert j in s.history ==> s.history[j].runs <= MAX_ATTEMPTS by { assert HistoryOK(s); }
    if j in s.t.outbox {
      assert JobStateOK(s.now, s.t.outbox[j], HistoryOf(s, j));
      assert Log.JobOK(s.t, s.t.outbox[j]);
    }
  }

  // ---------------------------------------------------------------- over the rest of a run

  /** Job j has ended: it is gone, or succeeded, or a dead letter. */
  ghost predicate Ended(s: Sys, j: int) {
    1 <= j < s.t.nextJob && (j in s.t.outbox ==> s.t.outbox[j].status == Succeeded || s.t.outbox[j].status == DeadLetter)
  }

  lemma NextEnded(s: Sys, norm: Resolver.Normalizer, a: Action, j: int)
    requires SysOK(s) && !a.RetryIt? && Ended(s, j)
    ensures var u := Next(s, norm, a);
            && Ended(u, j) && HistoryOf(u, j).runs == HistoryOf(s, j).runs
            && (j in u.t.outbox ==> j in s.t.outbox && u.t.outbox[j] == s.t.outbox[j])
  {
    hide StoreOK, HistoryOK, Pipeline.Commit, RetryAt;
    JobIds(s);
    if j in s.t.outbox { assert JobStateOK(s.now, s.t.outbox[j], HistoryOf(s, j)); }
    if a.Submit? { SubmitAddsJobs(s, norm, a.raw); }
    if a.Claim? { FirstReadyIsReady(s.t, a.target, s.now, 1); }
  }

  /** A succeeded, dead or deleted job is never executed or changed again. */
  lemma {:induction false} EndedForever(s: Sys, norm: Resolver.Normalizer, actions: seq<Action>, j: int)
    requires SysOK(s) && NoRetry(actions) && Ended(s, j)
    ensures var u := Run(s, norm, actions);
            && SysOK(u) && Ended(u, j) && HistoryOf(u, j).runs == HistoryOf(s, j).runs
            && (j in u.t.outbox ==> j in s.t.outbox && u.t.outbox[j] == s.t.outbox[j])
  {
    if actions == [] {
    } else {
      var before := actions[..|actions| - 1];
      EndedForever(s, norm, before, j);
      NextKeeps(Run(s, norm, before), norm, actions[|actions| - 1]);
      NextEnded(Run(s, norm, before), norm, actions[|actions| - 1], j);
    }
  }

  /** Conflict c blocks no job. */
  ghost predicate Released(t: Tables, c: int) {
    1 <= c <= |t.conflicts| && forall j :: j in t.outbox ==> t.outbox[j].blocking != Some(c)
  }

  lemma NextReleased(s: Sys, norm: Resolver.Normalizer, a: Action, c: int)
    requires SysOK(s) && !a.RetryIt? && Released(s.t, c)
    ensures Released(Next(s, norm, a).t, c)
  {
    var u := Next(s, norm, a);
    if a.Submit? {
      SubmitAddsJobs(s, norm, a.raw);
      if u != s { Log.CanonicalAfter(s.t, norm, a.raw, s.now, s.now); }
      forall j | j in u.t.outbox ensures u.t.outbox[j].blocking != Some(c) {
        if j in s.t.outbox { assert j < s.t.nextJob by { assert Log.JobsOK(s.t); } }
      }
    }
  }

  /** Once the second statement of resolveConflict has run, whatever came
      between the two, no job is ever blocked on that conflict again. */
  lemma {:induction false} ResolvedForever(s: Sys, norm: Resolver.Normalizer, c: int, actions: seq<Action>)
    requires SysOK(s) && NoRetry(actions) && 1 <= c <= |s.t.conflicts|
    ensures var u := Run(Next(s, norm, Release(c)), norm, actions); Released(u.t, c) && SysOK(u)
  {
    var resolved := Next(s, norm, Release(c));
    if actions == [] {
      NextKeeps(s, norm, Release(c));
    } else {
      var before := actions[..|actions| - 1];
      ResolvedForever(s, norm, c, before);
      NextKeeps(Run(resolved, norm, before), norm, actions[|actions| - 1]);
      NextReleased(Run(resolved, norm, before), norm, actions[|actions| - 1], c);
    }
  }

  // ---------------------------------------------------------------- termination

  /** Statements a job can still undergo. */
  function Rank(job: Job): int {
    match job.status
    case BlockedByConflict => 22
    case Queued => 21
    case Retrying => 2 * (MAX_ATTEMPTS - job.attempts) + 1
    case Running => 2 * (MAX_ATTEMPTS - job.attempts)
    case Succeeded => 1
    case DeadLetter => 1
  }

  function RankAt(outbox: map<int, Job>, j: int): int {
    if j in outbox then Rank(outbox[j]) else 0
  }

  /** Sum of the ranks of jobs 1..n. */
  function Measure(outbox: map<int, Job>, n: nat): int {
    if n == 0 then 0 else Measure(outbox, n - 1) + RankAt(outbox, n)
  }

  lemma {:induction false} MeasureDrops(a: map<int, Job>, b: map<int, Job>, n: nat, k: int)
    requires forall j :: 1 <= j <= n ==> RankAt(b, j) <= RankAt(a, j)
    ensures Measure(b, n) <= Measure(a, n)
    ensures 1 <= k <= n && RankAt(b, k) < RankAt(a, k) ==> Measure(b, n) < Measure(a, n)
  {
    if n == 0 {
    } else {
      MeasureDrops(a, b, n - 1, k);
    }
  }

  lemma {:induction false} MeasureBounds(outbox: map<int, Job>, n: nat)
    requires forall j :: j in outbox ==> AttemptsOK(outbox[j])
    ensures 0 <= Measure(outbox, n) <= 22 * n
  {
    if n == 0 {
    } else {
      MeasureBounds(outbox, n - 1);
    }
  }

  lemma SysMeasure(s: Sys, n: nat)
    requires SysOK(s)
    ensures 0 <= Measure(s.t.outbox, n) <= 22 * n
  {
    forall j | j in s.t.outbox ensures AttemptsOK(s.t.outbox[j]) {
      assert JobStateOK(s.now, s.t.outbox[j], HistoryOf(s, j));
    }
    MeasureBounds(s.t.outbox, n);
  }

  /** Not an action that makes jobs. */
  predicate Draining(a: Action) {
    !a.Submit? && !a.ByHand? && !a.RetryIt?
  }

  lemma NextRanks(s: Sys, norm: Resolver.Normalizer, a: Action, j: int)
    requires SysOK(s) && Draining(a)
    ensures var x, y := s.t.outbox, Next(s, norm, a).t.outbox;
            && (j in y ==> j in x)
            && RankAt(y, j) <= RankAt(x, j)
            && (j in x && (j !in y || y[j] != x[j]) ==> RankAt(y, j) < RankAt(x, j))
  {
    hide StoreOK, HistoryOK, Pipeline.Commit, RetryAt, TimingOK;
    JobIds(s);
    if j in s.t.outbox { assert JobStateOK(s.now, s.t.outbox[j], HistoryOf(s, j)); }
    if a.Claim? { FirstReadyIsReady(s.t, a.target, s.now, 1); }
  }

  lemma NextSameIds(s: Sys, norm: Resolver.Normalizer, a: Action)
    requires Draining(a)
    ensures Next(s, norm, a).t.nextJob == s.t.nextJob
  {}

  lemma ChangedJob(s: Sys, norm: Resolver.Normalizer, a: Action) returns (k: int)
    requires SysOK(s) && Draining(a) && Next(s, norm, a).t.outbox != s.t.outbox
    ensures var x, y := s.t.outbox, Next(s, norm, a).t.outbox;
            k in x && (k !in y || y[k] != x[k])
  {
    hide SysOK, Next, Draining, Rank;
    var x, y := s.t.outbox, Next(s, norm, a).t.outbox;
    forall j ensures j in y ==> j in x { NextRanks(s, norm, a, j); }
    if forall j :: j in x ==> j in y && y[j] == x[j] {
      assert false;
    } else {
      k :| k in x && (k !in y || y[k] != x[k]);
    }
  }

  /** With no new jobs, every action that changes the outbox lowers the measure. */
  lemma NextDrains(s: Sys, norm: Resolver.Normalizer, a: Action)
    requires SysOK(s) && Draining(a)
    ensures var u := Next(s, norm, a); var n := s.t.nextJob - 1;
            && u.t.nextJob == s.t.nextJob && n >= 0
            && Measure(u.t.outbox, n) <= Measure(s.t.outbox, n)
            && (u.t.outbox != s.t.outbox ==> Measure(u.t.outbox, n) < Measure(s.t.outbox, n))
  {
    JobIds(s);
    NextSameIds(s, norm, a);
    hide SysOK, Next, Draining, Rank;
    var u := Next(s, norm, a);
    var n := s.t.nextJob - 1;
    forall j ensures (j in u.t.outbox ==> j in s.t.outbox) && RankAt(u.t.outbox, j) <= RankAt(s.t.outbox, j) {
      NextRanks(s, norm, a, j);
    }
    MeasureDrops(s.t.outbox, u.t.outbox, n, 0);
    if u.t.outbox != s.t.outbox {
      var k := ChangedJob(s, norm, a);
      NextRanks(s, norm, a, k);
      MeasureDrops(s.t.outbox, u.t.outbox, n, k);
    }
  }

  /** Actions of the run that change the outbox. */
  ghost function Changes(s: Sys, norm: Resolver.Normalizer, actions: seq<Action>): nat {
    if actions == [] then 0
    else
      var before := actions[..|actions| - 1];
      Changes(s, norm, before)
      + (if Run(s, norm, actions).t.outbox != Run(s, norm, before).t.outbox then 1 else 0)
  }

  lemma {:induction false} Drains(s: Sys, norm: Resolver.Normalizer, actions: seq<Action>, n: nat)
    requires SysOK(s) && n == s.t.nextJob - 1 && forall i :: 0 <= i < |actions| ==> Draining(actions[i])
    ensures var u := Run(s, norm, actions);
            && SysOK(u) && u.t.nextJob == n + 1
            && Changes(s, norm, actions) + Measure(u.t.outbox, n) <= Measure(s.t.outbox, n)
  {
    hide SysOK, Next, Draining;
    if actions == [] {
    } else {
      var before, last := actions[..|actions| - 1], actions[|actions| - 1];
      assert Draining(last);
      var mid := Run(s, norm, before);
      Drains(s, norm, before, n);
      DrainStep(mid, norm, last, n);
    }
  }

  lemma DrainStep(s: Sys, norm: Resolver.Normalizer, a: Action, n: nat)
    requires SysOK(s) && n == s.t.nextJob - 1 && Draining(a)
    ensures var u := Next(s, norm, a);
            && SysOK(u) && u.t.nextJob == n + 1
            && (if u.t.outbox != s.t.outbox then 1 else 0) + Measure(u.t.outbox, n) <= Measure(s.t.outbox, n)
  {
    hide SysOK, Next;
    NextKeeps(s, norm, a);
    NextDrains(s, norm, a);
  }

  /** From any reachable state, runs without new jobs change the outbox at most
      22 times per job ever made, however long they are. */
  lemma DrainsInBoundedSteps(s: Sys, norm: Resolver.Normalizer, actions: seq<Action>, n: nat)
    requires SysOK(s) && n == s.t.nextJob - 1 && forall i :: 0 <= i < |actions| ==> Draining(actions[i])
    ensures Changes(s, norm, actions) <= 22 * n
  {
    Drains(s, norm, actions, n);
    SysMeasure(s, n);
    SysMeasure(Run(s, norm, actions), n);
  }
}
