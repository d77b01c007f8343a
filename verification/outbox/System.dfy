/** The whole store as a state machine: the pipeline, any number of outbox
    workers and the admin API take atomic steps on one database, in any order. */
module System {
  import opened Model
  import opened Tables
  import opened Outbox
  import opened Backoff
  import Resolver
  import Pipeline

  /** A worker between claim and final update: the job it read, and the reader it works for. */
  datatype Held = Held(job: int, attempts: int, target: Source)

  /** What happened to a job so far, kept after the row is gone. */
  datatype History = History(runs: nat, firstFail: Option<int>)

  datatype Sys = Sys(t: Tables, workers: map<int, Held>, now: int, history: map<int, History>)

  const INIT := Sys(EMPTY, map[], 0, map[])

  datatype Action =
    | Submit(raw: AdapterEvent, committed: bool)          // pipeline transaction, or its failure
    | Pin(book: int, on: bool)                            // environment
    | Tick(d: nat)                                        // time passes
    | Claim(worker: int, target: Source, ok: bool)
    | FinishOk(worker: int, stored: bool)
    | FinishErr(worker: int, r: real, stored: bool)
    | Close(conflict: int, winnerA: bool)                 // resolveConflict, first statement
    | Release(conflict: int)                              // resolveConflict, second statement
    | DismissIt(conflict: int)
    | DropIt(job: int)
    | ClearDead
    | ByHand(book: int, target: Source)
    | RetryIt(job: int)                                   // manual retry

  function HistoryOf(s: Sys, j: int): History {
    if j in s.history then s.history[j] else History(0, None)
  }

  function SetPin(t: Tables, book: int, on: bool): Tables {
    if book in t.canonical then t.(canonical := t.canonical[book := t.canonical[book].(pinned := on)]) else t
  }

  function DoClaim(s: Sys, worker: int, target: Source): Sys {
    var id := FirstReady(s.t, target, s.now, 1);
    if id in s.t.outbox && worker !in s.workers then
      var h := HistoryOf(s, id);
      s.(t := AfterClaim(s.t, id),
         workers := s.workers[worker := Held(id, s.t.outbox[id].attempts, target)],
         history := s.history[id := h.(runs := h.runs + 1)])
    else s
  }

  function DoFinishOk(s: Sys, worker: int, stored: bool): Sys
    requires worker in s.workers
  {
    s.(t := if stored then AfterSuccess(s.t, s.workers[worker].job) else s.t, workers := s.workers - {worker})
  }

  function DoFinishErr(s: Sys, worker: int, r: real, stored: bool): Sys
    requires worker in s.workers
  {
    var held := s.workers[worker];
    var attempts := held.attempts + 1;
    var h := HistoryOf(s, held.job);
    s.(t := if stored
            then AfterFailure(s.t, held.job, RetryAt(attempts, s.now, r), attempts >= MAX_ATTEMPTS)
            else s.t,
       workers := s.workers - {worker},
       history := s.history[held.job := if h.firstFail.None? then h.(firstFail := Some(s.now)) else h])
  }

  ghost function Next(s: Sys, norm: Resolver.Normalizer, a: Action): Sys {
    match a
    case Submit(raw, committed) =>
      if committed && Pipeline.ValidEvent(raw) then s.(t := Pipeline.Commit(s.t, norm, raw, s.now, s.now)) else s
    case Pin(book, on) => s.(t := SetPin(s.t, book, on))
    case Tick(d) => s.(now := s.now + d)
    case Claim(w, target, ok) => if ok then DoClaim(s, w, target) else s
    case FinishOk(w, stored) => if w in s.workers then DoFinishOk(s, w, stored) else s
    case FinishErr(w, r, stored) => if w in s.workers && 0.0 <= r < 1.0 then DoFinishErr(s, w, r, stored) else s
    case Close(c, winnerA) => s.(t := CloseConflict(s.t, c, winnerA))
    case Release(c) => s.(t := Unblock(s.t, c))
    case DismissIt(c) => s.(t := Dismiss(s.t, c))
    case DropIt(j) => s.(t := Drop(s.t, j))
    case ClearDead => s.(t := ClearDeadLetters(s.t))
    case ByHand(book, target) => s.(t := EnqueueByHand(s.t, book, target))
    case RetryIt(j) => s.(t := Retry(s.t, j))
  }

  /** The state after a run of actions. */
  ghost function Run(s: Sys, norm: Resolver.Normalizer, actions: seq<Action>): Sys {
    if actions == [] then s
    else Next(Run(s, norm, actions[..|actions| - 1]), norm, actions[|actions| - 1])
  }

  lemma {:induction false} RunConcat(s: Sys, norm: Resolver.Normalizer, a: seq<Action>, b: seq<Action>)
    ensures Run(s, norm, a + b) == Run(Run(s, norm, a), norm, b)
  {
    hide Next;
    if b == [] {
      assert a + b == a;
    } else {
      RunConcat(s, norm, a, b[..|b| - 1]);
      assert (a + b)[..|a + b| - 1] == a + b[..|b| - 1];
    }
  }

  ghost predicate NoRetry(actions: seq<Action>) {
    forall i :: 0 <= i < |actions| ==> !actions[i].RetryIt?
  }

  ghost predicate NoPin(actions: seq<Action>) {
    forall i :: 0 <= i < |actions| ==> !actions[i].Pin?
  }
}
