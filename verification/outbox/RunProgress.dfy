/** What a run of the whole system can do to one canonical row: pins, workers,
    the admin API and manual retries included. */
module RunProgress {
  import opened Model
  import opened Tables
  import opened System
  import opened StoreSafety
  import Conflicts
  import Identity
  import Log
  import Pipeline
  import Replay
  import Resolver

  /** The canonical row of book b repeats e, which was not suspicious against it. */
  predicate Moved(p: Progress, q: Progress, e: EventRow, b: int) {
    e.bookId == b && Conflicts.DetectSuspiciousJump(p, e).None? && q == Pipeline.FromEvent(e)
  }

  /** One action appends at most one event.  The row of b keeps its position, or
      takes a new event of b; a pinned row stays as it is, but for its pin. */
  lemma NextCanonical(s: Sys, norm: Resolver.Normalizer, a: Action, b: int)
    requires StoreOK(s.t) && b in s.t.canonical
    ensures var t, u := s.t, Next(s, norm, a).t;
            && b in u.canonical && t.events <= u.events
            && var p, q := t.canonical[b], u.canonical[b];
               && (p.progress == q.progress ||
                     (!p.pinned && |u.events| == |t.events| + 1 && Moved(p.progress, q.progress, u.events[|t.events|], b)))
               && (p.pinned && !a.Pin? ==> q == p)
               && (p.pinned && a.Pin? ==> q == p || q == p.(pinned := a.on))
  {
    hide Pipeline.Commit, Pipeline.EventFor, Identity.IdentityOK, Log.LogOK, Conflicts.DetectSuspiciousJump, Pipeline.FromEvent;
    if a.Submit? {
      Log.CanonicalAfter(s.t, norm, a.raw, s.now, s.now);
    } else if !a.Pin? {
      OtherSameLog(s, norm, a);
    }
  }

  /** The canonical position of b differs. */
  ghost predicate Moves(t: Tables, u: Tables, b: int) {
    b in t.canonical && b in u.canonical && t.canonical[b].progress != u.canonical[b].progress
  }

  /** Actions of the run that move the canonical position of b. */
  ghost function MoveCount(s: Sys, norm: Resolver.Normalizer, actions: seq<Action>, b: int): nat {
    if actions == [] then 0
    else
      var before := actions[..|actions| - 1];
      MoveCount(s, norm, before, b) + (if Moves(Run(s, norm, before).t, Run(s, norm, actions).t, b) then 1 else 0)
  }

  /** Each event that moves the position of b satisfies p; nothing is said of
      events that are rejected, or meet a pinned row. */
  ghost predicate MovedOnlyBy(s: Sys, norm: Resolver.Normalizer, actions: seq<Action>, b: int, p: EventRow -> bool) {
    actions == [] ||
    var before := actions[..|actions| - 1];
    var t, u := Run(s, norm, before).t, Run(s, norm, actions).t;
    MovedOnlyBy(s, norm, before, b, p) && (Moves(t, u, b) ==> u.events != [] && p(u.events[|u.events| - 1]))
  }

  /** The row of a book stays, and the log only grows. */
  lemma {:induction false} RunKeepsRow(s: Sys, norm: Resolver.Normalizer, actions: seq<Action>, b: int)
    requires StoreOK(s.t) && b in s.t.canonical
    ensures var u := Run(s, norm, actions).t; StoreOK(u) && b in u.canonical && s.t.events <= u.events
  {
    hide StoreOK, Next;
    if actions == [] {
    } else {
      var before, a := actions[..|actions| - 1], actions[|actions| - 1];
      RunKeepsRow(s, norm, before, b);
      NextKeepsStore(Run(s, norm, before), norm, a);
      NextCanonical(Run(s, norm, before), norm, a, b);
    }
  }

  /** Each move lowers the percentage by at most 0.10, when the events that move
      it report progress and neither abandon nor restart the book. */
  lemma {:induction false} RunDrift(s: Sys, norm: Resolver.Normalizer, actions: seq<Action>, b: int)
    requires StoreOK(s.t) && b in s.t.canonical && s.t.canonical[b].progress.percent.Some?
    requires MovedOnlyBy(s, norm, actions, b, Replay.Advancing)
    ensures var u := Run(s, norm, actions).t;
            && b in u.canonical && u.canonical[b].progress.percent.Some?
            && u.canonical[b].progress.percent.value
               >= s.t.canonical[b].progress.percent.value - 0.10 * MoveCount(s, norm, actions, b) as real
  {
    hide StoreOK, Next;
    if actions == [] {
    } else {
      var before, a := actions[..|actions| - 1], actions[|actions| - 1];
      var mid := Run(s, norm, before);
      RunKeepsRow(s, norm, before, b);
      NextCanonical(mid, norm, a, b);
      RunDrift(s, norm, before, b);
    }
  }

  predicate HasPosition(e: EventRow) {
    Replay.Positioned(e.locatorType)
  }

  predicate HasTotal(e: EventRow) {
    e.totalPages.Some?
  }

  /** While the locators of the events that move it are not raw the row keeps its locator type. */
  lemma {:induction false} RunKeepsLocatorType(s: Sys, norm: Resolver.Normalizer, actions: seq<Action>, b: int)
    requires StoreOK(s.t) && b in s.t.canonical && Replay.Positioned(s.t.canonical[b].progress.locatorType)
    requires MovedOnlyBy(s, norm, actions, b, HasPosition)
    ensures var u := Run(s, norm, actions).t;
            b in u.canonical && u.canonical[b].progress.locatorType == s.t.canonical[b].progress.locatorType
  {
    hide StoreOK, Next;
    if actions == [] {
    } else {
      var before, a := actions[..|actions| - 1], actions[|actions| - 1];
      var mid := Run(s, norm, before);
      RunKeepsRow(s, norm, before, b);
      NextCanonical(mid, norm, a, b);
      RunKeepsLocatorType(s, norm, before, b);
    }
  }

  /** While the events that move it report a page total the row keeps a positive one. */
  lemma {:induction false} RunKeepsTotal(s: Sys, norm: Resolver.Normalizer, actions: seq<Action>, b: int)
    requires StoreOK(s.t) && b in s.t.canonical
    requires s.t.canonical[b].progress.totalPages.Some? && s.t.canonical[b].progress.totalPages.value > 0
    requires MovedOnlyBy(s, norm, actions, b, HasTotal)
    ensures var u := Run(s, norm, actions).t;
            b in u.canonical && u.canonical[b].progress.totalPages == s.t.canonical[b].progress.totalPages
  {
    hide StoreOK, Next;
    if actions == [] {
    } else {
      var before, a := actions[..|actions| - 1], actions[|actions| - 1];
      var mid := Run(s, norm, before);
      RunKeepsRow(s, norm, before, b);
      NextCanonical(mid, norm, a, b);
      RunKeepsTotal(s, norm, before, b);
    }
  }

  /** A pinned row that nobody unpins stays exactly as it is. */
  lemma {:induction false} RunKeepsPinned(s: Sys, norm: Resolver.Normalizer, actions: seq<Action>, b: int)
    requires StoreOK(s.t) && Pipeline.Pinned(s.t, b)
    requires forall i :: 0 <= i < |actions| ==> actions[i] != Pin(b, false)
    ensures var u := Run(s, norm, actions).t; b in u.canonical && u.canonical[b] == s.t.canonical[b]
  {
    hide StoreOK, Next;
    if actions == [] {
    } else {
      var before, a := actions[..|actions| - 1], actions[|actions| - 1];
      var mid := Run(s, norm, before);
      RunKeepsPinned(s, norm, before, b);
      RunKeepsRow(s, norm, before, b);
      NextCanonical(mid, norm, a, b);
      if a.Pin? { PinOther(mid, norm, a, b); }
    }
  }

  lemma PinOther(s: Sys, norm: Resolver.Normalizer, a: Action, b: int)
    requires a.Pin? && a != Pin(b, false) && Pipeline.Pinned(s.t, b)
    ensures b in Next(s, norm, a).t.canonical && Next(s, norm, a).t.canonical[b] == s.t.canonical[b]
  {}

  // ---------------------------------------------------------------- runs without pins

  /** Without pins the row moves as the book's new events replay from it. */
  lemma RunContinuesReplay(norm: Resolver.Normalizer, actions: seq<Action>, more: seq<Action>, b: int)
    requires NoPin(actions + more) && b in Run(INIT, norm, actions).t.canonical
    ensures var t, u := Run(INIT, norm, actions).t, Run(INIT, norm, actions + more).t;
            && t.events <= u.events && b in u.canonical
            && u.canonical[b].progress
               == Replay.ReplayFrom(t.canonical[b].progress, Replay.BookLog(u.events[|t.events|..], b))
  {
    assert forall i :: 0 <= i < |actions| ==> (actions + more)[i] == actions[i];
    hide StoreOK, Run, Next, Replay.Replays, Replay.PinFree, Replay.ListsRejected;
    var s := Run(INIT, norm, actions);
    RunConcat(INIT, norm, actions, more);
    RunKeepsStore(norm, actions);
    RunKeepsRow(s, norm, more, b);
    var t, u := s.t, Run(s, norm, more).t;
    RowReplays(norm, actions, b);
    RowReplays(norm, actions + more, b);
    RowContinues(t.events, u.events, b);
  }

  lemma RowContinues(t: seq<EventRow>, u: seq<EventRow>, b: int)
    requires t <= u && Replay.ReplayBook(Replay.BookLog(t, b)).Some?
    ensures Replay.ReplayBook(Replay.BookLog(u, b))
            == Some(Replay.ReplayFrom(Replay.ReplayBook(Replay.BookLog(t, b)).value, Replay.BookLog(u[|t|..], b)))
  {
    assert u == t + u[|t|..];
    BookLogConcat(t, u[|t|..], b);
    Replay.ReplayContinues(Replay.BookLog(t, b), Replay.BookLog(u[|t|..], b));
  }

  lemma RowReplays(norm: Resolver.Normalizer, actions: seq<Action>, b: int)
    requires NoPin(actions) && b in Run(INIT, norm, actions).t.canonical
    ensures var t := Run(INIT, norm, actions).t;
            Replay.ReplayBook(Replay.BookLog(t.events, b)) == Some(t.canonical[b].progress)
  {
    RunKeepsStore(norm, actions);
    assert Log.CanonOK(Run(INIT, norm, actions).t);
    hide Run, Next, Identity.IdentityOK, Replay.Replays, Replay.PinFree, Replay.ListsRejected;
    RunReplays(norm, actions);
  }

  lemma {:induction false} BookLogConcat(x: seq<EventRow>, y: seq<EventRow>, b: int)
    ensures Replay.BookLog(x + y, b) == Replay.BookLog(x, b) + Replay.BookLog(y, b)
  {
    if y == [] {
      assert x + y == x;
    } else {
      BookLogConcat(x, y[..|y| - 1], b);
      assert (x + y)[..|x + y| - 1] == x + y[..|y| - 1];
    }
  }
}
