/** What every action keeps of the store, in every run, manual retries included. */
module StoreSafety {
  import opened Model
  import opened Tables
  import opened Outbox
  import opened Backoff
  import opened System
  import opened Log
  import Identity
  import Replay
  import Pipeline
  import Resolver

  ghost predicate StoreOK(t: Tables) {
    Identity.IdentityOK(t) && LogOK(t)
  }

  /** u's jobs are t's jobs, some dropped, some unblocked, some in another state. */
  ghost predicate SameLinks(t: Tables, u: Tables) {
    && u == t.(outbox := u.outbox)
    && u.outbox.Keys <= t.outbox.Keys
    && forall j :: j in u.outbox ==>
         var a, b := t.outbox[j], u.outbox[j];
         b.bookId == a.bookId && b.target == a.target && b.event == a.event && (b.blocking == a.blocking || b.blocking.None?)
  }

  lemma SameLinksKeepsStore(t: Tables, u: Tables)
    requires StoreOK(t) && SameLinks(t, u)
    ensures StoreOK(u)
  {
    forall i | 0 <= i < |u.conflicts| ensures ConflictOK(u, u.conflicts[i]) { assert ConflictOK(t, t.conflicts[i]); }
    forall j | j in u.outbox ensures 1 <= j < u.nextJob && JobOK(u, u.outbox[j]) {
      assert j in t.outbox && JobOK(t, t.outbox[j]);
    }
  }

  /** A conflict row changes its status, and its winner to one of its two events. */
  lemma ConflictUpdateKeepsStore(t: Tables, c: int, row: Conflict)
    requires StoreOK(t) && 1 <= c <= |t.conflicts|
    requires var before := t.conflicts[c - 1];
             row == before.(status := row.status, winner := row.winner)
             && (row.winner.Some? ==> row.winner == before.winner || row.winner.value in {before.eventA, before.eventB})
    ensures StoreOK(t.(conflicts := t.conflicts[c - 1 := row]))
  {
    var u := t.(conflicts := t.conflicts[c - 1 := row]);
    forall i | 0 <= i < |u.conflicts| ensures u.conflicts[i].id == i + 1 && ConflictOK(u, u.conflicts[i]) {
      assert ConflictOK(t, t.conflicts[i]);
    }
    forall j | j in u.outbox ensures JobOK(u, u.outbox[j]) { assert JobOK(t, t.outbox[j]); }
  }

  lemma ByHandKeepsStore(t: Tables, book: int, target: Source)
    requires StoreOK(t)
    ensures StoreOK(EnqueueByHand(t, book, target))
  {
    var u := EnqueueByHand(t, book, target);
    forall i | 0 <= i < |u.conflicts| ensures ConflictOK(u, u.conflicts[i]) { assert ConflictOK(t, t.conflicts[i]); }
    forall j | j in u.outbox ensures 1 <= j < u.nextJob && JobOK(u, u.outbox[j]) {
      if j in t.outbox { assert JobOK(t, t.outbox[j]); }
    }
  }

  lemma PinKeepsStore(t: Tables, book: int, on: bool)
    requires StoreOK(t)
    ensures StoreOK(SetPin(t, book, on))
  {
    var u := SetPin(t, book, on);
    forall i | 0 <= i < |u.conflicts| ensures ConflictOK(u, u.conflicts[i]) { assert ConflictOK(t, t.conflicts[i]); }
    forall j | j in u.outbox ensures JobOK(u, u.outbox[j]) { assert JobOK(t, t.outbox[j]); }
  }

  lemma NextKeepsStore(s: Sys, norm: Resolver.Normalizer, a: Action)
    requires StoreOK(s.t)
    ensures StoreOK(Next(s, norm, a).t)
  {
    hide Pipeline.Commit, Identity.IdentityOK, LogOK, SameLinks, Unblock, Drop, ClearDeadLetters, EnqueueByHand, SetPin;
    var u := Next(s, norm, a).t;
    match a
    case Submit(raw, committed) =>
      Identity.CommitKeepsIdentity(s.t, norm, raw, s.now, s.now);
      CommitKeepsLog(s.t, norm, raw, s.now, s.now);
    case Pin(book, on) => PinKeepsStore(s.t, book, on);
    case Close(c, winnerA) =>
      if 1 <= c <= |s.t.conflicts| { ConflictUpdateKeepsStore(s.t, c, u.conflicts[c - 1]); }
    case DismissIt(c) =>
      if 1 <= c <= |s.t.conflicts| { ConflictUpdateKeepsStore(s.t, c, u.conflicts[c - 1]); }
    case ByHand(book, target) => ByHandKeepsStore(s.t, book, target);
    case _ =>
      OtherSameLinks(s, norm, a);
      SameLinksKeepsStore(s.t, u);
  }

  lemma OtherSameLinks(s: Sys, norm: Resolver.Normalizer, a: Action)
    requires !a.Submit? && !a.Pin? && !a.Close? && !a.DismissIt? && !a.ByHand?
    ensures SameLinks(s.t, Next(s, norm, a).t)
  {
    hide FirstReady, RetryAt;
  }

  lemma InitStore()
    ensures StoreOK(INIT.t) && Replay.PinFree(INIT.t) && Replay.Replays(INIT.t)
  {
    assert Replay.Abstract(INIT.t).canon == map[];
  }

  /** In every reachable state the identifier columns and alias namespaces are
      injective, every book has a canonical row copied from one of its events,
      every conflict opposes two events of its book, and every job belongs to
      the book of its event and of its conflict. */
  lemma {:induction false} RunKeepsStore(norm: Resolver.Normalizer, actions: seq<Action>)
    ensures StoreOK(Run(INIT, norm, actions).t)
  {
    if actions == [] {
      InitStore();
    } else {
      RunKeepsStore(norm, actions[..|actions| - 1]);
      NextKeepsStore(Run(INIT, norm, actions[..|actions| - 1]), norm, actions[|actions| - 1]);
    }
  }

  // ---------------------------------------------------------------- replay

  lemma NextReplays(s: Sys, norm: Resolver.Normalizer, a: Action)
    requires StoreOK(s.t) && !a.Pin? && Replay.PinFree(s.t) && Replay.Replays(s.t)
    ensures Replay.PinFree(Next(s, norm, a).t) && Replay.Replays(Next(s, norm, a).t)
  {
    hide Pipeline.Commit, Identity.IdentityOK, LogOK;
    if a.Submit? {
      Replay.CommitReplays(s.t, norm, a.raw, s.now, s.now);
    } else {
      OtherSameLog(s, norm, a);
    }
  }

  lemma OtherSameLog(s: Sys, norm: Resolver.Normalizer, a: Action)
    requires !a.Submit? && !a.Pin?
    ensures var u := Next(s, norm, a).t;
            && u.canonical == s.t.canonical && u.events == s.t.events
            && Replay.Cores(u.conflicts) == Replay.Cores(s.t.conflicts)
  {
    hide FirstReady, RetryAt;
    var u := Next(s, norm, a).t;
    assert |u.conflicts| == |s.t.conflicts|;
  }

  /** In every state a pin-free run reaches, the canonical rows and the
      conflicts are the replay of the log; resolving, dismissing, retrying and
      dropping do not show in it. */
  lemma {:induction false} RunReplays(norm: Resolver.Normalizer, actions: seq<Action>)
    requires NoPin(actions)
    ensures var t := Run(INIT, norm, actions).t;
            && Replay.PinFree(t) && Replay.Replays(t)
            && Replay.ListsRejected(t.events, Replay.Cores(t.conflicts))
            && forall b :: 1 <= b <= |t.books| ==>
                 b in t.canonical && Replay.ReplayBook(Replay.BookLog(t.events, b)) == Some(t.canonical[b].progress)
  {
    RunReplaysGlobally(norm, actions);
    RunKeepsStore(norm, actions);
    Replay.TablesReplay(Run(INIT, norm, actions).t);
  }

  lemma {:induction false} RunReplaysGlobally(norm: Resolver.Normalizer, actions: seq<Action>)
    requires NoPin(actions)
    ensures var t := Run(INIT, norm, actions).t; Replay.PinFree(t) && Replay.Replays(t)
  {
    if actions == [] {
      InitStore();
    } else {
      var before := actions[..|actions| - 1];
      RunReplaysGlobally(norm, before);
      RunKeepsStore(norm, before);
      NextReplays(Run(INIT, norm, before), norm, actions[|actions| - 1]);
    }
  }

  // ---------------------------------------------------------------- identity over runs

  lemma {:induction false} RunExtends(s: Sys, norm: Resolver.Normalizer, actions: seq<Action>)
    requires StoreOK(s.t)
    ensures StoreOK(Run(s, norm, actions).t) && Identity.Extends(s.t, Run(s, norm, actions).t)
  {
    hide StoreOK, Next, Identity.Extends;
    if actions == [] {
      Identity.ExtendsItself(s.t);
    } else {
      var before := actions[..|actions| - 1];
      var a := actions[|actions| - 1];
      var mid := Run(s, norm, before);
      RunExtends(s, norm, before);
      NextKeepsStore(mid, norm, a);
      NextExtends(mid, norm, a);
      Identity.ExtendsTransitive(s.t, mid.t, Next(mid, norm, a).t);
    }
  }

  lemma NextExtends(s: Sys, norm: Resolver.Normalizer, a: Action)
    requires StoreOK(s.t)
    ensures Identity.Extends(s.t, Next(s, norm, a).t)
  {
    hide Identity.IdentityOK, LogOK, Pipeline.Commit;
    if a.Submit? { Identity.CommitKeepsIdentity(s.t, norm, a.raw, s.now, s.now); }
  }

  /** Evidence with a signal that created a book keeps naming that book,
      whatever any party does afterwards; a later submission of it creates nothing. */
  lemma CreatorResolvesInEveryRun(norm: Resolver.Normalizer, before: seq<Action>, raw: AdapterEvent, after: seq<Action>)
    requires Pipeline.ValidEvent(raw)
    requires Pipeline.FindBook(Run(INIT, norm, before).t, raw.evidence) == 0
    requires Identity.FirstSignal(raw.evidence, 0) < |Pipeline.LOOKUPS|
    ensures var s := Run(INIT, norm, before);
            Pipeline.FindBook(Run(Next(s, norm, Submit(raw, true)), norm, after).t, raw.evidence) == |s.t.books| + 1
  {
    RunKeepsStore(norm, before);
    var s := Run(INIT, norm, before);
    var v := Next(s, norm, Submit(raw, true));
    NextKeepsStore(s, norm, Submit(raw, true));
    RunExtends(v, norm, after);
    Identity.CreatorResolvesForever(s.t, norm, raw, s.now, s.now, Run(v, norm, after).t);
  }

  /** In a reachable state no statement of a transaction is refused by a
      constraint: it commits unless the database itself fails. */
  lemma NeverRefused(norm: Resolver.Normalizer, actions: seq<Action>, ev: Evidence)
    ensures var t := Run(INIT, norm, actions).t;
            Pipeline.IdsOK(t) && (Pipeline.FindBook(t, ev) == 0 ==> Pipeline.UniqueOK(t.books, ev))
  {
    RunKeepsStore(norm, actions);
    var t := Run(INIT, norm, actions).t;
    if Pipeline.FindBook(t, ev) == 0 { Identity.CreateNeverRefused(t, ev); }
  }
}
