/** What one committed event does to every table, in the fields of the rows. */
module CommitLaws {
  import opened Model
  import opened Tables
  import opened Pipeline
  import opened Log
  import Conflicts
  import Identity
  import Resolver

  /** The row a committed event appends to the log. */
  ghost function LoggedEvent(t: Tables, u: Tables): EventRow
    requires |u.events| > |t.events|
  {
    u.events[|t.events|]
  }

  /** The log grows by one row: the event with its percentage cut at 1, an empty
      status read as unknown and an empty locator type as raw. */
  lemma EventLogged(t: Tables, norm: Resolver.Normalizer, raw: AdapterEvent, received: int, updated: int)
    requires Identity.IdentityOK(t) && LogOK(t) && ValidEvent(raw)
    ensures var r := Resolve(t, norm, raw.evidence);
            var u := Commit(t, norm, raw, received, updated);
            && |u.events| == |t.events| + 1 && u.events[..|t.events|] == t.events
            && var e := LoggedEvent(t, u);
               && e.id == |t.events| + 1 && e.bookId == r.book && e.confidence == r.confidence
               && e.source == raw.source && e.receivedAt == received && e.deviceTS == raw.deviceTS
               && e.percent == (if raw.percent.Some? && raw.percent.value > 1.0 then Some(1.0) else raw.percent)
               && e.page == raw.page && e.totalPages == raw.totalPages && e.rawLocator == raw.rawLocator
               && e.readStatus == (if raw.readStatus == NoStatus then Unknown else raw.readStatus)
               && e.locatorType == (if raw.locatorType == NoLocation then Raw else raw.locatorType)
  {
    CanonicalAfter(t, norm, raw, received, updated);
    hide Commit, Resolve, Identity.IdentityOK, LogOK, Jump, Pinned, FromEvent;
    var u := Commit(t, norm, raw, received, updated);
    assert u.events[..|t.events|] == t.events;
  }

  /** Whether a conflict is opened, and with what reason: the five rules in the
      order in which they are tried, against the unpinned row of the book. */
  lemma ConflictOpenedIff(t: Tables, norm: Resolver.Normalizer, raw: AdapterEvent, received: int, updated: int)
    requires Identity.IdentityOK(t) && LogOK(t)
    ensures var u := Commit(t, norm, raw, received, updated);
            |u.events| > |t.events| &&
            var e := LoggedEvent(t, u);
            if e.bookId !in t.canonical || t.canonical[e.bookId].pinned then u.conflicts == t.conflicts
            else
              var q := t.canonical[e.bookId].progress;
              var backward := q.percent.Some? && e.percent.Some? && q.percent.value - e.percent.value > 0.10
                              && e.readStatus != Abandoned && e.readStatus != NotStarted;
              var early := e.source == GoodreadsBridge && e.readStatus == Finished
                           && q.percent.Some? && q.percent.value < 0.85;
              var pages := q.totalPages.Some? && e.totalPages.Some? && q.totalPages.value > 0
                           && q.totalPages != e.totalPages;
              var untrusted := 1 <= e.confidence <= 59;
              var format := q.locatorType != e.locatorType
                            && q.locatorType != NoLocation && q.locatorType != Raw
                            && e.locatorType != NoLocation && e.locatorType != Raw;
              if backward then Opened(t, u, e, BackwardJump(q.percent.value, e.percent.value))
              else if early then Opened(t, u, e, GoodreadsFinishedEarly(q.percent.value))
              else if pages then Opened(t, u, e, PageCountChange(q.totalPages.value, e.totalPages.value))
              else if untrusted then Opened(t, u, e, LowConfidence(e.confidence))
              else if format then Opened(t, u, e, LocatorTypeChange(q.locatorType, e.locatorType))
              else u.conflicts == t.conflicts
  {
    CanonicalAfter(t, norm, raw, received, updated);
    hide Commit, EventFor, Identity.IdentityOK, LogOK, Pinned, FromEvent;
    var u := Commit(t, norm, raw, received, updated);
    assert LoggedEvent(t, u) == EventFor(t, norm, raw, received);
  }

  /** One more conflict: open, between the event the row repeats and the new one. */
  ghost predicate Opened(t: Tables, u: Tables, e: EventRow, reason: JumpReason)
    requires e.bookId in t.canonical
  {
    && |u.conflicts| == |t.conflicts| + 1 && u.conflicts[..|t.conflicts|] == t.conflicts
    && var c := u.conflicts[|t.conflicts|];
       && c.id == |t.conflicts| + 1 && c.bookId == e.bookId
       && c.eventA == t.canonical[e.bookId].progress.eventId && c.eventB == e.id
       && c.reason == reason && c.status == Open && c.winner == None
  }

  /** The canonical row of the event's book takes every field of the event,
      unless a conflict was opened or the row is pinned; other rows stay. */
  lemma RowReplacedIff(t: Tables, norm: Resolver.Normalizer, raw: AdapterEvent, received: int, updated: int)
    requires Identity.IdentityOK(t) && LogOK(t)
    ensures var u := Commit(t, norm, raw, received, updated);
            |u.events| > |t.events| &&
            var e := LoggedEvent(t, u);
            if u.conflicts != t.conflicts || (e.bookId in t.canonical && t.canonical[e.bookId].pinned)
            then u.canonical == t.canonical
            else
              && e.bookId in u.canonical
              && (forall b :: b != e.bookId ==> (b in u.canonical <==> b in t.canonical) && (b in t.canonical ==> u.canonical[b] == t.canonical[b]))
              && var row := u.canonical[e.bookId];
                 var q := row.progress;
                 && !row.pinned && row.updatedAt == updated
                 && q.eventId == e.id && q.updatedBy == e.source && q.percent == e.percent && q.page == e.page
                 && q.totalPages == e.totalPages && q.rawLocator == e.rawLocator
                 && q.locatorType == e.locatorType && q.readStatus == e.readStatus
  {
    CanonicalAfter(t, norm, raw, received, updated);
    hide Commit, EventFor, Identity.IdentityOK, LogOK, Conflicts.DetectSuspiciousJump;
    var u := Commit(t, norm, raw, received, updated);
    assert LoggedEvent(t, u) == EventFor(t, norm, raw, received);
    assert Jump(t, LoggedEvent(t, u)).Some? ==> |u.conflicts| > |t.conflicts|;
  }

  /** An event that abandons or restarts the book, with a trusted identity and
      in the row's format, always moves an unpinned row, however far back. */
  lemma RestartAccepted(t: Tables, norm: Resolver.Normalizer, raw: AdapterEvent, received: int, updated: int)
    requires Identity.IdentityOK(t) && LogOK(t) && ValidEvent(raw) && raw.readStatus in {Abandoned, NotStarted}
    requires var r := Resolve(t, norm, raw.evidence);
             r.book in t.canonical && !t.canonical[r.book].pinned && r.confidence >= 60
             && raw.totalPages == t.canonical[r.book].progress.totalPages
             && raw.locatorType == t.canonical[r.book].progress.locatorType
    ensures var b := Resolve(t, norm, raw.evidence).book;
            var u := Commit(t, norm, raw, received, updated);
            && u.conflicts == t.conflicts && b in u.canonical
            && u.canonical[b].progress.eventId == |t.events| + 1 && u.canonical[b].progress.readStatus == raw.readStatus
            && u.canonical[b].progress.percent == (if raw.percent.Some? && raw.percent.value > 1.0 then Some(1.0) else raw.percent)
  {
    EventLogged(t, norm, raw, received, updated);
    ConflictOpenedIff(t, norm, raw, received, updated);
    RowReplacedIff(t, norm, raw, received, updated);
    hide Commit, Resolve, Identity.IdentityOK, LogOK;
  }

  // ---------------------------------------------------------------- the outbox

  /** The readers an event is written back to, in order. */
  lemma TargetsExact(s: Source)
    ensures WritebackTargets(s) ==
            if s == Calibre then [KOReader, Moon, GoodreadsBridge]
            else if s == KOReader then [Calibre, Moon, GoodreadsBridge]
            else if s == Moon then [Calibre, KOReader, GoodreadsBridge]
            else if s == GoodreadsBridge then [Calibre, KOReader, Moon]
            else [Calibre, KOReader, Moon, GoodreadsBridge]
  {
    var one, two, three := [Calibre], [Calibre, KOReader], [Calibre, KOReader, Moon];
    assert [] + one == one && one + [KOReader] == two && two + [Moon] == three && three + [GoodreadsBridge] == ALL_TARGETS;
    assert Without([], s) == [];
    WithoutLast([], Calibre, s);
    WithoutLast(one, KOReader, s);
    WithoutLast(two, Moon, s);
    WithoutLast(three, GoodreadsBridge, s);
    hide Without;
  }

  lemma WithoutLast(all: seq<Source>, x: Source, s: Source)
    ensures Without(all + [x], s) == if x == s then Without(all, s) else Without(all, s) + [x]
  {
    assert (all + [x])[..|all|] == all;
  }

  /** Old jobs unchanged, and under the next ids one for each reader but the
      event's own: blocked on the given conflict, or queued. */
  ghost predicate JobsFor(t: Tables, u: Tables, e: EventRow, targets: seq<Source>, blocking: Option<int>) {
    && u.nextJob == t.nextJob + |targets|
    && (forall j :: j in u.outbox <==> j in t.outbox || t.nextJob <= j < u.nextJob)
    && (forall j :: j in t.outbox ==> u.outbox[j] == t.outbox[j])
    && forall j :: t.nextJob <= j < u.nextJob ==>
         var job := u.outbox[j];
         && job.bookId == e.bookId && job.target == targets[j - t.nextJob] && job.event == Some(e.id)
         && job.attempts == 0 && job.nextRetry == None && job.blocking == blocking
         && job.status == (if blocking.Some? then BlockedByConflict else Queued)
  }

  /** Which jobs an event makes: blocked on the conflict when it opens one,
      queued when its identity permits write-back, none otherwise. */
  lemma JobsMade(t: Tables, norm: Resolver.Normalizer, raw: AdapterEvent, received: int, updated: int)
    requires Identity.IdentityOK(t) && LogOK(t)
    ensures var u := Commit(t, norm, raw, received, updated);
            |u.events| > |t.events| &&
            var e := LoggedEvent(t, u);
            if u.conflicts != t.conflicts then JobsFor(t, u, e, WritebackTargets(e.source), Some(|t.conflicts| + 1))
            else if e.confidence >= 60 then JobsFor(t, u, e, WritebackTargets(e.source), None)
            else JobsFor(t, u, e, [], None)
  {
    CommitParts(t, norm, raw, received, updated);
    hide *;
    var v, u := Resolve(t, norm, raw.evidence).t, Commit(t, norm, raw, received, updated);
    var e := EventFor(t, norm, raw, received);
    RecordedJobs(v, e, updated);
    SameJobs(v, t, u, e, WritebackTargets(e.source), Some(|t.conflicts| + 1));
    SameJobs(v, t, u, e, WritebackTargets(e.source), None);
    SameJobs(v, t, u, e, [], None);
  }

  lemma SameJobs(v: Tables, t: Tables, u: Tables, e: EventRow, targets: seq<Source>, blocking: Option<int>)
    requires v.outbox == t.outbox && v.nextJob == t.nextJob
    ensures JobsFor(v, u, e, targets, blocking) ==> JobsFor(t, u, e, targets, blocking)
  {}

  /** A transaction records its event on tables that differ in the books only. */
  lemma CommitParts(t: Tables, norm: Resolver.Normalizer, raw: AdapterEvent, received: int, updated: int)
    requires Identity.IdentityOK(t) && LogOK(t)
    ensures var v := Resolve(t, norm, raw.evidence).t;
            var e := EventFor(t, norm, raw, received);
            var u := Commit(t, norm, raw, received, updated);
            && u == Record(v, e, updated) && v == t.(books := v.books, aliases := v.aliases) && JobsOK(v)
            && Jump(v, e) == Jump(t, e) && Pinned(v, e.bookId) == Pinned(t, e.bookId)
            && (Jump(t, e).Some? <==> u.conflicts != t.conflicts)
            && |u.events| > |t.events| && LoggedEvent(t, u) == e
  {
    CanonicalAfter(t, norm, raw, received, updated);
    ResolveReady(t, norm, raw, received);
    hide Record, EventFor, Identity.IdentityOK, LogOK, Conflicts.DetectSuspiciousJump;
    var v := Resolve(t, norm, raw.evidence).t;
    assert v == t.(books := v.books, aliases := v.aliases);
  }

  lemma RecordedJobs(t: Tables, e: EventRow, updated: int)
    requires JobsOK(t)
    ensures var u := Record(t, e, updated);
            if Jump(t, e).Some? then JobsFor(t, u, e, WritebackTargets(e.source), Some(|t.conflicts| + 1))
            else if e.confidence >= 60 then JobsFor(t, u, e, WritebackTargets(e.source), None)
            else JobsFor(t, u, e, [], None)
  {
    hide Enqueue, WritebackTargets, Conflicts.DetectSuspiciousJump;
    Resolver.BandsExact(e.confidence);
    var t1 := Append(t, e);
    if Jump(t, e).Some? {
      EnqueueExact(OpenConflict(t1, e, Jump(t, e).value), e.bookId, e.id, WritebackTargets(e.source), Some(|t.conflicts| + 1));
    } else {
      EnqueueExact(if Pinned(t, e.bookId) then t1 else Upsert(t1, e, updated), e.bookId, e.id, WritebackTargets(e.source), None);
    }
  }

  // ---------------------------------------------------------------- the book

  /** Signals in the order in which they are looked up. */
  function Order(k: nat): Signal {
    if k == 0 then InColumn(CalibreId) else if k == 1 then InColumn(FileHash) else if k == 2 then InColumn(EpubId)
    else if k == 3 then InColumn(GoodreadsId) else if k == 4 then InColumn(Isbn13) else if k == 5 then InColumn(Isbn10)
    else if k == 6 then InColumn(Asin) else if k == 7 then KOReaderAlias else MoonAlias
  }

  /** The evidence gives this signal, and a book carries it. */
  ghost predicate Hits(t: Tables, ev: Evidence, k: nat, b: int) {
    Key(ev, Order(k)) != "" && Identity.Named(t, Order(k), Key(ev, Order(k)), b)
  }

  /** The book found is the one the first such signal names, and none is found
      exactly when no signal names one. */
  lemma FoundIff(t: Tables, ev: Evidence, b: int)
    requires Identity.IdentityOK(t) && b > 0
    ensures FindBook(t, ev) == b <==>
            exists k: nat :: k < 9 && Hits(t, ev, k, b) && forall x: nat, c :: x < k && c > 0 ==> !Hits(t, ev, x, c)
    ensures FindBook(t, ev) == 0 <==> forall k: nat, c :: k < 9 && c > 0 ==> !Hits(t, ev, k, c)
  {
    FindRange(t, ev, 0) by { Identity.IdentityIds(t); }
    assert forall k: nat :: k < 9 ==> Order(k) == LOOKUPS[k];
    forall k: nat, c | k < 9 && c > 0
      ensures Hits(t, ev, k, c) <==> Key(ev, LOOKUPS[k]) != "" && Lookup(t, LOOKUPS[k], Key(ev, LOOKUPS[k])) == c
    {
      Identity.LookupExact(t, LOOKUPS[k], Key(ev, LOOKUPS[k]), c);
    }
    LookupsRange(t);
    hide Identity.IdentityOK, Identity.Named, Lookup, Key, Hits, Order;
    var f := Identity.FoundBy(t, ev, 0);
    if f < 9 {
      assert Hits(t, ev, f, FindBook(t, ev));
    }
  }

  lemma LookupsRange(t: Tables)
    requires Identity.IdentityOK(t)
    ensures forall signal, key :: Lookup(t, signal, key) >= 0
  {
    forall signal, key ensures Lookup(t, signal, key) >= 0 {
      if signal.InColumn? {
        Identity.FirstBookExact(t.books, signal.column, key, 0);
      } else {
        Identity.FirstAliasExact(t.aliases, AliasSource(signal), key, 0);
      }
    }
  }

  /** A book that is found is scored against its row, which gives no alias keys;
      otherwise a row is made of the evidence, its empty texts as NULL, with an
      alias for each alias key. */
  lemma ResolvedExact(t: Tables, norm: Resolver.Normalizer, ev: Evidence)
    requires Identity.IdentityOK(t)
    ensures var r := Resolve(t, norm, ev);
            var b := FindBook(t, ev);
            if b != 0 then
              && 1 <= b <= |t.books| && r.book == b && r.t == t
              && var row := t.books[b - 1];
                 var stored := Evidence(OrEmpty(row.fileHash), OrEmpty(row.epubId), OrEmpty(row.calibreId), OrEmpty(row.goodreadsId),
                                        OrEmpty(row.isbn13), OrEmpty(row.isbn10), OrEmpty(row.asin), "", "", row.title, row.authorSort);
                 r.confidence == Resolver.Score(norm, ev, stored).confidence
            else
              var id := |t.books| + 1;
              && r.book == id && r.confidence == Resolver.EvidenceQuality(ev)
              && |r.t.books| == id && r.t.books[..id - 1] == t.books
              && r.t == t.(books := r.t.books, aliases := r.t.aliases)
              && r.t.aliases == t.aliases + (if ev.koreaderDocHash == "" then [] else [Alias(id, KOReader, ev.koreaderDocHash)])
                                          + (if ev.moonKey == "" then [] else [Alias(id, Moon, ev.moonKey)])
              && var row := r.t.books[id - 1];
                 && row.id == id && row.title == ev.title && row.authorSort == ev.authorSort
                 && Stores(row.fileHash, ev.fileHash) && Stores(row.epubId, ev.epubId) && Stores(row.calibreId, ev.calibreId)
                 && Stores(row.goodreadsId, ev.goodreadsId) && Stores(row.isbn13, ev.isbn13)
                 && Stores(row.isbn10, ev.isbn10) && Stores(row.asin, ev.asin)
  {
    FindRange(t, ev, 0) by { Identity.IdentityIds(t); }
    if FindBook(t, ev) == 0 {
      Identity.CreateNeverRefused(t, ev);
      NewBookExact(|t.books| + 1, ev);
      assert (t.books + [NewBook(|t.books| + 1, ev)])[..|t.books|] == t.books;
    }
    hide Identity.IdentityOK, Resolver.Score, Resolver.EvidenceQuality, FindBook, NewBook, Stores, BothAliases;
  }

  lemma NewBookExact(id: int, ev: Evidence)
    ensures var row := NewBook(id, ev);
            && row.id == id && row.title == ev.title && row.authorSort == ev.authorSort
            && Stores(row.fileHash, ev.fileHash) && Stores(row.epubId, ev.epubId) && Stores(row.calibreId, ev.calibreId)
            && Stores(row.goodreadsId, ev.goodreadsId) && Stores(row.isbn13, ev.isbn13)
            && Stores(row.isbn10, ev.isbn10) && Stores(row.asin, ev.asin)
  {}

  /** Which UNIQUE indexes can refuse a new row: those of five columns, not of
      epub_id and isbn10, and none for an empty text. */
  lemma RefusedIff(books: seq<Book>, ev: Evidence)
    ensures !UniqueOK(books, ev) <==>
            exists i :: 0 <= i < |books| &&
              (Clashes(books[i].fileHash, ev.fileHash) || Clashes(books[i].calibreId, ev.calibreId)
               || Clashes(books[i].goodreadsId, ev.goodreadsId) || Clashes(books[i].isbn13, ev.isbn13)
               || Clashes(books[i].asin, ev.asin))
  {
    if i :| 0 <= i < |books| &&
            (Clashes(books[i].fileHash, ev.fileHash) || Clashes(books[i].calibreId, ev.calibreId)
             || Clashes(books[i].goodreadsId, ev.goodreadsId) || Clashes(books[i].isbn13, ev.isbn13)
             || Clashes(books[i].asin, ev.asin))
    {
      var c := if Clashes(books[i].fileHash, ev.fileHash) then FileHash
               else if Clashes(books[i].calibreId, ev.calibreId) then CalibreId
               else if Clashes(books[i].goodreadsId, ev.goodreadsId) then GoodreadsId
               else if Clashes(books[i].isbn13, ev.isbn13) then Isbn13 else Asin;
      assert Indexed(c) && Cell(books[i], c) == Some(Key(ev, InColumn(c)));
    }
  }

  predicate Clashes(cell: Option<string>, text: string) {
    text != "" && cell == Some(text)
  }

  /** A cell is NULL for the empty text. */
  predicate Stores(cell: Option<string>, text: string) {
    if text == "" then cell == None else cell == Some(text)
  }

  // ---------------------------------------------------------------- the statements

  /** Which statements a transaction issues, each of which may fail. */
  lemma StagesExact(t: Tables, norm: Resolver.Normalizer, raw: AdapterEvent, received: int, updated: int, x: Stage)
    requires Identity.IdentityOK(t) && LogOK(t)
    ensures var u := Commit(t, norm, raw, received, updated);
            |u.events| > |t.events| &&
            var e := LoggedEvent(t, u);
            var found := FindBook(t, raw.evidence) != 0;
            var clash := u.conflicts != t.conflicts;
            var jobs := clash || e.confidence >= 60;
            x in Stages(t, norm, raw, received) <==>
              match x
              case BeginTx | Find | InsertEvent | LoadCanonical | CommitTx => true
              case LoadBook => found
              case InsertBook => !found
              case InsertAliasRow(source) =>
                !found && ((source == KOReader && raw.evidence.koreaderDocHash != "") || (source == Moon && raw.evidence.moonKey != ""))
              case InsertConflict => clash
              case UpsertCanonical => !clash && !(e.bookId in t.canonical && t.canonical[e.bookId].pinned)
              case InsertJob(target) => jobs && target in {Calibre, KOReader, Moon, GoodreadsBridge} && target != e.source
  {
    CommitParts(t, norm, raw, received, updated);
    FindRange(t, raw.evidence, 0) by { Identity.IdentityIds(t); }
    ResolveStagesExact(t, raw.evidence, x);
    RecordStagesExact(Resolve(t, norm, raw.evidence).t, EventFor(t, norm, raw, received), x);
    assert Pinned(t, LoggedEvent(t, Commit(t, norm, raw, received, updated)).bookId)
      <==> var b := LoggedEvent(t, Commit(t, norm, raw, received, updated)).bookId; b in t.canonical && t.canonical[b].pinned;
    assert x in Stages(t, norm, raw, received) <==>
           x == BeginTx || x in ResolveStages(t, raw.evidence)
           || x in RecordStages(Resolve(t, norm, raw.evidence).t, EventFor(t, norm, raw, received));
    hide *;
  }

  lemma ResolveStagesExact(t: Tables, ev: Evidence, x: Stage)
    requires FindBook(t, ev) >= 0
    ensures var found := FindBook(t, ev) != 0;
            x in ResolveStages(t, ev) <==>
              match x
              case Find => true
              case LoadBook => found
              case InsertBook => !found
              case InsertAliasRow(source) =>
                !found && ((source == KOReader && ev.koreaderDocHash != "") || (source == Moon && ev.moonKey != ""))
              case _ => false
  {
    hide FindBook;
  }

  lemma RecordStagesExact(t: Tables, e: EventRow, x: Stage)
    ensures var clash := Jump(t, e).Some?;
            x in RecordStages(t, e) <==>
              match x
              case InsertEvent | LoadCanonical | CommitTx => true
              case InsertConflict => clash
              case UpsertCanonical => !clash && !Pinned(t, e.bookId)
              case InsertJob(target) =>
                (clash || e.confidence >= 60) && target in {Calibre, KOReader, Moon, GoodreadsBridge} && target != e.source
              case _ => false
  {
    TargetsExact(e.source);
    Resolver.BandsExact(e.confidence);
    hide Jump, Pinned, WritebackTargets, Resolver.WritebackEnabled;
  }
}
