/** The event pipeline: resolve a book, append to the log, maintain the
    canonical row, open conflicts and enqueue write-back jobs, in one
    transaction.

    `Commit` is the effect of a transaction whose every statement succeeds; the
    method `Process` performs the statements one by one on the database, any of
    which may fail, and is proved to do all of `Commit` or nothing. */
module Pipeline {
  import opened Model
  import opened Tables
  import Resolver
  import Conflicts

  // ---------------------------------------------------------------- validation

  predicate ValidEvent(ev: AdapterEvent) {
    ev.source != NoSource && (ev.percent.Some? ==> 0.0 <= ev.percent.value <= 1.01)
  }

  function NormalizeEvent(ev: AdapterEvent): (r: AdapterEvent)
    ensures r.percent.Some? ==> 0.0 <= r.percent.value <= 1.0
    ensures r.readStatus != NoStatus && r.locatorType != NoLocation
    ensures (ev.percent.Some? && 0.0 <= ev.percent.value <= 1.0 && ev.readStatus != NoStatus
             && ev.locatorType != NoLocation) ==> r == ev
  {
    ev.(percent := if ev.percent.None? then None
                   else if ev.percent.value > 1.0 then Some(1.0)
                   else if ev.percent.value < 0.0 then Some(0.0)
                   else ev.percent,
        readStatus := if ev.readStatus == NoStatus then Unknown else ev.readStatus,
        locatorType := if ev.locatorType == NoLocation then Raw else ev.locatorType)
  }

  // ---------------------------------------------------------------- identity

  /** Lookup order of `findBookByEvidence`. */
  const LOOKUPS: seq<Signal> := [
    InColumn(CalibreId), InColumn(FileHash), InColumn(EpubId), InColumn(GoodreadsId),
    InColumn(Isbn13), InColumn(Isbn10), InColumn(Asin), KOReaderAlias, MoonAlias]

  /** Id of the first book from position n on with this key in column c, 0 if none. */
  function FirstBook(books: seq<Book>, c: Column, key: string, n: nat): int
    requires n <= |books|
    decreases |books| - n
  {
    if n == |books| then 0
    else if Cell(books[n], c) == Some(key) then books[n].id
    else FirstBook(books, c, key, n + 1)
  }

  function FirstAlias(aliases: seq<Alias>, source: Source, key: string, n: nat): int
    requires n <= |aliases|
    decreases |aliases| - n
  {
    if n == |aliases| then 0
    else if aliases[n].source == source && aliases[n].key == key then aliases[n].bookId
    else FirstAlias(aliases, source, key, n + 1)
  }

  function AliasSource(signal: Signal): Source
    requires !signal.InColumn?
  {
    if signal.KOReaderAlias? then KOReader else Moon
  }

  function Lookup(t: Tables, signal: Signal, key: string): int {
    if signal.InColumn? then FirstBook(t.books, signal.column, key, 0)
    else FirstAlias(t.aliases, AliasSource(signal), key, 0)
  }

  function FindFrom(t: Tables, ev: Evidence, n: nat): int
    requires n <= |LOOKUPS|
    decreases |LOOKUPS| - n
  {
    if n == |LOOKUPS| then 0
    else
      var key := Key(ev, LOOKUPS[n]);
      if key != "" && Lookup(t, LOOKUPS[n], key) != 0 then Lookup(t, LOOKUPS[n], key)
      else FindFrom(t, ev, n + 1)
  }

  /** The book this evidence names, 0 if none. */
  function FindBook(t: Tables, ev: Evidence): int {
    FindFrom(t, ev, 0)
  }

  function NullStr(s: string): Option<string> {
    if s == "" then None else Some(s)
  }

  function OrEmpty(s: Option<string>): string {
    if s.Some? then s.value else ""
  }

  function NewBook(id: int, ev: Evidence): Book {
    Book(id, NullStr(ev.fileHash), NullStr(ev.epubId), NullStr(ev.calibreId), NullStr(ev.goodreadsId),
         NullStr(ev.isbn13), NullStr(ev.isbn10), NullStr(ev.asin), ev.title, ev.authorSort)
  }

  /** A books row read back as evidence; the alias keys are not loaded. */
  function LoadEvidence(b: Book): Evidence {
    Evidence(OrEmpty(b.fileHash), OrEmpty(b.epubId), OrEmpty(b.calibreId), OrEmpty(b.goodreadsId),
             OrEmpty(b.isbn13), OrEmpty(b.isbn10), OrEmpty(b.asin), "", "", b.title, b.authorSort)
  }

  /** Columns carrying a UNIQUE index. */
  predicate Indexed(c: Column) {
    c != EpubId && c != Isbn10
  }

  /** No UNIQUE index refuses a row for this evidence. */
  predicate UniqueOK(books: seq<Book>, ev: Evidence) {
    forall c: Column, i :: 0 <= i < |books| && Indexed(c) && Key(ev, InColumn(c)) != "" ==>
      Cell(books[i], c) != Some(Key(ev, InColumn(c)))
  }

  predicate HasAlias(aliases: seq<Alias>, source: Source, key: string) {
    exists i :: 0 <= i < |aliases| && aliases[i].source == source && aliases[i].key == key
  }

  /** INSERT OR IGNORE of one alias row; empty keys are skipped. */
  function InsertAlias(aliases: seq<Alias>, book: int, source: Source, key: string): seq<Alias> {
    if key == "" || HasAlias(aliases, source, key) then aliases else aliases + [Alias(book, source, key)]
  }

  function CreateBook(t: Tables, ev: Evidence): Tables {
    var id := |t.books| + 1;
    t.(books := t.books + [NewBook(id, ev)],
       aliases := BothAliases(t.aliases, id, ev))
  }

  datatype Resolved = Resolved(t: Tables, book: int, confidence: int)

  ghost function Resolve(t: Tables, norm: Resolver.Normalizer, ev: Evidence): Resolved {
    var book := FindBook(t, ev);
    if 0 < book <= |t.books|
    then Resolved(t, book, Resolver.Score(norm, ev, LoadEvidence(t.books[book - 1])).confidence)
    else Resolved(CreateBook(t, ev), |t.books| + 1, Resolver.EvidenceQuality(ev))
  }

  // ---------------------------------------------------------------- the log and what it drives

  function NewEvent(id: int, book: int, confidence: int, ev: AdapterEvent, now: int): EventRow {
    EventRow(id, book, ev.source, now, ev.deviceTS, ev.percent, ev.page, ev.totalPages,
             ev.rawLocator, ev.locatorType, ev.readStatus, confidence)
  }

  /** The canonical position an event sets. */
  function FromEvent(e: EventRow): Progress {
    Progress(e.source, e.id, e.percent, e.page, e.totalPages, e.rawLocator, e.locatorType, e.readStatus)
  }

  predicate Pinned(t: Tables, book: int) {
    book in t.canonical && t.canonical[book].pinned
  }

  /** The jump check of the pipeline: only an unpinned canonical row is compared. */
  function Jump(t: Tables, e: EventRow): Option<JumpReason> {
    if e.bookId in t.canonical && !t.canonical[e.bookId].pinned
    then Conflicts.DetectSuspiciousJump(t.canonical[e.bookId].progress, e)
    else None
  }

  function Without(all: seq<Source>, s: Source): seq<Source> {
    if all == [] then []
    else Without(all[..|all| - 1], s) + (if all[|all| - 1] != s then [all[|all| - 1]] else [])
  }

  const ALL_TARGETS := [Calibre, KOReader, Moon, GoodreadsBridge]

  function WritebackTargets(originator: Source): seq<Source> {
    Without(ALL_TARGETS, originator)
  }

  function AddJob(t: Tables, job: Job): Tables {
    t.(outbox := t.outbox[t.nextJob := job], nextJob := t.nextJob + 1)
  }

  function NewJob(book: int, event: int, target: Source, blocking: Option<int>): Job {
    Job(book, target, if blocking.Some? then BlockedByConflict else Queued, 0, None, Some(event), blocking)
  }

  /** One job per target, blocked when a conflict is given. */
  function Enqueue(t: Tables, book: int, event: int, targets: seq<Source>, blocking: Option<int>): Tables {
    if targets == [] then t
    else AddJob(Enqueue(t, book, event, targets[..|targets| - 1], blocking),
                NewJob(book, event, targets[|targets| - 1], blocking))
  }

  function Append(t: Tables, e: EventRow): Tables {
    t.(events := t.events + [e])
  }

  function OpenConflict(t: Tables, e: EventRow, reason: JumpReason): Tables
    requires e.bookId in t.canonical
  {
    t.(conflicts := t.conflicts +
       [Conflict(|t.conflicts| + 1, e.bookId, t.canonical[e.bookId].progress.eventId, e.id, reason, Open, None)])
  }

  function Upsert(t: Tables, e: EventRow, now: int): Tables {
    t.(canonical := t.canonical[e.bookId := Canon(FromEvent(e), now, Pinned(t, e.bookId))])
  }

  /** What appending e does to the canonical row, the conflicts and the outbox. */
  function Record(t: Tables, e: EventRow, now: int): Tables {
    var t1 := Append(t, e);
    var jump := Jump(t, e);
    if jump.Some? then
      Enqueue(OpenConflict(t1, e, jump.value), e.bookId, e.id, WritebackTargets(e.source), Some(|t.conflicts| + 1))
    else
      var t2 := if Pinned(t, e.bookId) then t1 else Upsert(t1, e, now);
      if Resolver.WritebackEnabled(e.confidence)
      then Enqueue(t2, e.bookId, e.id, WritebackTargets(e.source), None)
      else t2
  }

  /** The row `raw` appends to the log. */
  ghost function EventFor(t: Tables, norm: Resolver.Normalizer, raw: AdapterEvent, received: int): EventRow {
    var r := Resolve(t, norm, raw.evidence);
    NewEvent(|t.events| + 1, r.book, r.confidence, NormalizeEvent(raw), received)
  }

  /** The whole transaction. */
  ghost function Commit(t: Tables, norm: Resolver.Normalizer, raw: AdapterEvent, received: int, updated: int): Tables {
    Record(Resolve(t, norm, raw.evidence).t, EventFor(t, norm, raw, received), updated)
  }

  // ---------------------------------------------------------------- the statements, one by one

  datatype Stage =
    | BeginTx | Find | LoadBook | InsertBook | InsertAliasRow(source: Source) | InsertEvent | LoadCanonical
    | InsertConflict | UpsertCanonical | InsertJob(target: Source) | CommitTx

  datatype Outcome = Committed | InvalidEvent | Failed(at: Stage)

  function JobStages(targets: seq<Source>): set<Stage> {
    set s | s in targets :: InsertJob(s)
  }

  /** Statements of the create branch. */
  function CreateStages(ev: Evidence): set<Stage> {
    {InsertBook}
    + (if ev.koreaderDocHash != "" then {InsertAliasRow(KOReader)} else {})
    + (if ev.moonKey != "" then {InsertAliasRow(Moon)} else {})
  }

  function ResolveStages(t: Tables, ev: Evidence): set<Stage> {
    {Find} + (if FindBook(t, ev) > 0 then {LoadBook} else CreateStages(ev))
  }

  /** Statements that follow the resolution, for event row e. */
  function RecordStages(t: Tables, e: EventRow): set<Stage> {
    {InsertEvent, LoadCanonical, CommitTx}
    + (if Jump(t, e).Some? then {InsertConflict} + JobStages(WritebackTargets(e.source))
       else (if Pinned(t, e.bookId) then {} else {UpsertCanonical})
            + (if Resolver.WritebackEnabled(e.confidence) then JobStages(WritebackTargets(e.source)) else {}))
  }

  ghost function Stages(t: Tables, norm: Resolver.Normalizer, raw: AdapterEvent, received: int): set<Stage> {
    {BeginTx} + ResolveStages(t, raw.evidence)
    + RecordStages(Resolve(t, norm, raw.evidence).t, EventFor(t, norm, raw, received))
  }

  /** Ids are row positions, and aliases name existing books. */
  predicate IdsOK(t: Tables) {
    && (forall i :: 0 <= i < |t.books| ==> t.books[i].id == i + 1)
    && (forall i :: 0 <= i < |t.aliases| ==> 1 <= t.aliases[i].bookId <= |t.books|)
  }

  lemma {:induction false} FirstBookRange(books: seq<Book>, c: Column, key: string, n: nat)
    requires n <= |books| && forall i :: 0 <= i < |books| ==> books[i].id == i + 1
    ensures 0 <= FirstBook(books, c, key, n) <= |books|
    decreases |books| - n
  {
    if n >= |books| {
    } else {
      FirstBookRange(books, c, key, n + 1);
    }
  }

  lemma {:induction false} FirstAliasRange(t: Tables, source: Source, key: string, n: nat)
    requires n <= |t.aliases| && IdsOK(t)
    ensures 0 <= FirstAlias(t.aliases, source, key, n) <= |t.books|
    decreases |t.aliases| - n
  {
    if n >= |t.aliases| {
    } else {
      FirstAliasRange(t, source, key, n + 1);
    }
  }

  lemma {:induction false} FindRange(t: Tables, ev: Evidence, n: nat)
    requires n <= |LOOKUPS| && IdsOK(t)
    ensures 0 <= FindFrom(t, ev, n) <= |t.books|
    decreases |LOOKUPS| - n
  {
    if n >= |LOOKUPS| {
    } else {
      var key := Key(ev, LOOKUPS[n]);
      if LOOKUPS[n].InColumn? { FirstBookRange(t.books, LOOKUPS[n].column, key, 0); }
      else { FirstAliasRange(t, AliasSource(LOOKUPS[n]), key, 0); }
      FindRange(t, ev, n + 1);
    }
  }

  method FindBookByEvidence(db: Database, ev: Evidence) returns (book: int)
    ensures book == FindBook(db.View(), ev)
  {
    for n := 0 to |LOOKUPS|
      invariant FindBook(db.View(), ev) == FindFrom(db.View(), ev, n)
    {
      var key := Key(ev, LOOKUPS[n]);
      if key == "" { continue; }
      var id := SelectOne(db, LOOKUPS[n], key);
      if id != 0 { return id; }
    }
    return 0;
  }

  /** SELECT ... LIMIT 1 on a column or on the alias table. */
  method SelectOne(db: Database, signal: Signal, key: string) returns (id: int)
    ensures id == Lookup(db.View(), signal, key)
  {
    if signal.InColumn? {
      for i := 0 to |db.books|
        invariant Lookup(db.View(), signal, key) == FirstBook(db.books, signal.column, key, i)
      {
        if Cell(db.books[i], signal.column) == Some(key) { return db.books[i].id; }
      }
    } else {
      for i := 0 to |db.aliases|
        invariant Lookup(db.View(), signal, key) == FirstAlias(db.aliases, AliasSource(signal), key, i)
      {
        if db.aliases[i].source == AliasSource(signal) && db.aliases[i].key == key { return db.aliases[i].bookId; }
      }
    }
    return 0;
  }

  function BothAliases(aliases: seq<Alias>, book: int, ev: Evidence): seq<Alias> {
    InsertAlias(InsertAlias(aliases, book, KOReader, ev.koreaderDocHash), book, Moon, ev.moonKey)
  }

  method InsertBookAliases(db: Database, book: int, ev: Evidence, faults: set<Stage>) returns (at: Option<Stage>)
    modifies db`aliases
    ensures at.None? <==> CreateStages(ev) - {InsertBook} !! faults
    ensures at.None? ==> db.aliases == BothAliases(old(db.aliases), book, ev)
  {
    var rows := [(KOReader, ev.koreaderDocHash), (Moon, ev.moonKey)];
    for n := 0 to 2
      invariant n == 0 ==> db.aliases == old(db.aliases)
      invariant n == 1 ==> db.aliases == InsertAlias(old(db.aliases), book, KOReader, ev.koreaderDocHash)
      invariant n == 2 ==> db.aliases == BothAliases(old(db.aliases), book, ev)
      invariant n >= 1 && ev.koreaderDocHash != "" ==> InsertAliasRow(KOReader) !in faults
      invariant n >= 2 && ev.moonKey != "" ==> InsertAliasRow(Moon) !in faults
    {
      if rows[n].1 == "" { continue; }
      if InsertAliasRow(rows[n].0) in faults { return Some(InsertAliasRow(rows[n].0)); }
      db.aliases := InsertAlias(db.aliases, book, rows[n].0, rows[n].1);
    }
    return None;
  }

  method InsertNewBook(db: Database, ev: Evidence, faults: set<Stage>) returns (book: int, at: Option<Stage>)
    modifies db`books
    ensures at.None? <==> InsertBook !in faults && UniqueOK(old(db.books), ev)
    ensures at.None? ==> book == |old(db.books)| + 1 && db.books == old(db.books) + [NewBook(book, ev)]
  {
    if InsertBook in faults || !UniqueOK(db.books, ev) { return 0, Some(InsertBook); }
    book := |db.books| + 1;
    db.books := db.books + [NewBook(book, ev)];
    return book, None;
  }

  /** The create branch of resolveBook. */
  method CreateFor(db: Database, ev: Evidence, faults: set<Stage>) returns (book: int, at: Option<Stage>)
    modifies db
    ensures at.None? <==> CreateStages(ev) !! faults && UniqueOK(old(db.books), ev)
    ensures at.None? ==> book == |old(db.books)| + 1 && db.View() == CreateBook(old(db.View()), ev)
  {
    book, at := InsertNewBook(db, ev, faults);
    if at.Some? { return; }
    at := InsertBookAliases(db, book, ev, faults);
  }

  /** resolveBook.  `at` names the statement that failed, if any. */
  method ResolveBook(db: Database, norm: Resolver.Normalizer, ev: Evidence, faults: set<Stage>)
      returns (book: int, confidence: int, at: Option<Stage>)
    requires IdsOK(db.View())
    modifies db
    ensures at.None? <==>
            ResolveStages(old(db.View()), ev) !! faults
            && (FindBook(old(db.View()), ev) == 0 ==> UniqueOK(old(db.View()).books, ev))
    ensures at.None? ==> Resolved(db.View(), book, confidence) == Resolve(old(db.View()), norm, ev)
  {
    confidence, at := 0, None;
    if Find in faults { return 0, 0, Some(Find); }
    book := FindBookByEvidence(db, ev);
    FindRange(db.View(), ev, 0);
    if book > 0 {
      if LoadBook in faults { return 0, 0, Some(LoadBook); }
      var m := Resolver.ComputeScore(norm, ev, LoadEvidence(db.books[book - 1]));
      return book, m.confidence, None;
    }
    book, at := CreateFor(db, ev, faults);
    if at.Some? { return; }
    confidence := Resolver.EvidenceQuality(ev);
  }

  lemma {:induction false} WithoutNeverEchoes(all: seq<Source>, s: Source)
    ensures s !in Without(all, s)
    ensures forall x :: x in Without(all, s) <==> x in all && x != s
  {
    if all == [] {
    } else {
      WithoutNeverEchoes(all[..|all| - 1], s);
      assert all == all[..|all| - 1] + [all[|all| - 1]];
    }
  }

  /** enqueueWritebacks and enqueueBlockedJobs. */
  method EnqueueJobs(db: Database, book: int, event: int, originator: Source, blocking: Option<int>, faults: set<Stage>)
      returns (at: Option<Stage>)
    modifies db
    ensures at.None? <==> JobStages(WritebackTargets(originator)) !! faults
    ensures at.None? ==> db.View() == Enqueue(old(db.View()), book, event, WritebackTargets(originator), blocking)
  {
    var targets := WritebackTargets(originator);
    assert targets[..|targets|] == targets;
    for n := 0 to |targets|
      invariant db.View() == Enqueue(old(db.View()), book, event, targets[..n], blocking)
      invariant forall k :: 0 <= k < n ==> InsertJob(targets[k]) !in faults
    {
      if InsertJob(targets[n]) in faults {
        assert InsertJob(targets[n]) in JobStages(targets);
        return Some(InsertJob(targets[n]));
      }
      assert targets[..n + 1][..n] == targets[..n];
      db.outbox := db.outbox[db.nextJob := NewJob(book, event, targets[n], blocking)];
      db.nextJob := db.nextJob + 1;
    }
    return None;
  }

  /** The part of `process` after the book is known. */
  method RecordEvent(db: Database, e: EventRow, deviceTS: Option<int>, now: int, faults: set<Stage>) returns (at: Option<Stage>)
    requires e.id == |db.events| + 1
    modifies db
    ensures at.None? <==> RecordStages(old(db.View()), e) !! faults
    ensures at.None? ==> db.View() == Record(old(db.View()), e, now)
  {
    if InsertEvent in faults { return Some(InsertEvent); }
    db.events := db.events + [e];
    if LoadCanonical in faults { return Some(LoadCanonical); }
    var canon := if e.bookId in db.canonical then Some(db.canonical[e.bookId]) else None;
    var conflictID: Option<int> := None;
    if canon.Some? && !canon.value.pinned {
      var jump := Conflicts.DetectSuspiciousJump(canon.value.progress, e);
      if jump.Some? {
        if InsertConflict in faults { return Some(InsertConflict); }
        conflictID := Some(|db.conflicts| + 1);
        db.conflicts := db.conflicts +
          [Conflict(|db.conflicts| + 1, e.bookId, canon.value.progress.eventId, e.id, jump.value, Open, None)];
      }
    }
    var updateCanon := true;
    if conflictID.Some? {
      var params := Conflicts.AutoResolveParams(
        deviceTS.Some?, e.confidence >= 80, false, Resolver.WritebackEnabled(e.confidence),
        canon.None? || !canon.value.pinned);
      if !Conflicts.CanAutoResolve(params) { updateCanon := false; }
    }
    if updateCanon && (canon.None? || !canon.value.pinned) {
      if UpsertCanonical in faults { return Some(UpsertCanonical); }
      db.canonical := db.canonical[e.bookId := Canon(FromEvent(e), now, canon.Some? && canon.value.pinned)];
    }
    if Resolver.WritebackEnabled(e.confidence) && conflictID.None? {
      at := EnqueueJobs(db, e.bookId, e.id, e.source, None, faults);
      if at.Some? { return; }
    } else if conflictID.Some? {
      at := EnqueueJobs(db, e.bookId, e.id, e.source, conflictID, faults);
      if at.Some? { return; }
    }
    if CommitTx in faults { return Some(CommitTx); }
    return None;
  }

  /** Pipeline.process: all of `Commit`, or nothing. */
  method Process(db: Database, norm: Resolver.Normalizer, raw: AdapterEvent, received: int, updated: int, faults: set<Stage>)
      returns (r: Outcome)
    requires IdsOK(db.View())
    modifies db
    ensures r == InvalidEvent <==> raw.source == NoSource || (raw.percent.Some? && !(0.0 <= raw.percent.value <= 1.01))
    ensures r == Committed <==>
            ValidEvent(raw) && Stages(old(db.View()), norm, raw, received) !! faults
            && (FindBook(old(db.View()), raw.evidence) == 0 ==> UniqueOK(old(db.View()).books, raw.evidence))
    ensures r == Committed ==> db.View() == Commit(old(db.View()), norm, raw, received, updated)
    ensures r != Committed ==> db.View() == old(db.View())
  {
    if !ValidEvent(raw) { return InvalidEvent; }
    var ev := NormalizeEvent(raw);
    if BeginTx in faults { return Failed(BeginTx); }
    var before := db.View();
    var book, confidence, at := ResolveBook(db, norm, ev.evidence, faults);
    if at.Some? {
      db.Rollback(before);
      return Failed(at.value);
    }
    var e := NewEvent(|db.events| + 1, book, confidence, ev, received);
    assert e == EventFor(before, norm, raw, received);
    at := RecordEvent(db, e, ev.deviceTS, updated, faults);
    if at.Some? {
      db.Rollback(before);
      return Failed(at.value);
    }
    return Committed;
  }
}
