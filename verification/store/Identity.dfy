/** Identity: which book evidence names, now and in every later state. */
module Identity {
  import opened Model
  import opened Tables
  import opened Pipeline
  import Resolver

  /** Book b carries this key, in a column of its row or as an alias. */
  ghost predicate Named(t: Tables, signal: Signal, key: string, b: int) {
    if signal.InColumn? then 1 <= b <= |t.books| && Cell(t.books[b - 1], signal.column) == Some(key)
    else Alias(b, AliasSource(signal), key) in t.aliases
  }

  /** All seven columns and both alias namespaces are injective. */
  ghost predicate IdentityOK(t: Tables) {
    && IdsOK(t)
    && (forall c: Column, i, j :: 0 <= i < j < |t.books| && Cell(t.books[i], c).Some? ==>
          Cell(t.books[i], c) != Cell(t.books[j], c))
    && (forall c: Column, i :: 0 <= i < |t.books| ==> Cell(t.books[i], c) != Some(""))
    && (forall i, j :: 0 <= i < j < |t.aliases| ==>
          t.aliases[i].source != t.aliases[j].source || t.aliases[i].key != t.aliases[j].key)
    && (forall i :: 0 <= i < |t.aliases| ==> t.aliases[i].key != "")
  }

  // ---------------------------------------------------------------- lookups

  lemma {:induction false} FirstBookExact(books: seq<Book>, c: Column, key: string, n: nat)
    requires n <= |books| && forall i :: 0 <= i < |books| ==> books[i].id == i + 1
    ensures var b := FirstBook(books, c, key, n);
            if b == 0 then forall i :: n <= i < |books| ==> Cell(books[i], c) != Some(key)
            else n < b <= |books| && Cell(books[b - 1], c) == Some(key)
    decreases |books| - n
  {
    if n >= |books| {
    } else {
      FirstBookExact(books, c, key, n + 1);
    }
  }

  lemma {:induction false} FirstAliasExact(aliases: seq<Alias>, source: Source, key: string, n: nat)
    requires n <= |aliases| && forall i :: 0 <= i < |aliases| ==> aliases[i].bookId > 0
    ensures var b := FirstAlias(aliases, source, key, n);
            if b == 0 then forall i :: n <= i < |aliases| ==> aliases[i].source != source || aliases[i].key != key
            else Alias(b, source, key) in aliases[n..]
    decreases |aliases| - n
  {
    if n >= |aliases| {
    } else {
      FirstAliasExact(aliases, source, key, n + 1);
      assert aliases[n..] == [aliases[n]] + aliases[n + 1..];
    }
  }

  /** A LIMIT 1 lookup has at most one candidate: it returns b exactly when b is the one book carrying the key. */
  lemma LookupExact(t: Tables, signal: Signal, key: string, b: int)
    requires IdentityOK(t) && b > 0
    ensures Lookup(t, signal, key) == b <==> Named(t, signal, key, b)
  {
    if signal.InColumn? {
      var c := signal.column;
      FirstBookExact(t.books, c, key, 0);
    } else {
      FirstAliasExact(t.aliases, AliasSource(signal), key, 0);
      assert t.aliases[0..] == t.aliases;
    }
  }

  lemma LookupZero(t: Tables, signal: Signal, key: string)
    requires IdentityOK(t) && Lookup(t, signal, key) == 0
    ensures forall b :: b > 0 ==> !Named(t, signal, key, b)
  {
    forall b | b > 0 ensures !Named(t, signal, key, b) { LookupExact(t, signal, key, b); }
  }

  /** Position in LOOKUPS of the signal that finds the book, |LOOKUPS| if none does. */
  ghost function FoundBy(t: Tables, ev: Evidence, n: nat): (k: nat)
    requires n <= |LOOKUPS|
    ensures n <= k <= |LOOKUPS|
    ensures k < |LOOKUPS| ==> Key(ev, LOOKUPS[k]) != "" && Lookup(t, LOOKUPS[k], Key(ev, LOOKUPS[k])) == FindFrom(t, ev, n) != 0
    ensures k == |LOOKUPS| ==> FindFrom(t, ev, n) == 0
    ensures forall x :: n <= x < k ==> Key(ev, LOOKUPS[x]) == "" || Lookup(t, LOOKUPS[x], Key(ev, LOOKUPS[x])) == 0
    decreases |LOOKUPS| - n
  {
    if n == |LOOKUPS| || (Key(ev, LOOKUPS[n]) != "" && Lookup(t, LOOKUPS[n], Key(ev, LOOKUPS[n])) != 0) then n
    else FoundBy(t, ev, n + 1)
  }

  /** Position of the first signal the evidence supplies at all. */
  ghost function FirstSignal(ev: Evidence, n: nat): (k: nat)
    requires n <= |LOOKUPS|
    ensures n <= k <= |LOOKUPS|
    ensures k < |LOOKUPS| ==> Key(ev, LOOKUPS[k]) != ""
    ensures forall x :: n <= x < k ==> Key(ev, LOOKUPS[x]) == ""
    decreases |LOOKUPS| - n
  {
    if n == |LOOKUPS| || Key(ev, LOOKUPS[n]) != "" then n else FirstSignal(ev, n + 1)
  }

  /** Evidence whose first signal names b resolves to b. */
  lemma FirstSignalFinds(t: Tables, ev: Evidence, b: int)
    requires IdentityOK(t) && b > 0 && FirstSignal(ev, 0) < |LOOKUPS|
    requires Named(t, LOOKUPS[FirstSignal(ev, 0)], Key(ev, LOOKUPS[FirstSignal(ev, 0)]), b)
    ensures FindBook(t, ev) == b
  {
    var k := FirstSignal(ev, 0);
    LookupExact(t, LOOKUPS[k], Key(ev, LOOKUPS[k]), b);
    var f := FoundBy(t, ev, 0);
    assert f == k;
  }

  // ---------------------------------------------------------------- creation

  lemma SignalListed(signal: Signal)
    ensures exists k :: 0 <= k < |LOOKUPS| && LOOKUPS[k] == signal
  {
    var k := match signal
      case InColumn(CalibreId) => 0 case InColumn(FileHash) => 1 case InColumn(EpubId) => 2
      case InColumn(GoodreadsId) => 3 case InColumn(Isbn13) => 4 case InColumn(Isbn10) => 5
      case InColumn(Asin) => 6 case KOReaderAlias => 7 case MoonAlias => 8;
    assert LOOKUPS[k] == signal;
  }

  lemma NotFoundMeansFresh(t: Tables, ev: Evidence, signal: Signal)
    requires IdentityOK(t) && FindBook(t, ev) == 0 && Key(ev, signal) != ""
    ensures forall b :: b > 0 ==> !Named(t, signal, Key(ev, signal), b)
  {
    SignalListed(signal);
    var k :| 0 <= k < |LOOKUPS| && LOOKUPS[k] == signal;
    assert FoundBy(t, ev, 0) == |LOOKUPS|;
    LookupZero(t, signal, Key(ev, signal));
  }

  lemma NewBookCells(id: int, ev: Evidence, c: Column)
    ensures Cell(NewBook(id, ev), c) == NullStr(Key(ev, InColumn(c)))
  {}

  lemma FreshColumns(t: Tables, ev: Evidence, c: Column, i: int)
    requires IdentityOK(t) && FindBook(t, ev) == 0 && Key(ev, InColumn(c)) != "" && 0 <= i < |t.books|
    ensures Cell(t.books[i], c) != Some(Key(ev, InColumn(c)))
  {
    NotFoundMeansFresh(t, ev, InColumn(c));
    assert !Named(t, InColumn(c), Key(ev, InColumn(c)), i + 1);
  }

  lemma FreshAlias(t: Tables, ev: Evidence, signal: Signal)
    requires IdentityOK(t) && FindBook(t, ev) == 0 && !signal.InColumn? && Key(ev, signal) != ""
    ensures !HasAlias(t.aliases, AliasSource(signal), Key(ev, signal))
  {
    NotFoundMeansFresh(t, ev, signal);
    if HasAlias(t.aliases, AliasSource(signal), Key(ev, signal)) {
      var i :| 0 <= i < |t.aliases| && t.aliases[i].source == AliasSource(signal) && t.aliases[i].key == Key(ev, signal);
      assert t.aliases[i] == Alias(t.aliases[i].bookId, AliasSource(signal), Key(ev, signal));
      assert Named(t, signal, Key(ev, signal), t.aliases[i].bookId);
    }
  }

  function AliasRows(book: int, ev: Evidence): seq<Alias> {
    (if ev.koreaderDocHash == "" then [] else [Alias(book, KOReader, ev.koreaderDocHash)])
    + (if ev.moonKey == "" then [] else [Alias(book, Moon, ev.moonKey)])
  }

  /** When no book was found no UNIQUE index can refuse the new row, although
      two of the seven columns have none, and INSERT OR IGNORE ignores nothing. */
  lemma CreateNeverRefused(t: Tables, ev: Evidence)
    requires IdentityOK(t) && FindBook(t, ev) == 0
    ensures UniqueOK(t.books, ev)
    ensures CreateBook(t, ev).aliases == t.aliases + AliasRows(|t.books| + 1, ev)
  {
    forall c: Column, i | 0 <= i < |t.books| && Indexed(c) && Key(ev, InColumn(c)) != ""
      ensures Cell(t.books[i], c) != Some(Key(ev, InColumn(c)))
    {
      FreshColumns(t, ev, c, i);
    }
    if ev.koreaderDocHash != "" { FreshAlias(t, ev, KOReaderAlias); }
    if ev.moonKey != "" { FreshAlias(t, ev, MoonAlias); }
  }

  lemma CreateKeepsAliases(t: Tables, ev: Evidence)
    requires IdentityOK(t) && FindBook(t, ev) == 0
    ensures var a := CreateBook(t, ev).aliases;
            && (forall i, j :: 0 <= i < j < |a| ==> a[i].source != a[j].source || a[i].key != a[j].key)
            && (forall i :: 0 <= i < |a| ==> a[i].key != "" && 1 <= a[i].bookId <= |t.books| + 1)
  {
    CreateNeverRefused(t, ev);
    var id := |t.books| + 1;
    var a := CreateBook(t, ev).aliases;
    if ev.koreaderDocHash != "" { FreshAlias(t, ev, KOReaderAlias); }
    if ev.moonKey != "" { FreshAlias(t, ev, MoonAlias); }
    forall i, j | 0 <= i < j < |a| ensures a[i].source != a[j].source || a[i].key != a[j].key {
      if i < |t.aliases| <= j {
        assert a[j] == Alias(id, KOReader, ev.koreaderDocHash) || a[j] == Alias(id, Moon, ev.moonKey);
      }
    }
  }

  lemma CreateKeepsColumns(t: Tables, ev: Evidence)
    requires IdentityOK(t) && FindBook(t, ev) == 0
    ensures var books := CreateBook(t, ev).books;
            && (forall c: Column, i, j :: 0 <= i < j < |books| && Cell(books[i], c).Some? ==> Cell(books[i], c) != Cell(books[j], c))
            && (forall c: Column, i :: 0 <= i < |books| ==> Cell(books[i], c) != Some(""))
  {
    var n := |t.books|;
    var books := CreateBook(t, ev).books;
    forall c: Column ensures Cell(books[n], c) == NullStr(Key(ev, InColumn(c))) { NewBookCells(n + 1, ev, c); }
    forall c: Column, i, j | 0 <= i < j < |books| && Cell(books[i], c).Some?
      ensures Cell(books[i], c) != Cell(books[j], c)
    {
      if j == n && Key(ev, InColumn(c)) != "" { FreshColumns(t, ev, c, i); }
    }
  }

  /** Later states only add rows. */
  ghost predicate Extends(t: Tables, u: Tables) {
    && |t.books| <= |u.books| && u.books[..|t.books|] == t.books
    && |t.aliases| <= |u.aliases| && u.aliases[..|t.aliases|] == t.aliases
  }

  lemma NamedPersists(t: Tables, u: Tables, signal: Signal, key: string, b: int)
    requires Extends(t, u) && Named(t, signal, key, b)
    ensures Named(u, signal, key, b)
  {
    if signal.InColumn? {
      assert u.books[..|t.books|][b - 1] == u.books[b - 1];
    } else {
      var i :| 0 <= i < |t.aliases| && t.aliases[i] == Alias(b, AliasSource(signal), key);
      assert u.aliases[..|t.aliases|][i] == u.aliases[i];
    }
  }

  /** Resolving evidence keeps every column and namespace injective. */
  lemma ResolveKeepsIdentity(t: Tables, norm: Resolver.Normalizer, ev: Evidence)
    requires IdentityOK(t)
    ensures IdentityOK(Resolve(t, norm, ev).t) && Extends(t, Resolve(t, norm, ev).t)
    ensures 1 <= Resolve(t, norm, ev).book <= |Resolve(t, norm, ev).t.books|
  {
    FindRange(t, ev, 0);
    if FindBook(t, ev) == 0 {
      CreateNeverRefused(t, ev);
      CreateKeepsAliases(t, ev);
      CreateKeepsColumns(t, ev);
    }
  }

  /** Resolving evidence with a signal makes its first signal name the book it resolved to,
      provided the evidence was new. */
  lemma CreatedIsNamed(t: Tables, norm: Resolver.Normalizer, ev: Evidence, signal: Signal)
    requires IdentityOK(t) && FindBook(t, ev) == 0 && Key(ev, signal) != ""
    ensures Named(Resolve(t, norm, ev).t, signal, Key(ev, signal), |t.books| + 1)
  {
    CreateNeverRefused(t, ev);
    if signal.InColumn? {
      NewBookCells(|t.books| + 1, ev, signal.column);
    } else {
      var row := Alias(|t.books| + 1, AliasSource(signal), Key(ev, signal));
      assert row in AliasRows(|t.books| + 1, ev);
    }
  }

  // ---------------------------------------------------------------- runs of the pipeline

  lemma {:induction false} EnqueueKeeps(t: Tables, book: int, event: int, targets: seq<Source>, blocking: Option<int>)
    ensures Enqueue(t, book, event, targets, blocking)
            == t.(outbox := Enqueue(t, book, event, targets, blocking).outbox,
                  nextJob := Enqueue(t, book, event, targets, blocking).nextJob)
  {
    if targets == [] {
    } else {
      EnqueueKeeps(t, book, event, targets[..|targets| - 1], blocking);
    }
  }

  lemma RecordKeepsIdentity(t: Tables, e: EventRow, now: int)
    ensures Record(t, e, now).books == t.books && Record(t, e, now).aliases == t.aliases
    ensures Record(t, e, now).events == t.events + [e]
  {
    var jump := Jump(t, e);
    var t1 := Append(t, e);
    var targets := WritebackTargets(e.source);
    if jump.Some? {
      EnqueueKeeps(OpenConflict(t1, e, jump.value), e.bookId, e.id, targets, Some(|t.conflicts| + 1));
    } else {
      EnqueueKeeps(if Pinned(t, e.bookId) then t1 else Upsert(t1, e, now), e.bookId, e.id, targets, None);
    }
  }

  lemma CommitKeepsIdentity(t: Tables, norm: Resolver.Normalizer, raw: AdapterEvent, received: int, updated: int)
    requires IdentityOK(t)
    ensures IdentityOK(Commit(t, norm, raw, received, updated))
    ensures Extends(t, Commit(t, norm, raw, received, updated))
  {
    hide Resolve, EventFor, Record, IdentityOK;
    var v := Resolve(t, norm, raw.evidence).t;
    ResolveKeepsIdentity(t, norm, raw.evidence);
    RecordKeepsIdentity(v, EventFor(t, norm, raw, received), updated);
    SameIdentity(v, Record(v, EventFor(t, norm, raw, received), updated));
  }

  lemma SameIdentity(t: Tables, u: Tables)
    requires IdentityOK(t) && u.books == t.books && u.aliases == t.aliases
    ensures IdentityOK(u)
  {}

  datatype Submission = Submission(raw: AdapterEvent, received: int, updated: int)

  /** The tables after a sequence of committed events. */
  ghost function After(t: Tables, norm: Resolver.Normalizer, log: seq<Submission>): Tables {
    if log == [] then t
    else var s := log[|log| - 1]; Commit(After(t, norm, log[..|log| - 1]), norm, s.raw, s.received, s.updated)
  }

  lemma IdentityIds(t: Tables)
    requires IdentityOK(t)
    ensures IdsOK(t)
  {}

  lemma ExtendsItself(t: Tables)
    ensures Extends(t, t)
  {}

  lemma ExtendsTransitive(t: Tables, u: Tables, v: Tables)
    requires Extends(t, u) && Extends(u, v)
    ensures Extends(t, v)
  {
    assert v.books[..|t.books|] == v.books[..|u.books|][..|t.books|];
    assert v.aliases[..|t.aliases|] == v.aliases[..|u.aliases|][..|t.aliases|];
  }

  lemma {:induction false} AfterKeepsIdentity(t: Tables, norm: Resolver.Normalizer, log: seq<Submission>)
    requires IdentityOK(t)
    ensures IdentityOK(After(t, norm, log)) && Extends(t, After(t, norm, log))
  {
    if log == [] {
    } else {
      var s := log[|log| - 1];
      AfterKeepsIdentity(t, norm, log[..|log| - 1]);
      CommitKeepsIdentity(After(t, norm, log[..|log| - 1]), norm, s.raw, s.received, s.updated);
      ExtendsTransitive(t, After(t, norm, log[..|log| - 1]), After(t, norm, log));
    }
  }

  /** Evidence that created a book names that book in every later state. */
  lemma CreatorResolvesForever(t: Tables, norm: Resolver.Normalizer, raw: AdapterEvent, received: int, updated: int, u: Tables)
    requires IdentityOK(t) && FindBook(t, raw.evidence) == 0 && FirstSignal(raw.evidence, 0) < |LOOKUPS|
    requires IdentityOK(u) && Extends(Commit(t, norm, raw, received, updated), u)
    ensures FindBook(u, raw.evidence) == |t.books| + 1
  {
    hide IdentityOK, Named, Commit, FindBook, Extends;
    var ev := raw.evidence;
    var k := FirstSignal(ev, 0);
    var v := Commit(t, norm, raw, received, updated);
    CommitNamesCreated(t, norm, raw, received, updated, LOOKUPS[k]);
    NamedPersists(v, u, LOOKUPS[k], Key(ev, LOOKUPS[k]), |t.books| + 1);
    FirstSignalFinds(u, ev, |t.books| + 1);
  }

  /** Evidence carrying a single signal. */
  function Single(signal: Signal, key: string): Evidence {
    match signal
    case InColumn(FileHash) => NO_EVIDENCE.(fileHash := key)
    case InColumn(EpubId) => NO_EVIDENCE.(epubId := key)
    case InColumn(CalibreId) => NO_EVIDENCE.(calibreId := key)
    case InColumn(GoodreadsId) => NO_EVIDENCE.(goodreadsId := key)
    case InColumn(Isbn13) => NO_EVIDENCE.(isbn13 := key)
    case InColumn(Isbn10) => NO_EVIDENCE.(isbn10 := key)
    case InColumn(Asin) => NO_EVIDENCE.(asin := key)
    case KOReaderAlias => NO_EVIDENCE.(koreaderDocHash := key)
    case MoonAlias => NO_EVIDENCE.(moonKey := key)
  }

  lemma SingleFinds(t: Tables, k: nat, key: string)
    requires k < |LOOKUPS| && key != ""
    ensures FindBook(t, Single(LOOKUPS[k], key)) == Lookup(t, LOOKUPS[k], key)
  {
    hide Single, Key, Lookup, FirstBook, FirstAlias;
    SingleKeys(k, key);
    var ev := Single(LOOKUPS[k], key);
    var f := FoundBy(t, ev, 0);
    assert f < |LOOKUPS| ==> f == k;
  }

  lemma SingleKeys(k: nat, key: string)
    requires k < |LOOKUPS|
    ensures forall x :: 0 <= x < |LOOKUPS| ==> Key(Single(LOOKUPS[k], key), LOOKUPS[x]) == if x == k then key else ""
  {}

  /** An event about a book known only by one key. */
  function Diverting(signal: Signal, key: string): Submission {
    Submission(AdapterEvent(Single(signal, key), Calibre, None, None, None, None, None, Raw, Unknown), 0, 0)
  }

  /** When the first signal of the evidence names no book yet, an event that
      carries only that signal makes a new book, and takes the evidence with it. */
  lemma UnclaimedSignalDiverts(t: Tables, norm: Resolver.Normalizer, ev: Evidence, k: nat)
    requires IdentityOK(t) && k == FirstSignal(ev, 0) < |LOOKUPS| && Lookup(t, LOOKUPS[k], Key(ev, LOOKUPS[k])) == 0
    ensures FindBook(After(t, norm, [Diverting(LOOKUPS[k], Key(ev, LOOKUPS[k]))]), ev) == |t.books| + 1
  {
    hide IdentityOK, Named, Commit, FindBook, Lookup, FirstSignal, Extends, Key, Single;
    DivertingNames(t, norm, k, Key(ev, LOOKUPS[k]));
    FirstSignalFinds(After(t, norm, [Diverting(LOOKUPS[k], Key(ev, LOOKUPS[k]))]), ev, |t.books| + 1);
  }

  lemma DivertingNames(t: Tables, norm: Resolver.Normalizer, k: nat, key: string)
    requires IdentityOK(t) && k < |LOOKUPS| && key != "" && Lookup(t, LOOKUPS[k], key) == 0
    ensures var u := After(t, norm, [Diverting(LOOKUPS[k], key)]);
            IdentityOK(u) && Named(u, LOOKUPS[k], key, |t.books| + 1)
  {
    hide IdentityOK, Named, Commit, FindBook, Lookup, Key, Single;
    var d := Diverting(LOOKUPS[k], key);
    SingleFinds(t, k, key);
    SingleKeys(k, key);
    AfterOne(t, norm, d);
    CommitKeepsIdentity(t, norm, d.raw, d.received, d.updated);
    CommitNamesCreated(t, norm, d.raw, d.received, d.updated, LOOKUPS[k]);
  }

  lemma AfterOne(t: Tables, norm: Resolver.Normalizer, s: Submission)
    ensures After(t, norm, [s]) == Commit(t, norm, s.raw, s.received, s.updated)
  {
    hide Commit;
    assert [s][..0] == [];
    assert After(t, norm, []) == t;
  }

  /** After new evidence is committed each of its signals names the new book. */
  lemma CommitNamesCreated(t: Tables, norm: Resolver.Normalizer, raw: AdapterEvent, received: int, updated: int, signal: Signal)
    requires IdentityOK(t) && FindBook(t, raw.evidence) == 0 && Key(raw.evidence, signal) != ""
    ensures Named(Commit(t, norm, raw, received, updated), signal, Key(raw.evidence, signal), |t.books| + 1)
  {
    CreatedIsNamed(t, norm, raw.evidence, signal);
    RecordKeepsIdentity(Resolve(t, norm, raw.evidence).t, EventFor(t, norm, raw, received), updated);
  }

  /** Resolution is not stable in general.  Evidence that names b now names b
      after every sequence of events exactly when its first signal, in lookup
      order, is one b carries; otherwise some event takes it to another book. */
  lemma ResolutionStableIff(t: Tables, norm: Resolver.Normalizer, ev: Evidence, b: int)
    requires IdentityOK(t) && FindBook(t, ev) == b > 0
    ensures (forall log :: FindBook(After(t, norm, log), ev) == b) <==>
            FirstSignal(ev, 0) < |LOOKUPS| && Named(t, LOOKUPS[FirstSignal(ev, 0)], Key(ev, LOOKUPS[FirstSignal(ev, 0)]), b)
  {
    var k := FirstSignal(ev, 0);
    var f := FoundBy(t, ev, 0);
    assert k <= f < |LOOKUPS|;
    var key := Key(ev, LOOKUPS[k]);
    if Named(t, LOOKUPS[k], key, b) {
      forall log ensures FindBook(After(t, norm, log), ev) == b {
        AfterKeepsIdentity(t, norm, log);
        NamedPersists(t, After(t, norm, log), LOOKUPS[k], key, b);
        FirstSignalFinds(After(t, norm, log), ev, b);
      }
    } else {
      LookupExact(t, LOOKUPS[k], key, b);
      assert Lookup(t, LOOKUPS[k], key) == 0;
      UnclaimedSignalDiverts(t, norm, ev, k);
      FindRange(t, ev, 0);
      var log := [Diverting(LOOKUPS[k], key)];
      assert FindBook(After(t, norm, log), ev) != b;
    }
  }

  // ---------------------------------------------------------------- confidence

  /** Ladder score of the signal at each lookup position. */
  function LookupScore(n: nat): int
    requires n < |LOOKUPS|
  {
    [95, 100, 97, 90, 85, 80, 75, 70, 65][n]
  }

  lemma LookupOnLadder(n: nat) returns (k: nat)
    requires n < |LOOKUPS|
    ensures k < |Resolver.LADDER| && Resolver.LADDER[k] == (LOOKUPS[n], LookupScore(n))
  {
    k := [2, 0, 1, 3, 4, 5, 6, 7, 8][n];
  }

  lemma LoadedCells(b: Book, c: Column)
    ensures Key(LoadEvidence(b), InColumn(c)) == OrEmpty(Cell(b, c))
  {}

  /** A book found through a column is found with at least that column's ladder score. */
  lemma ColumnConfidence(t: Tables, norm: Resolver.Normalizer, ev: Evidence, n: nat)
    requires IdentityOK(t) && n == FoundBy(t, ev, 0) < |LOOKUPS| && LOOKUPS[n].InColumn?
    ensures Resolve(t, norm, ev).confidence >= LookupScore(n) >= 75
    ensures Resolver.WritebackEnabled(Resolve(t, norm, ev).confidence)
  {
    hide LoadEvidence, Resolver.ScoreFrom, IdentityOK, Lookup, FindFrom;
    var b := FindBook(t, ev);
    IdentityIds(t);
    FindRange(t, ev, 0);
    LookupExact(t, LOOKUPS[n], Key(ev, LOOKUPS[n]), b);
    LoadedCells(t.books[b - 1], LOOKUPS[n].column);
    var k := LookupOnLadder(n);
    Resolver.ScoreAtLeast(norm, ev, LoadEvidence(t.books[b - 1]), k);
  }

  /** A low_confidence conflict can only come from an event that reached its book through an alias. */
  lemma LowConfidenceNeedsAlias(t: Tables, norm: Resolver.Normalizer, raw: AdapterEvent, received: int)
    requires IdentityOK(t) && forall b :: b in t.canonical ==> b <= |t.books|
    ensures var j := Jump(Resolve(t, norm, raw.evidence).t, EventFor(t, norm, raw, received));
            j.Some? && j.value.LowConfidence? ==>
              FoundBy(t, raw.evidence, 0) < |LOOKUPS| && !LOOKUPS[FoundBy(t, raw.evidence, 0)].InColumn?
  {
    FindRange(t, raw.evidence, 0);
    var n := FoundBy(t, raw.evidence, 0);
    if n < 7 { ColumnConfidence(t, norm, raw.evidence, n); }
  }

  /** Evidence with only alias keys resolves to a known book with confidence 0,
      because alias keys are not loaded for scoring: such an event is never
      suspicious for low confidence and enqueues no write-back. */
  lemma AliasOnlyScoresZero(t: Tables, norm: Resolver.Normalizer, ev: Evidence)
    requires IdentityOK(t) && FindBook(t, ev) != 0
    requires !Resolver.HasColumn(ev) && ev.title == ""
    ensures Resolve(t, norm, ev).confidence == 0
  {
    FindRange(t, ev, 0);
    var stored := LoadEvidence(t.books[FindBook(t, ev) - 1]);
    Resolver.WritebackNeedsExact(norm, ev, stored, 0);
    Resolver.NoExactIsFuzzy(norm, ev, stored, 0);
    forall k | 0 <= k < |Resolver.LADDER| ensures !Resolver.Agrees(norm, ev, stored, Resolver.LADDER[k].0) {
      var signal := Resolver.LADDER[k].0;
      if signal.InColumn? { assert Key(ev, InColumn(signal.column)) == ""; }
      else { assert Key(stored, signal) == ""; }
    }
  }
}
