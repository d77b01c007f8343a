/** The KOSync endpoints, without HTTP: push into the pipeline, pull the canonical row back. */
module KOReaderSync {
  import opened Model
  import opened Tables
  import opened Pipeline
  import Identity
  import Log
  import Resolver
  import StoreSafety
  import System

  datatype PushRequest = PushRequest(document: string, progress: string, percentage: real, device: string, deviceId: string)

  datatype PullResponse = PullResponse(
    document: string, progress: string, percentage: real, device: string, deviceId: string, timestamp: int)

  // ---------------------------------------------------------------- translation

  function LocatorTypeOf(progress: string): LocationType {
    if "epubcfi(" <= progress then KOReaderXPtr else Percent
  }

  function ToAdapterEvent(req: PushRequest): AdapterEvent {
    AdapterEvent(
      NO_EVIDENCE.(koreaderDocHash := req.document), KOReader, None,
      Some(req.percentage), None, None, Some(req.progress), LocatorTypeOf(req.progress),
      if req.percentage >= 1.0 then Finished else if req.percentage > 0.0 then Reading else Unknown)
  }

  function CanonicalToPull(document: string, c: Canon, device: string, deviceId: string): PullResponse {
    PullResponse(document, OrEmpty(c.progress.rawLocator),
                 if c.progress.percent.Some? then c.progress.percent.value else 0.0,
                 device, deviceId, c.updatedAt / SECOND)
  }

  // ---------------------------------------------------------------- lookup

  predicate IsHex(c: char) {
    '0' <= c <= '9' || 'a' <= c <= 'f' || 'A' <= c <= 'F'
  }

  predicate IsSha256Hex(s: string)
    ensures IsSha256Hex(s) <==> |s| == 64 && forall c :: c in s ==> c in "0123456789abcdefABCDEF"
  {
    HexDigits();
    |s| == 64 && forall i :: 0 <= i < |s| ==> IsHex(s[i])
  }

  lemma HexDigits()
    ensures forall c :: IsHex(c) <==> c in "0123456789abcdefABCDEF"
  {
    forall c ensures IsHex(c) <==> c in "0123456789abcdefABCDEF" {
      var digits := "0123456789abcdefABCDEF";
      if '0' <= c <= '9' { assert digits[c as int - 48] == c; }
      if 'a' <= c <= 'f' { assert digits[c as int - 97 + 10] == c; }
      if 'A' <= c <= 'F' { assert digits[c as int - 65 + 16] == c; }
    }
  }

  /** canonical_progress joined with book_aliases on a document hash, first row from n on. */
  function JoinFrom(t: Tables, doc: string, n: nat): Option<int>
    requires n <= |t.aliases|
    decreases |t.aliases| - n
  {
    if n == |t.aliases| then None
    else if t.aliases[n].source == KOReader && t.aliases[n].key == doc && t.aliases[n].bookId in t.canonical
    then Some(t.aliases[n].bookId)
    else JoinFrom(t, doc, n + 1)
  }

  lemma {:induction false} JoinInCanonical(t: Tables, doc: string, n: nat)
    requires n <= |t.aliases|
    ensures JoinFrom(t, doc, n).Some? ==> JoinFrom(t, doc, n).value in t.canonical
    decreases |t.aliases| - n
  {
    if n >= |t.aliases| {
    } else {
      JoinInCanonical(t, doc, n + 1);
    }
  }

  function LoadCanonicalByDocHash(t: Tables, doc: string): (r: Option<Canon>) {
    JoinInCanonical(t, doc, 0);
    var b := JoinFrom(t, doc, 0);
    if b.Some? then Some(t.canonical[b.value]) else None
  }

  /** The server's row is less than a second old and further on than the push. */
  predicate Stale(existing: Option<Canon>, req: PushRequest, now: int) {
    && existing.Some? && existing.value.updatedAt > now - SECOND
    && existing.value.progress.percent.Some?
    && existing.value.progress.percent.value > req.percentage + 0.001
  }

  // ---------------------------------------------------------------- the endpoints

  datatype Device = Device(name: string, lastSeen: int)

  datatype PushResponse = BadRequest | PreconditionFailed(timestamp: int) | InternalError | Accepted(timestamp: int)
  datatype PullResult = BadDocument | Nothing | PullFailed | Found(response: PullResponse)

  /** (id, name) is a device of the user seen last, or empty when the user has none. */
  ghost predicate LastSeen(devices: map<(int, string), Device>, user: int, id: string, name: string) {
    if (user, id) in devices then
      name == devices[(user, id)].name
      && forall d :: (user, d) in devices ==> devices[(user, d)].lastSeen <= devices[(user, id)].lastSeen
    else id == "" && name == "" && forall d :: (user, d) !in devices
  }

  class Adapter {
    const db: Database
    const norm: Resolver.Normalizer
    var devices: map<(int, string), Device>

    constructor (db: Database, norm: Resolver.Normalizer)
      ensures this.db == db && this.norm == norm && devices == map[]
    {
      this.db, this.norm, devices := db, norm, map[];
    }

    /** handlePush.  `loadFails` and `deviceFails` are database errors the source logs and passes over. */
    method HandlePush(user: int, req: PushRequest, now: int, received: int, updated: int,
                      loadFails: bool, deviceFails: bool, faults: set<Stage>)
        returns (r: PushResponse)
      requires IdsOK(db.View())
      modifies this, db
      ensures r.BadRequest? <==> !IsSha256Hex(req.document) || !(0.0 <= req.percentage <= 1.01)
      // the row changed less than a second ago and is further on than the push by more than 0.001
      ensures r.PreconditionFailed? <==>
              && IsSha256Hex(req.document) && 0.0 <= req.percentage <= 1.01 && !loadFails
              && var server := LoadCanonicalByDocHash(old(db.View()), req.document);
                 && server.Some? && now - server.value.updatedAt < 1_000_000_000
                 && server.value.progress.percent.Some? && server.value.progress.percent.value - req.percentage > 0.001
      ensures r.BadRequest? || r.PreconditionFailed? ==> db.View() == old(db.View()) && devices == old(devices)
      ensures r.Accepted? <==>
              !r.BadRequest? && !r.PreconditionFailed?
              && Stages(old(db.View()), norm, ToAdapterEvent(req), received) !! faults
              && (FindBook(old(db.View()), ToAdapterEvent(req).evidence) == 0 ==>
                    UniqueOK(old(db.View()).books, ToAdapterEvent(req).evidence))
      ensures r.PreconditionFailed? ==>
                var server := LoadCanonicalByDocHash(old(db.View()), req.document);
                server.Some? && r.timestamp == server.value.updatedAt / 1_000_000_000
      ensures r.Accepted? ==> r.timestamp == now / 1_000_000_000
      ensures r.InternalError? ==> db.View() == old(db.View())
      ensures r.Accepted? ==>
                ValidEvent(ToAdapterEvent(req))
                && db.View() == Commit(old(db.View()), norm, ToAdapterEvent(req), received, updated)
      ensures r.Accepted? || r.InternalError? ==>
                devices == if req.deviceId != "" && !deviceFails
                           then old(devices)[(user, req.deviceId) := Device(req.device, now)] else old(devices)
    {
      if !IsSha256Hex(req.document) || req.percentage < 0.0 || req.percentage > 1.01 { return BadRequest; }
      var existing := if loadFails then None else LoadCanonicalByDocHash(db.View(), req.document);
      if Stale(existing, req, now) { return PreconditionFailed(existing.value.updatedAt / SECOND); }
      if req.deviceId != "" && !deviceFails {
        devices := devices[(user, req.deviceId) := Device(req.device, now)];
      }
      var outcome := Process(db, norm, ToAdapterEvent(req), received, updated, faults);
      if outcome != Committed { return InternalError; }
      return Accepted(now / SECOND);
    }

    /** handlePull.  A failure to read the row is an answer; one to read the device is not. */
    method HandlePull(user: int, document: string, loadFails: bool, deviceFails: bool) returns (r: PullResult)
      ensures r.BadDocument? <==> !IsSha256Hex(document)
      ensures r.PullFailed? <==> IsSha256Hex(document) && loadFails
      ensures r.Nothing? <==> IsSha256Hex(document) && !loadFails && LoadCanonicalByDocHash(db.View(), document).None?
      ensures r.Found? ==>
                LoadCanonicalByDocHash(db.View(), document).Some?
                && (if deviceFails then r.response.deviceId == r.response.device == ""
                    else LastSeen(devices, user, r.response.deviceId, r.response.device))
                && var row := LoadCanonicalByDocHash(db.View(), document).value;
                   && r.response.document == document
                   && (row.progress.rawLocator == Some(r.response.progress)
                       || (row.progress.rawLocator == None && r.response.progress == ""))
                   && (row.progress.percent == Some(r.response.percentage)
                       || (row.progress.percent == None && r.response.percentage == 0.0))
                   && r.response.timestamp == row.updatedAt / 1_000_000_000
    {
      if !IsSha256Hex(document) { return BadDocument; }
      if loadFails { return PullFailed; }
      var canon := LoadCanonicalByDocHash(db.View(), document);
      if canon.None? { return Nothing; }
      var id, name := "", "";
      if !deviceFails { id, name := LastDeviceForBook(user); }
      return Found(CanonicalToPull(document, canon.value, name, id));
    }

    /** lastDeviceForBook: the user's device seen last, whatever the book. */
    method LastDeviceForBook(user: int) returns (id: string, name: string)
      ensures LastSeen(devices, user, id, name)
    {
      id, name := "", "";
      var found := false;
      var last := 0;
      var left := devices.Keys;
      while left != {}
        invariant left <= devices.Keys
        invariant !found ==> id == "" && name == "" && forall d :: (user, d) in devices ==> (user, d) in left
        invariant found ==> (user, id) in devices && name == devices[(user, id)].name && last == devices[(user, id)].lastSeen
        invariant found ==> forall d :: (user, d) in devices && (user, d) !in left ==> devices[(user, d)].lastSeen <= last
      {
        var k :| k in left;
        left := left - {k};
        if k.0 == user && (!found || devices[k].lastSeen > last) {
          found := true;
          id, name, last := k.1, devices[k].name, devices[k].lastSeen;
        }
      }
    }

    /** A device pushes and pulls again: what it reads is what it wrote, unless
        the push was contested, or the row pinned. */
    method PushThenPull(user: int, req: PushRequest, now: int, received: int, updated: int, loadFails: bool, faults: set<Stage>)
        returns (p: PushResponse, r: PullResult)
      requires StoreSafety.StoreOK(db.View())
      modifies this, db
      ensures p.Accepted? ==> r.Found?
      ensures p.Accepted? ==>
                var before := LoadCanonicalByDocHash(old(db.View()), req.document);
                if Contested(before, req) || (before.Some? && before.value.pinned)
                then r.response.progress == (if before.value.progress.rawLocator.Some? then before.value.progress.rawLocator.value else "")
                     && r.response.percentage == (if before.value.progress.percent.Some? then before.value.progress.percent.value else 0.0)
                     && r.response.timestamp == before.value.updatedAt / 1_000_000_000
                else r.response.progress == req.progress
                     && r.response.percentage == (if req.percentage > 1.0 then 1.0 else req.percentage)
                     && r.response.timestamp == updated / 1_000_000_000
    {
      Identity.IdentityIds(db.View());
      ghost var t := db.View();
      p := HandlePush(user, req, now, received, updated, loadFails, false, faults);
      if p.Accepted? {
        ReadYourWrites(t, norm, req, received, updated);
      }
      r := HandlePull(user, req.document, false, false);
    }
  }

  // ---------------------------------------------------------------- read your writes

  lemma {:induction false} JoinExact(t: Tables, doc: string, n: nat)
    requires n <= |t.aliases|
    requires forall i :: 0 <= i < |t.aliases| ==> t.aliases[i].bookId in t.canonical && t.aliases[i].bookId != 0
    ensures JoinFrom(t, doc, n) == var b := FirstAlias(t.aliases, KOReader, doc, n); if b == 0 then None else Some(b)
    decreases |t.aliases| - n
  {
    if n >= |t.aliases| {
    } else {
      JoinExact(t, doc, n + 1);
    }
  }

  /** In a reachable store the join finds exactly the book a push of the document resolves to. */
  lemma PullFindsPushedBook(t: Tables, req: PushRequest)
    requires StoreSafety.StoreOK(t) && req.document != ""
    ensures var b := FindBook(t, ToAdapterEvent(req).evidence);
            LoadCanonicalByDocHash(t, req.document) == if b == 0 then None else
              assert b in t.canonical by { FindRange(t, ToAdapterEvent(req).evidence, 0); } Some(t.canonical[b])
  {
    JoinExact(t, req.document, 0);
    FindRange(t, ToAdapterEvent(req).evidence, 0);
    assert Identity.Single(LOOKUPS[7], req.document) == ToAdapterEvent(req).evidence;
    Identity.SingleFinds(t, 7, req.document);
  }

  function Clamp(p: real): real {
    if p > 1.0 then 1.0 else p
  }

  /** What a client could see before pushing: the push goes back by more than
      0.10, or its locator is of another kind. */
  predicate Contested(existing: Option<Canon>, req: PushRequest) {
    existing.Some? && !existing.value.pinned &&
    var p := existing.value.progress;
    || (p.percent.Some? && p.percent.value - Clamp(req.percentage) > 0.10)
    || (p.locatorType != NoLocation && p.locatorType != Raw && p.locatorType != LocatorTypeOf(req.progress))
  }

  lemma PushConfidence(t: Tables, norm: Resolver.Normalizer, req: PushRequest)
    requires StoreSafety.StoreOK(t) && req.document != ""
    ensures Resolve(t, norm, ToAdapterEvent(req).evidence).confidence
            == if FindBook(t, ToAdapterEvent(req).evidence) == 0 then 70 else 0
  {
    var ev := ToAdapterEvent(req).evidence;
    FindRange(t, ev, 0);
    assert !Resolver.HasColumn(ev) by {
      forall c: Column ensures Key(ev, InColumn(c)) == "" {}
    }
    if FindBook(t, ev) == 0 {
      Resolver.LadderColumns(ev);
      Resolver.QualityWithoutColumn(ev, 0);
    } else {
      Identity.AliasOnlyScoresZero(t, norm, ev);
    }
  }

  /** A committed push opens a conflict exactly when it is contested. */
  lemma PushJumpIff(t: Tables, norm: Resolver.Normalizer, req: PushRequest, received: int)
    requires StoreSafety.StoreOK(t) && IsSha256Hex(req.document) && 0.0 <= req.percentage <= 1.01
    ensures Jump(t, EventFor(t, norm, ToAdapterEvent(req), received)).Some?
            <==> Contested(LoadCanonicalByDocHash(t, req.document), req)
  {
    PullFindsPushedBook(t, req);
    PushConfidence(t, norm, req);
    FindRange(t, ToAdapterEvent(req).evidence, 0);
  }

  /** The row says what was pushed, the percentage cut at 1; the locator decides
      its type, the percentage as pushed the status. */
  ghost predicate Pushed(req: PushRequest, c: Canon) {
    var q := c.progress;
    && q.updatedBy == KOReader && q.rawLocator == Some(req.progress)
    && q.percent == Some(if req.percentage > 1.0 then 1.0 else req.percentage)
    && q.page == None && q.totalPages == None
    && q.locatorType == (if |req.progress| >= 8 && req.progress[..8] == "epubcfi(" then KOReaderXPtr else Percent)
    && q.readStatus == (if req.percentage >= 1.0 then Finished else if req.percentage > 0.0 then Reading else Unknown)
  }

  /** A push logs one event, of its own device's time unknown, with the document
      hash as the only evidence. */
  lemma PushedEvent(req: PushRequest)
    ensures var ev := ToAdapterEvent(req);
            && ev.source == KOReader && ev.deviceTS == None
            && ev.evidence.koreaderDocHash == req.document && ev.evidence.title == ev.evidence.authorSort == ""
            && ev.evidence.moonKey == "" && forall c: Column :: Key(ev.evidence, InColumn(c)) == ""
  {}

  /** After a committed push a pull of the document always finds a row: the
      pushed locator and clamped percentage, unless the push was contested or
      the row pinned, and then the row as it was. */
  lemma ReadYourWrites(t: Tables, norm: Resolver.Normalizer, req: PushRequest, received: int, updated: int)
    requires StoreSafety.StoreOK(t) && IsSha256Hex(req.document) && 0.0 <= req.percentage <= 1.01
    ensures var before := LoadCanonicalByDocHash(t, req.document);
            var after := LoadCanonicalByDocHash(Commit(t, norm, ToAdapterEvent(req), received, updated), req.document);
            && after.Some?
            && (if Contested(before, req) || (before.Some? && before.value.pinned) then after == before
                else Pushed(req, after.value) && after.value.progress.eventId == |t.events| + 1
                     && after.value.updatedAt == updated && !after.value.pinned)
  {
    var raw := ToAdapterEvent(req);
    var u := Commit(t, norm, raw, received, updated);
    PullFindsPushedBook(t, req);
    PushJumpIff(t, norm, req, received);
    Identity.CommitKeepsIdentity(t, norm, raw, received, updated);
    Log.CommitKeepsLog(t, norm, raw, received, updated);
    Log.CanonicalAfter(t, norm, raw, received, updated);
    PullFindsPushedBook(u, req);
    PushResolvesAfter(t, norm, req, received, updated);
    FindRange(t, raw.evidence, 0);
    EventNames(t, norm, raw, received);
    PushedRow(t, norm, req, received);
    hide Identity.IdentityOK, Log.LogOK, StoreSafety.StoreOK, Commit, EventFor, Jump, FindBook, Contested, Pushed, LoadCanonicalByDocHash;
  }

  lemma PushedRow(t: Tables, norm: Resolver.Normalizer, req: PushRequest, received: int)
    requires 0.0 <= req.percentage <= 1.01
    ensures var e := EventFor(t, norm, ToAdapterEvent(req), received);
            FromEvent(e).eventId == |t.events| + 1
            && forall updated, pinned :: Pushed(req, Canon(FromEvent(e), updated, pinned))
  {
    hide Resolve;
  }

  /** Once a pull finds a row it finds one of the same book after anything the
      system does: events, pins, workers, the admin API. */
  lemma PullStaysFound(s: System.Sys, norm: Resolver.Normalizer, actions: seq<System.Action>, doc: string)
    requires StoreSafety.StoreOK(s.t) && JoinFrom(s.t, doc, 0).Some?
    ensures var t := System.Run(s, norm, actions).t;
            JoinFrom(t, doc, 0) == JoinFrom(s.t, doc, 0) && LoadCanonicalByDocHash(t, doc).Some?
  {
    var u := System.Run(s, norm, actions).t;
    StoreSafety.RunExtends(s, norm, actions);
    AliasJoin(s.t, doc);
    AliasJoin(u, doc);
    var b := JoinFrom(s.t, doc, 0).value;
    hide StoreSafety.StoreOK, System.Run, Identity.Extends, Lookup;
    Identity.LookupExact(s.t, KOReaderAlias, doc, b);
    Identity.NamedPersists(s.t, u, KOReaderAlias, doc, b);
    Identity.LookupExact(u, KOReaderAlias, doc, b);
  }

  /** The same amid other parties: they may act between the stale check of the
      push, made in state s, and its transaction, and for ever after.  What was
      contested or pinned is judged by the row the transaction meets. */
  lemma ReadYourWritesAmidOthers(s: System.Sys, norm: Resolver.Normalizer, between: seq<System.Action>, req: PushRequest,
                                 later: seq<System.Action>)
    requires StoreSafety.StoreOK(s.t) && IsSha256Hex(req.document) && 0.0 <= req.percentage <= 1.01
    ensures var met := System.Run(s, norm, between);
            var done := System.Next(met, norm, System.Submit(ToAdapterEvent(req), true));
            var before := LoadCanonicalByDocHash(met.t, req.document);
            var after := LoadCanonicalByDocHash(done.t, req.document);
            && after.Some?
            && (if Contested(before, req) || (before.Some? && before.value.pinned) then after == before
                else Pushed(req, after.value))
            && LoadCanonicalByDocHash(System.Run(done, norm, later).t, req.document).Some?
  {
    StoreSafety.RunExtends(s, norm, between);
    var met := System.Run(s, norm, between);
    hide StoreSafety.StoreOK, System.Run, Commit, Contested;
    ReadYourWrites(met.t, norm, req, met.now, met.now);
    StoreSafety.NextKeepsStore(met, norm, System.Submit(ToAdapterEvent(req), true));
    PullStaysFound(System.Next(met, norm, System.Submit(ToAdapterEvent(req), true)), norm, later, req.document);
  }

  /** In a reachable store the join is the alias lookup. */
  lemma AliasJoin(t: Tables, doc: string)
    requires StoreSafety.StoreOK(t)
    ensures Identity.IdentityOK(t)
    ensures var b := Lookup(t, KOReaderAlias, doc);
            JoinFrom(t, doc, 0) == (if b == 0 then None else Some(b)) && b >= 0
  {
    JoinExact(t, doc, 0);
    Identity.FirstAliasExact(t.aliases, KOReader, doc, 0);
  }

  /** The pushed document names the event's book after the push. */
  lemma PushResolvesAfter(t: Tables, norm: Resolver.Normalizer, req: PushRequest, received: int, updated: int)
    requires StoreSafety.StoreOK(t) && req.document != ""
    ensures var raw := ToAdapterEvent(req);
            FindBook(Commit(t, norm, raw, received, updated), raw.evidence) == EventFor(t, norm, raw, received).bookId
  {
    hide Commit, ToAdapterEvent, FindBook, Identity.FirstSignal, Identity.Named, Identity.IdentityOK, Identity.Extends;
    hide Log.LogOK;
    var raw := ToAdapterEvent(req);
    var ev := raw.evidence;
    var u := Commit(t, norm, raw, received, updated);
    Identity.IdentityIds(t);
    Identity.ExtendsItself(u);
    EventNames(t, norm, raw, received);
    Identity.CommitKeepsIdentity(t, norm, raw, received, updated);
    PushSignals(t, req);
    if FindBook(t, ev) == 0 {
      Identity.CreatorResolvesForever(t, norm, raw, received, updated, u);
    } else {
      Identity.LookupExact(t, LOOKUPS[7], Key(ev, LOOKUPS[7]), FindBook(t, ev));
      Identity.NamedPersists(t, u, LOOKUPS[7], Key(ev, LOOKUPS[7]), FindBook(t, ev));
      Identity.FirstSignalFinds(u, ev, FindBook(t, ev));
    }
  }

  lemma EventNames(t: Tables, norm: Resolver.Normalizer, raw: AdapterEvent, received: int)
    requires IdsOK(t)
    ensures EventFor(t, norm, raw, received).bookId
            == if FindBook(t, raw.evidence) == 0 then |t.books| + 1 else FindBook(t, raw.evidence)
    ensures 0 <= FindBook(t, raw.evidence)
  {
    FindRange(t, raw.evidence, 0);
  }

  /** A push carries one signal, its document hash. */
  lemma PushSignals(t: Tables, req: PushRequest)
    requires req.document != ""
    ensures var ev := ToAdapterEvent(req).evidence;
            && Identity.FirstSignal(ev, 0) == 7 && Key(ev, LOOKUPS[7]) == req.document
            && FindBook(t, ev) == Lookup(t, LOOKUPS[7], req.document)
  {
    var ev := ToAdapterEvent(req).evidence;
    assert Identity.Single(LOOKUPS[7], req.document) == ev;
    Identity.SingleFinds(t, 7, req.document);
    assert Key(ev, LOOKUPS[7]) != "" && forall k :: 0 <= k < 7 ==> Key(ev, LOOKUPS[k]) == "";
  }

  /** Only a document's first push is written back to the other readers: a later
      uncontested one enqueues no job at all, since its confidence is 0. */
  lemma LaterPushNotPropagated(t: Tables, norm: Resolver.Normalizer, req: PushRequest, received: int, updated: int)
    requires StoreSafety.StoreOK(t) && IsSha256Hex(req.document) && 0.0 <= req.percentage <= 1.01
    requires !Contested(LoadCanonicalByDocHash(t, req.document), req)
    ensures var u := Commit(t, norm, ToAdapterEvent(req), received, updated);
            u.outbox == t.outbox <==> LoadCanonicalByDocHash(t, req.document).Some?
  {
    var raw := ToAdapterEvent(req);
    var e := EventFor(t, norm, raw, received);
    var v := Resolve(t, norm, raw.evidence).t;
    PullFindsPushedBook(t, req);
    PushConfidence(t, norm, req);
    PushJumpIff(t, norm, req, received);
    Log.CanonicalAfter(t, norm, raw, received, updated);
    FindRange(t, raw.evidence, 0);
    if FindBook(t, raw.evidence) == 0 {
      var w := Upsert(Append(v, e), e, updated);
      WithoutNeverEchoes(ALL_TARGETS, KOReader);
      assert Calibre in ALL_TARGETS by { assert ALL_TARGETS[0] == Calibre; }
      assert Calibre in WritebackTargets(KOReader);
      Log.EnqueueExact(w, e.bookId, e.id, WritebackTargets(e.source), None);
      var u := Commit(t, norm, raw, received, updated);
      assert t.nextJob in u.outbox && t.nextJob !in t.outbox by { assert Log.JobsOK(t); }
    }
  }
}
