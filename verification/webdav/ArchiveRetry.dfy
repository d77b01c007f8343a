/** When the archive can still record another version of a path: the file
    names and directories that other uploads leave on the disk decide it. */
module ArchiveRetry {
  import opened Model
  import opened Archive
  import Decimals
  import SafePaths

  // ---------------------------------------------------------------- the disk

  /** No name is a file and a directory; a directory's parents are there, and so
      is the directory of each file and of each call that made its own. */
  ghost predicate DiskOK(w: World, cfg: Config) {
    && (forall p :: p in w.store.files ==> BinName(p) !in w.store.dirs && p.dir in w.store.dirs)
    && (forall p :: p in w.store.manifests ==> JsonName(p) !in w.store.dirs)
    && (forall d: Name, k :: d in w.store.dirs && 0 <= k <= |d| ==> d[..k] in w.store.dirs)
    && (forall c :: c in w.calls && w.calls[c].Housed? ==> cfg.dirOf(w.calls[c].slot) in w.store.dirs)
  }

  ghost predicate AllOK(w: World, cfg: Config) {
    WorldOK(w, cfg) && ManifestsOK(w, cfg) && DiskOK(w, cfg)
  }

  lemma NamesDistinct(p: BinPath, q: BinPath)
    ensures BinName(p) == BinName(q) ==> p == q
    ensures JsonName(p) == JsonName(q) ==> p == q
    ensures BinName(p) != JsonName(q)
  {
    if BinName(p) == BinName(q) {
      SameLast(p.dir, Number(p.version) + ".bin", q.dir, Number(q.version) + ".bin");
      SameStem(Number(p.version), Number(q.version), ".bin");
      NumberDistinct(p.version, q.version);
    }
    if JsonName(p) == JsonName(q) {
      SameLast(p.dir, Number(p.version) + ".json", q.dir, Number(q.version) + ".json");
      SameStem(Number(p.version), Number(q.version), ".json");
      NumberDistinct(p.version, q.version);
    }
    SuffixesDiffer(Number(p.version), Number(q.version));
    if BinName(p) == JsonName(q) { SameLast(p.dir, Number(p.version) + ".bin", q.dir, Number(q.version) + ".json"); }
  }

  lemma SuffixesDiffer(x: string, y: string)
    ensures x + ".bin" != y + ".json"
  {
    assert (x + ".bin")[|x| + 2] == 'i' && (y + ".json")[|y| + 3] == 'o';
  }

  lemma SameLast(d: Name, x: string, e: Name, y: string)
    requires d + [x] == e + [y]
    ensures d == e && x == y
  {
    assert (d + [x])[|d + [x]| - 1] == x && (e + [y])[|e + [y]| - 1] == y;
    assert (d + [x])[..|d|] == d && (e + [y])[..|e|] == e;
  }

  lemma SameStem(x: string, y: string, suffix: string)
    requires x + suffix == y + suffix
    ensures x == y
  {
    assert |x| == |y|;
    assert (x + suffix)[..|x|] == x && (y + suffix)[..|y|] == y;
  }

  lemma NumberShape(v: int)
    ensures var s := Number(v);
            s != "" && if v >= 0 then s[0] != '-' && Decimals.AllDigits(s) && Decimals.Num(s) == v
                       else s[0] == '-' && Decimals.AllDigits(s[1..]) && Decimals.Num(s[1..]) == -v
  {
    assert !Decimals.IsDigit('-');
    if v >= 0 {
      Decimals.NumDigits(v);
      assert Decimals.IsDigit(Number(v)[0]);
    } else {
      Decimals.NumDigits(-v);
      assert Number(v)[1..] == Decimals.Digits(-v);
    }
  }

  lemma NumberDistinct(v: int, w: int)
    requires Number(v) == Number(w)
    ensures v == w
  {
    NumberShape(v);
    NumberShape(w);
  }

  /** A file of this directory or deeper is not on the way to it. */
  lemma FileBelow(d: Name, v: int, k: nat)
    requires k <= |d|
    ensures d[..k] != BinName(BinPath(d, v)) && d[..k] != JsonName(BinPath(d, v))
  {
    assert |BinName(BinPath(d, v))| == |d| + 1 == |JsonName(BinPath(d, v))|;
  }

  lemma {:induction false} ReachClear(s: Store, d: Name, m: nat, k: nat)
    requires m <= |d| && k <= Reach(s, d, m)
    ensures k <= |d| && !IsFile(s, d[..k])
  {
    if m == 0 {
      assert |d[..0]| == 0;
    } else if k <= Reach(s, d, m - 1) {
      ReachClear(s, d, m - 1, k);
    } else {
    }
  }

  lemma {:induction false} ReachAll(s: Store, d: Name, m: nat)
    requires m <= |d| && forall k :: 0 <= k <= m ==> !IsFile(s, d[..k])
    ensures Reach(s, d, m) == m
  {
    if m == 0 {
    } else {
      ReachAll(s, d, m - 1);
    }
  }

  lemma MkdirDisk(w: World, cfg: Config, c: int, most: nat)
    requires DiskOK(w, cfg)
    ensures DiskOK(Next(w, cfg, Mkdir(c, most)), cfg)
  {
    hide Reach, BinName, JsonName;
    var call := At(w, c);
    var u := Next(w, cfg, Mkdir(c, most));
    if call.Probed? {
      var d := cfg.dirOf(call.slot);
      var m := Made(w.store, d, most);
      forall k | 0 <= k <= m ensures !IsFile(w.store, d[..k]) {
        ReachClear(w.store, d, if most < |d| then most else |d|, k);
      }
      PrefixesClosed(w.store.dirs, d, m);
      assert d[..|d|] == d;
    }
  }

  lemma PrefixesClosed(dirs: set<Name>, d: Name, m: nat)
    requires m <= |d| && forall e: Name, k :: e in dirs && 0 <= k <= |e| ==> e[..k] in dirs
    ensures forall e: Name, k :: e in dirs + Prefixes(d, m) && 0 <= k <= |e| ==> e[..k] in dirs + Prefixes(d, m)
    ensures forall n :: n in Prefixes(d, m) ==> exists k :: 0 <= k <= m && n == d[..k]
    ensures m == |d| ==> d in Prefixes(d, m)
  {
    forall e: Name, k | e in Prefixes(d, m) && 0 <= k <= |e| ensures e[..k] in Prefixes(d, m) {
      assert e[..k] == d[..k];
    }
    assert d[..|d|] == d;
  }

  lemma NextDisk(w: World, cfg: Config, a: Action)
    requires WorldOK(w, cfg) && DiskOK(w, cfg)
    ensures DiskOK(Next(w, cfg, a), cfg)
  {
    hide WorldOK, Made, Prefixes, BinName, JsonName, MaxVersion, UniqueOK;
    if a.Mkdir? {
      MkdirDisk(w, cfg, a.call, a.most);
    } else {
      OwnFilesThere(w, cfg);
    }
  }

  lemma OwnFilesThere(w: World, cfg: Config)
    requires WorldOK(w, cfg)
    ensures forall c :: c in w.calls && Owner(w.calls[c]) ==> Own(cfg, w.calls[c]) in w.store.files
  {
    hide RowsOK;
  }

  lemma NextAll(w: World, cfg: Config, a: Action)
    requires AllOK(w, cfg)
    ensures AllOK(Next(w, cfg, a), cfg)
  {
    hide WorldOK, ManifestsOK, DiskOK, Next;
    NextKeeps(w, cfg, a);
    NextManifests(w, cfg, a);
    NextDisk(w, cfg, a);
  }

  /** Under every interleaving, with failures anywhere, no file stands where a
      directory is, however the directories lead through each other. */
  lemma {:induction false} RunAll(cfg: Config, actions: seq<Action>)
    ensures AllOK(Run(INIT, cfg, actions), cfg)
  {
    hide WorldOK, ManifestsOK, Next;
    if actions == [] {
      RunKeeps(cfg, []);
      RunDescribes(cfg, []);
    } else {
      RunAll(cfg, actions[..|actions| - 1]);
      NextAll(Run(INIT, cfg, actions[..|actions| - 1]), cfg, actions[|actions| - 1]);
    }
  }

  lemma {:induction false} RunKeepsAll(w: World, cfg: Config, actions: seq<Action>)
    requires AllOK(w, cfg)
    ensures AllOK(Run(w, cfg, actions), cfg)
  {
    hide AllOK, Next;
    if actions == [] {
    } else {
      RunKeepsAll(w, cfg, actions[..|actions| - 1]);
      NextAll(Run(w, cfg, actions[..|actions| - 1]), cfg, actions[|actions| - 1]);
    }
  }

  // ---------------------------------------------------------------- the answer of one call

  /** A call gets as far as writing its file: nothing fails before, no file is on
      the way to its directory, and the file's name is free. */
  ghost predicate Reaches(cfg: Config, s: Store, slot: Slot, faults: set<Op>) {
    var d := cfg.dirOf(slot);
    var p := BinPath(d, MaxVersion(s.rows, slot) + 1);
    && faults !! {OpLookup, OpProbe, OpMkdir, OpCreate}
    && (forall k :: 0 <= k <= |d| ==> !IsFile(s, d[..k]))
    && p !in s.files && BinName(p) !in s.dirs
  }

  /** When a call succeeds, and what it then returns and leaves: the next version
      of its path with the size and hash of the body, file, manifest, row and
      notification. */
  lemma UploadedIff(cfg: Config, s: Store, slot: Slot, body: Bytes, x: Trouble)
    requires x.written <= |body|
    ensures var v := MaxVersion(s.rows, slot) + 1;
            var p := BinPath(cfg.dirOf(slot), v);
            var o := Uploaded(cfg, s, slot, body, x);
            && (o.result.Some? <==>
                  Reaches(cfg, s, slot, x.faults) && x.faults !! {OpWrite, OpClose, OpManifest, OpInsert}
                  && JsonName(p) !in s.dirs && UniqueOK(s.rows, slot, v))
            && (o.result.Some? ==>
                  var r := o.result.value;
                  && r.slot == slot && r.version == v && r.size == |body| && r.sha == cfg.sha(body) && r.file == p
                  && o.store.files == s.files[p := body] && o.store.manifests == s.manifests[p := Some(r)]
                  && o.store.rows == s.rows + [r] && o.store.told == s.told + [r])
  {
    UploadedParts(cfg, s, slot, body, x);
    hide BinName, JsonName, MaxVersion, UniqueOK, Made, MadeDirs, IsFile, Reaches;
  }

  /** What a call leaves that returns an error: no row and no notification; the
      whole file when it failed after writing, part of it when it could not
      remove it, a manifest when it failed at that or later. */
  lemma FailedLeaves(cfg: Config, s: Store, slot: Slot, body: Bytes, x: Trouble)
    requires x.written <= |body| && Uploaded(cfg, s, slot, body, x).result.None?
    ensures var v := MaxVersion(s.rows, slot) + 1;
            var p := BinPath(cfg.dirOf(slot), v);
            var u := Uploaded(cfg, s, slot, body, x).store;
            && u.rows == s.rows && u.told == s.told
            && u.files == (if !Reaches(cfg, s, slot, x.faults) then s.files
                           else if OpWrite !in x.faults then s.files[p := body]
                           else if OpRemove in x.faults then s.files[p := body[..x.written]]
                           else s.files)
            && u.manifests == (if Reaches(cfg, s, slot, x.faults) && x.faults !! {OpWrite, OpClose} && JsonName(p) !in s.dirs
                               then s.manifests[p := if OpManifest in x.faults then None else Some(Row(cfg, slot, v, body))]
                               else s.manifests)
  {
    UploadedParts(cfg, s, slot, body, x);
    hide BinName, JsonName, MaxVersion, UniqueOK, Made, MadeDirs, IsFile, Reaches;
  }

  /** A call up to its directory, and from there on. */
  lemma UploadedParts(cfg: Config, s: Store, slot: Slot, body: Bytes, x: Trouble)
    requires x.written <= |body|
    ensures var v := MaxVersion(s.rows, slot) + 1;
            var p := BinPath(cfg.dirOf(slot), v);
            var o := Uploaded(cfg, s, slot, body, x);
            if x.faults !! {OpLookup, OpProbe, OpMkdir} && (forall k :: 0 <= k <= |p.dir| ==> !IsFile(s, p.dir[..k]))
            then
              var housed := s.(dirs := s.dirs + Prefixes(p.dir, |p.dir|));
              && (BinName(p) in housed.dirs <==> BinName(p) in s.dirs) && (JsonName(p) in housed.dirs <==> JsonName(p) in s.dirs)
              && o == FileUploaded(housed, p, Row(cfg, slot, v, body), body, x)
            else o.result.None? && o.store == s.(dirs := o.store.dirs)
  {
    var d := cfg.dirOf(slot);
    NamesNotAbove(d, MaxVersion(s.rows, slot) + 1);
    if forall k :: 0 <= k <= |d| ==> !IsFile(s, d[..k]) {
      ReachAll(s, d, |d|);
    } else if Reach(s, d, |d|) == |d| {
      forall k | 0 <= k <= |d| ensures !IsFile(s, d[..k]) { ReachClear(s, d, |d|, k); }
    }
    hide BinName, JsonName, MaxVersion, Reach, Prefixes, IsFile, FileUploaded, Row;
  }

  // ---------------------------------------------------------------- the condition

  /** The file of the slot's next version. */
  function NextFile(w: World, cfg: Config, slot: Slot): BinPath {
    PathFor(cfg, slot, MaxVersion(w.store.rows, slot) + 1)
  }

  /** A live call may still remove this file. */
  ghost predicate Removable(w: World, cfg: Config, p: BinPath) {
    exists c :: c in w.calls && (w.calls[c].Created? || w.calls[c].WriteFailed?) && Own(cfg, w.calls[c]) == p
  }

  /** The name is a file that nobody will remove. */
  ghost predicate Lasting(w: World, cfg: Config, n: Name) {
    || (exists p :: p in w.store.manifests && JsonName(p) == n)
    || (exists p :: p in w.store.files && BinName(p) == n && !Removable(w, cfg, p))
  }

  /** A live call that may yet record the file for this slot, or give it up. */
  predicate MayYield(call: Call, cfg: Config, slot: Slot, file: BinPath) {
    Owner(call) && Own(cfg, call) == file && (call.slot == slot || call.Created? || call.WriteFailed?)
  }

  /** No lasting file stands on the way to the slot's directory, no directory
      has the name of the next version's file or of its manifest, and that file
      does not exist, or a live call will record or may still remove it. */
  ghost predicate Open(w: World, cfg: Config, slot: Slot) {
    var p := NextFile(w, cfg, slot);
    && (forall k :: 0 <= k <= |p.dir| ==> !Lasting(w, cfg, p.dir[..k]))
    && BinName(p) !in w.store.dirs && JsonName(p) !in w.store.dirs
    && (p in w.store.files ==> exists c :: c in w.calls && MayYield(w.calls[c], cfg, slot, p))
  }

  /** The run records one more version for the slot. */
  ghost predicate Records(w: World, cfg: Config, actions: seq<Action>, slot: Slot) {
    |Versions(Run(w, cfg, actions).store.rows, slot)| > |Versions(w.store.rows, slot)|
  }

  // ---------------------------------------------------------------- a closed slot stays closed

  lemma NextLasting(w: World, cfg: Config, a: Action, n: Name)
    requires WorldOK(w, cfg) && Lasting(w, cfg, n)
    ensures Lasting(Next(w, cfg, a), cfg, n)
  {
    hide WorldOK, BinName, JsonName, Made, Prefixes, MaxVersion, UniqueOK;
    var u := Next(w, cfg, a);
    OwnFilesThere(w, cfg);
    if p :| p in w.store.manifests && JsonName(p) == n {
      assert p in u.store.manifests;
    } else {
      var p :| p in w.store.files && BinName(p) == n && !Removable(w, cfg, p);
      NextNotRemovable(w, cfg, a, p);
    }
  }

  lemma NextNotRemovable(w: World, cfg: Config, a: Action, p: BinPath)
    requires p in w.store.files && !Removable(w, cfg, p)
    ensures p in Next(w, cfg, a).store.files && !Removable(Next(w, cfg, a), cfg, p)
  {
    hide BinName, JsonName, Made, Prefixes, MaxVersion, UniqueOK;
    var u := Next(w, cfg, a);
    if a.call in w.calls { assert !(w.calls[a.call].WriteFailed? && Own(cfg, w.calls[a.call]) == p); }
    forall c | c in u.calls && (u.calls[c].Created? || u.calls[c].WriteFailed?) ensures Own(cfg, u.calls[c]) != p {
      if c in w.calls && (w.calls[c].Created? || w.calls[c].WriteFailed?) { assert Own(cfg, w.calls[c]) != p; }
    }
  }

  /** A call about to insert shows that its slot is open. */
  lemma InsertNeedsOpen(w: World, cfg: Config, c: int)
    requires AllOK(w, cfg) && At(w, c).Described?
    ensures Open(w, cfg, At(w, c).slot)
  {
    var call := At(w, c);
    var p := NextFile(w, cfg, call.slot);
    OwnerIsNext(w, cfg, c);
    assert HasManifest(w.store, RowOf(cfg, call));
    hide WorldOK, ManifestsOK, MaxVersion, BinName, JsonName;
    forall k | 0 <= k <= |p.dir| ensures !Lasting(w, cfg, p.dir[..k]) {
      assert p.dir[..k] in w.store.dirs;
    }
    assert MayYield(w.calls[c], cfg, call.slot, p);
  }

  lemma OwnerIsNext(w: World, cfg: Config, c: int)
    requires WorldOK(w, cfg) && c in w.calls && Owner(w.calls[c])
    ensures Own(cfg, w.calls[c]) == NextFile(w, cfg, w.calls[c].slot) && Own(cfg, w.calls[c]) in w.store.files
  {
    hide RowsOK, MaxVersion;
  }

  lemma NextClosed(w: World, cfg: Config, a: Action, slot: Slot)
    requires AllOK(w, cfg) && !Open(w, cfg, slot)
    ensures !Open(Next(w, cfg, a), cfg, slot)
    ensures Versions(Next(w, cfg, a).store.rows, slot) == Versions(w.store.rows, slot)
  {
    if a.Insert? && At(w, a.call).Described? { InsertNeedsOpen(w, cfg, a.call); }
    var u := Next(w, cfg, a);
    OtherRows(w, cfg, a, slot);
    var p := NextFile(w, cfg, slot);
    assert NextFile(u, cfg, slot) == p;
    hide WorldOK, ManifestsOK, DiskOK, BinName, JsonName, MaxVersion;
    if k :| 0 <= k <= |p.dir| && Lasting(w, cfg, p.dir[..k]) {
      NextLasting(w, cfg, a, p.dir[..k]);
    } else if BinName(p) in w.store.dirs || JsonName(p) in w.store.dirs {
      DirsGrow(w, cfg, a);
    } else {
      NextKept(w, cfg, a, slot, p);
    }
  }

  lemma DirsGrow(w: World, cfg: Config, a: Action)
    ensures w.store.dirs <= Next(w, cfg, a).store.dirs
  {
    hide BinName, JsonName, Made, Prefixes, MaxVersion, UniqueOK;
  }

  /** Only an insertion for the slot changes its rows. */
  lemma OtherRows(w: World, cfg: Config, a: Action, slot: Slot)
    requires a.Insert? && At(w, a.call).Described? ==> At(w, a.call).slot != slot
    ensures var u := Next(w, cfg, a).store.rows;
            Versions(u, slot) == Versions(w.store.rows, slot) && MaxVersion(u, slot) == MaxVersion(w.store.rows, slot)
  {
    hide BinName, JsonName, Made, Prefixes, UniqueOK;
    var u := Next(w, cfg, a).store.rows;
    assert u == w.store.rows || u[..|u| - 1] == w.store.rows;
  }

  /** A file nobody will record for the slot or remove stays one. */
  lemma NextKept(w: World, cfg: Config, a: Action, slot: Slot, p: BinPath)
    requires p in w.store.files && forall c :: c in w.calls ==> !MayYield(w.calls[c], cfg, slot, p)
    ensures var u := Next(w, cfg, a);
            p in u.store.files && forall c :: c in u.calls ==> !MayYield(u.calls[c], cfg, slot, p)
  {
    hide BinName, JsonName, Made, Prefixes, MaxVersion, UniqueOK;
    var u := Next(w, cfg, a);
    if a.call in w.calls { assert !MayYield(w.calls[a.call], cfg, slot, p); }
    forall c | c in u.calls ensures !MayYield(u.calls[c], cfg, slot, p) {
      assert c in w.calls ==> !MayYield(w.calls[c], cfg, slot, p);
    }
  }

  lemma {:induction false} ClosedForever(w: World, cfg: Config, actions: seq<Action>, slot: Slot)
    requires AllOK(w, cfg) && !Open(w, cfg, slot)
    ensures var u := Run(w, cfg, actions);
            AllOK(u, cfg) && !Open(u, cfg, slot) && Versions(u.store.rows, slot) == Versions(w.store.rows, slot)
  {
    hide AllOK, Open, Next;
    if actions == [] {
    } else {
      var mid := Run(w, cfg, actions[..|actions| - 1]);
      ClosedForever(w, cfg, actions[..|actions| - 1], slot);
      NextAll(mid, cfg, actions[|actions| - 1]);
      NextClosed(mid, cfg, actions[|actions| - 1], slot);
    }
  }

  // ---------------------------------------------------------------- an open slot can be served

  lemma PrependRecords(w: World, cfg: Config, first: seq<Action>, rest: seq<Action>, slot: Slot)
    requires Records(Run(w, cfg, first), cfg, rest, slot)
    requires Run(w, cfg, first).store.rows == w.store.rows
    ensures Records(w, cfg, first + rest, slot)
  {
    RunConcat(w, cfg, first, rest);
  }

  function StepsLeft(call: Call): nat {
    match call
    case Created(_, _, _) => 4
    case Written(_, _, _) => 3
    case Closed(_, _, _) => 2
    case Described(_, _, _) => 1
    case _ => 0
  }

  /** The next step of an owner on its way to its insertion. */
  function StepOf(call: Call, c: int): Action {
    match call
    case Created(_, _, _) => Write(c)
    case Written(_, _, _) => CloseFile(c)
    case Closed(_, _, _) => Manifest(c)
    case _ => Insert(c)
  }

  lemma StepOfAdvances(w: World, cfg: Config, c: int)
    requires StepsLeft(At(w, c)) > 1 && JsonName(Own(cfg, At(w, c))) !in w.store.dirs
    ensures var u := Next(w, cfg, StepOf(At(w, c), c));
            && StepsLeft(At(u, c)) == StepsLeft(At(w, c)) - 1 && At(u, c).slot == At(w, c).slot
            && Own(cfg, At(u, c)) == Own(cfg, At(w, c))
            && u.store.rows == w.store.rows && u.store.dirs == w.store.dirs
  {
    hide JsonName;
  }

  /** An owner that has not failed can be run to its insertion. */
  lemma {:induction false} FinishOwner(w: World, cfg: Config, c: int) returns (actions: seq<Action>)
    requires WorldOK(w, cfg) && StepsLeft(At(w, c)) > 0 && JsonName(Own(cfg, At(w, c))) !in w.store.dirs
    ensures Records(w, cfg, actions, At(w, c).slot)
    decreases StepsLeft(At(w, c))
  {
    var a := StepOf(At(w, c), c);
    NextKeeps(w, cfg, a);
    if StepsLeft(At(w, c)) == 1 {
      InsertRecords(w, cfg, c);
      actions := [a];
    } else {
      hide WorldOK, Run, Records, Next, StepOf, JsonName;
      StepOfAdvances(w, cfg, c);
      var rest := FinishOwner(Next(w, cfg, a), cfg, c);
      RunSteps(w, cfg, [a]);
      PrependRecords(w, cfg, [a], rest, At(w, c).slot);
      actions := [a] + rest;
    }
  }

  lemma InsertRecords(w: World, cfg: Config, c: int)
    requires WorldOK(w, cfg) && At(w, c).Described?
    ensures Records(w, cfg, [Insert(c)], At(w, c).slot)
  {
    InsertAdmitted(w, cfg, c);
    hide WorldOK, Run, Next;
    RunSteps(w, cfg, [Insert(c)]);
    var rows := Next(w, cfg, Insert(c)).store.rows;
    assert rows[..|rows| - 1] == w.store.rows;
  }

  /** With no file on the way and its names free a new call succeeds. */
  lemma StartAndFinish(w: World, cfg: Config, slot: Slot) returns (actions: seq<Action>)
    requires AllOK(w, cfg)
    requires var p := NextFile(w, cfg, slot);
             && p !in w.store.files && BinName(p) !in w.store.dirs && JsonName(p) !in w.store.dirs
             && forall k :: 0 <= k <= |p.dir| ==> !IsFile(w.store, p.dir[..k])
    ensures Records(w, cfg, actions, slot)
  {
    var c := FreshKey(w.calls.Keys);
    var d := cfg.dirOf(slot);
    var begun := [Begin(c, slot, []), Mkdir(c, |d|), Create(c)];
    CallStarts(w, cfg, slot, c);
    RunKeepsAll(w, cfg, begun);
    hide Open, Run, Records, DiskOK, ManifestsOK, JsonName;
    var rest := FinishOwner(Run(w, cfg, begun), cfg, c);
    PrependRecords(w, cfg, begun, rest, slot);
    actions := begun + rest;
  }

  lemma CallStarts(w: World, cfg: Config, slot: Slot, c: int)
    requires c !in w.calls
    requires var p := NextFile(w, cfg, slot);
             && p !in w.store.files && BinName(p) !in w.store.dirs && JsonName(p) !in w.store.dirs
             && forall k :: 0 <= k <= |p.dir| ==> !IsFile(w.store, p.dir[..k])
    ensures var u := Run(w, cfg, [Begin(c, slot, []), Mkdir(c, |cfg.dirOf(slot)|), Create(c)]);
            && u.store.rows == w.store.rows && At(u, c) == Created(slot, [], MaxVersion(w.store.rows, slot) + 1)
            && JsonName(Own(cfg, At(u, c))) !in u.store.dirs
  {
    var d := cfg.dirOf(slot);
    var p := NextFile(w, cfg, slot);
    ReachAll(w.store, d, |d|);
    NamesNotAbove(d, p.version);
    assert Own(cfg, Created(slot, [], p.version)) == p && p == BinPath(d, p.version);
    hide Reach, Prefixes, BinName, JsonName, MaxVersion, IsFile;
    var begun := [Begin(c, slot, []), Mkdir(c, |d|)];
    MkdirSteps(w, cfg, c, slot, [], |d|);
    RunConcat(w, cfg, begun, [Create(c)]);
    var mid := Run(w, cfg, begun);
    RunSteps(mid, cfg, [Create(c)]);
    assert begun + [Create(c)] == [Begin(c, slot, []), Mkdir(c, |d|), Create(c)];
    assert At(mid, c) == Housed(slot, [], p.version) && mid.store == w.store.(dirs := w.store.dirs + Prefixes(d, |d|));
  }

  lemma NamesNotAbove(d: Name, v: int)
    ensures BinName(BinPath(d, v)) !in Prefixes(d, |d|) && JsonName(BinPath(d, v)) !in Prefixes(d, |d|)
  {
    forall k | 0 <= k <= |d| ensures d[..k] != BinName(BinPath(d, v)) && d[..k] != JsonName(BinPath(d, v)) {
      FileBelow(d, v, k);
    }
  }

  /** An owner that fails its write removes its file. */
  lemma FreeFile(w: World, cfg: Config, p: BinPath) returns (actions: seq<Action>)
    requires Removable(w, cfg, p)
    ensures var u := Run(w, cfg, actions);
            && u.store == w.store.(files := w.store.files - {p})
            && exists c :: c in w.calls && !w.calls[c].Idle? && Own(cfg, w.calls[c]) == p && u.calls == w.calls[c := Idle]
  {
    hide BinName, JsonName;
    var c :| c in w.calls && (w.calls[c].Created? || w.calls[c].WriteFailed?) && Own(cfg, w.calls[c]) == p;
    if w.calls[c].WriteFailed? {
      actions := [Remove(c, true)];
      RunSteps(w, cfg, actions);
    } else {
      actions := [WriteShort(c, 0), Remove(c, true)];
      RunSteps(w, cfg, actions);
      ShortAndGone(w, cfg, c);
    }
  }

  lemma ShortAndGone(w: World, cfg: Config, c: int)
    requires At(w, c).Created?
    ensures var u := Next(Next(w, cfg, WriteShort(c, 0)), cfg, Remove(c, true));
            u.store == w.store.(files := w.store.files - {Own(cfg, At(w, c))}) && u.calls == w.calls[c := Idle]
  {
    var files, p := w.store.files, Own(cfg, At(w, c));
    assert files[p := At(w, c).body[..0]] - {p} == files - {p};
  }

  /** The other files keep their owners, so no file becomes lasting. */
  lemma FreedLasts(w: World, u: World, cfg: Config, p: BinPath, n: Name)
    requires u.store == w.store.(files := w.store.files - {p})
    requires exists c :: c in w.calls && !w.calls[c].Idle? && Own(cfg, w.calls[c]) == p && u.calls == w.calls[c := Idle]
    requires !Lasting(w, cfg, n)
    ensures !Lasting(u, cfg, n)
  {
    forall q | q in u.store.files && BinName(q) == n ensures Removable(u, cfg, q) {
      assert Removable(w, cfg, q);
      var c :| c in w.calls && (w.calls[c].Created? || w.calls[c].WriteFailed?) && Own(cfg, w.calls[c]) == q;
      assert c in u.calls && u.calls[c] == w.calls[c];
    }
  }

  /** The slot stays open when a file is removed. */
  lemma FreedStaysOpen(w: World, u: World, cfg: Config, slot: Slot, p: BinPath)
    requires u.store == w.store.(files := w.store.files - {p})
    requires exists c :: c in w.calls && !w.calls[c].Idle? && Own(cfg, w.calls[c]) == p && u.calls == w.calls[c := Idle]
    requires Open(w, cfg, slot) && NextFile(w, cfg, slot) !in u.store.files
    ensures Open(u, cfg, slot) && NextFile(u, cfg, slot) == NextFile(w, cfg, slot)
  {
    hide Lasting, BinName, JsonName, MaxVersion;
    var d := NextFile(w, cfg, slot).dir;
    forall k | 0 <= k <= |d| ensures !Lasting(u, cfg, d[..k]) { FreedLasts(w, u, cfg, p, d[..k]); }
  }

  /** The files on the way to an open slot's directory can all be removed. */
  lemma {:induction false} ClearWay(w: World, cfg: Config, slot: Slot, m: nat) returns (actions: seq<Action>)
    requires AllOK(w, cfg) && Open(w, cfg, slot) && NextFile(w, cfg, slot) !in w.store.files && m <= |cfg.dirOf(slot)|
    ensures var u := Run(w, cfg, actions);
            && AllOK(u, cfg) && Open(u, cfg, slot) && u.store.rows == w.store.rows
            && NextFile(u, cfg, slot) !in u.store.files
            && forall k :: 0 <= k <= m ==> !IsFile(u.store, cfg.dirOf(slot)[..k])
  {
    var d := cfg.dirOf(slot);
    if m == 0 {
      actions := [];
      RootIsNoFile(w.store, d);
    } else {
      var first := ClearWay(w, cfg, slot, m - 1);
      var mid := Run(w, cfg, first);
      if IsFile(mid.store, d[..m]) {
        var rest := ClearOne(mid, cfg, slot, m);
        RunConcat(w, cfg, first, rest);
        actions := first + rest;
      } else {
        actions := first;
      }
    }
  }

  lemma RootIsNoFile(s: Store, d: Name)
    ensures !IsFile(s, d[..0])
  {
    assert |d[..0]| == 0;
  }

  lemma ClearOne(w: World, cfg: Config, slot: Slot, m: nat) returns (actions: seq<Action>)
    requires AllOK(w, cfg) && Open(w, cfg, slot) && NextFile(w, cfg, slot) !in w.store.files && 0 < m <= |cfg.dirOf(slot)|
    requires IsFile(w.store, cfg.dirOf(slot)[..m])
    ensures var u := Run(w, cfg, actions);
            && AllOK(u, cfg) && Open(u, cfg, slot) && u.store.rows == w.store.rows
            && NextFile(u, cfg, slot) !in u.store.files
            && !IsFile(u.store, cfg.dirOf(slot)[..m])
            && forall n :: IsFile(u.store, n) ==> IsFile(w.store, n)
  {
    var n := cfg.dirOf(slot)[..m];
    assert !Lasting(w, cfg, NextFile(w, cfg, slot).dir[..m]);
    var p :| p in w.store.files && BinName(p) == n;
    assert Removable(w, cfg, p);
    forall q | BinName(q) == n || JsonName(q) == n ensures q == p && JsonName(q) != n {
      NamesDistinct(p, q);
    }
    assert forall q :: q in w.store.manifests ==> JsonName(q) != n;
    hide BinName, JsonName, Lasting, WorldOK, ManifestsOK, DiskOK, Run, MaxVersion;
    actions := FreeFile(w, cfg, p);
    RunKeepsAll(w, cfg, actions);
    FreedStaysOpen(w, Run(w, cfg, actions), cfg, slot, p);
  }

  /** Some continuation records another version for the slot exactly when it is
      open.  A file left by a call that failed late, an upload whose path leads
      through the next file's name, or a file on the way, closes it for good. */
  lemma CanRecordIff(w: World, cfg: Config, slot: Slot)
    requires AllOK(w, cfg)
    ensures (exists actions :: Records(w, cfg, actions, slot)) <==> Open(w, cfg, slot)
  {
    if Open(w, cfg, slot) {
      var actions := Serve(w, cfg, slot);
    } else {
      forall actions ensures !Records(w, cfg, actions, slot) { ClosedForever(w, cfg, actions, slot); }
    }
  }

  lemma Serve(w: World, cfg: Config, slot: Slot) returns (actions: seq<Action>)
    requires AllOK(w, cfg) && Open(w, cfg, slot)
    ensures Records(w, cfg, actions, slot)
  {
    hide WorldOK, ManifestsOK, DiskOK, Records, Run, BinName, JsonName, MaxVersion;
    var p := NextFile(w, cfg, slot);
    if p !in w.store.files {
      actions := ServeFree(w, cfg, slot);
    } else {
      var c :| c in w.calls && MayYield(w.calls[c], cfg, slot, p);
      if w.calls[c].Created? || w.calls[c].WriteFailed? {
        assert Removable(w, cfg, p);
        var first := FreeFile(w, cfg, p);
        var u := Run(w, cfg, first);
        RunKeepsAll(w, cfg, first);
        FreedStaysOpen(w, u, cfg, slot, p);
        var rest := ServeFree(u, cfg, slot);
        PrependRecords(w, cfg, first, rest, slot);
        actions := first + rest;
      } else {
        actions := FinishOwner(w, cfg, c);
      }
    }
  }

  lemma ServeFree(w: World, cfg: Config, slot: Slot) returns (actions: seq<Action>)
    requires AllOK(w, cfg) && Open(w, cfg, slot) && NextFile(w, cfg, slot) !in w.store.files
    ensures Records(w, cfg, actions, slot)
  {
    hide AllOK, Records, Run, MaxVersion;
    var first := ClearWay(w, cfg, slot, |cfg.dirOf(slot)|);
    var u := Run(w, cfg, first);
    var rest := StartAndFinish(u, cfg, slot);
    PrependRecords(w, cfg, first, rest, slot);
    actions := first + rest;
  }

  // ---------------------------------------------------------------- paths that lead through files

  /** An upload whose directory leads through the name of another slot's version,
      or of its manifest, keeps that version from ever being recorded. */
  lemma LeadsThrough(w: World, cfg: Config, a: Slot, b: Slot, v: int)
    requires AllOK(w, cfg) && v >= 1 && MaxVersion(w.store.rows, a) >= 1
    requires BinName(PathFor(cfg, b, v)) <= cfg.dirOf(a) || JsonName(PathFor(cfg, b, v)) <= cfg.dirOf(a)
    ensures MaxVersion(w.store.rows, b) < v
    ensures MaxVersion(w.store.rows, b) == v - 1 ==> forall actions :: !Records(w, cfg, actions, b)
  {
    DirectoryThere(w, cfg, a);
    var p := PathFor(cfg, b, v);
    var d := cfg.dirOf(a);
    assert BinName(p) <= d ==> d[..|BinName(p)|] == BinName(p);
    assert JsonName(p) <= d ==> d[..|JsonName(p)|] == JsonName(p);
    hide WorldOK, ManifestsOK, BinName, JsonName, MaxVersion, Records;
    assert BinName(p) in w.store.dirs || JsonName(p) in w.store.dirs;
    if MaxVersion(w.store.rows, b) >= v { RecordedNames(w, cfg, b, v); }
    if MaxVersion(w.store.rows, b) == v - 1 { CanRecordIff(w, cfg, b); }
  }

  lemma DirectoryThere(w: World, cfg: Config, a: Slot)
    requires AllOK(w, cfg) && MaxVersion(w.store.rows, a) >= 1
    ensures cfg.dirOf(a) in w.store.dirs
  {
    var rows := w.store.rows;
    VersionsOf(rows, a);
    assert HasVersion(rows, a, 1);
    var i :| 0 <= i < |rows| && rows[i].slot == a && rows[i].version == 1;
    assert Describes(cfg, w.store.files, rows[i]);
  }

  lemma RecordedNames(w: World, cfg: Config, b: Slot, v: int)
    requires AllOK(w, cfg) && 1 <= v <= MaxVersion(w.store.rows, b)
    ensures BinName(PathFor(cfg, b, v)) !in w.store.dirs && JsonName(PathFor(cfg, b, v)) !in w.store.dirs
  {
    var rows := w.store.rows;
    VersionsOf(rows, b);
    assert HasVersion(rows, b, v);
    var i :| 0 <= i < |rows| && rows[i].slot == b && rows[i].version == v;
    assert Describes(cfg, w.store.files, rows[i]) && HasManifest(w.store, rows[i]);
  }

  /** Every path has such uploads below it: those named as its versions are. */
  lemma UploadsLeadThrough(user: string, p: string, v: nat)
    ensures var place := BinPath(SafePaths.ArchiveDir(user, p), v);
            && SafePaths.ArchiveDir(user, p + "/" + (Number(v) + ".bin")) == BinName(place)
            && SafePaths.ArchiveDir(user, p + "/" + (Number(v) + ".json")) == JsonName(place)
  {
    SafePaths.VersionNameClear(Number(v), ".bin");
    SafePaths.VersionNameClear(Number(v), ".json");
    SafePaths.DirBelow(user, p, Number(v) + ".bin");
    SafePaths.DirBelow(user, p, Number(v) + ".json");
  }
}
