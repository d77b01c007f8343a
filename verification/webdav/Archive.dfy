/** The immutable upload archive: concurrent `archiveUpload` calls as
    interleaved steps that may each fail.

    The archive directory of a (user, path) is an arbitrary function of the
    pair, so sanitised paths may collide in any way, and lead through each
    other's files; the SHA-256 of a body is an arbitrary function too. */
module Archive {
  import opened Model
  import Decimals
  import Paths

  type Bytes = seq<Byte>

  /** One uploaded path of one user. */
  datatype Slot = Slot(user: int, path: string)

  /** A file or directory below the data directory, by its segments. */
  type Name = seq<string>

  datatype Config = Config(dirOf: Slot -> Name, sha: Bytes -> string)

  /** The place of one version: {dir}/{version}.bin, with {version}.json beside it. */
  datatype BinPath = BinPath(dir: Name, version: int)

  /** A moon_uploads row. */
  datatype Upload = Upload(slot: Slot, version: int, size: int, sha: string, file: BinPath)

  /** Disk, table, and what the observers were told.  The manifest of a version
      says what its row will say; None stands for one that was cut short. */
  datatype Store = Store(
    files: map<BinPath, Bytes>, manifests: map<BinPath, Option<Upload>>, dirs: set<Name>, rows: seq<Upload>, told: seq<Upload>)

  // ---------------------------------------------------------------- names on the disk

  /** %d */
  function Number(v: int): string {
    if v >= 0 then Decimals.Digits(v) else "-" + Decimals.Digits(-v)
  }

  function BinName(p: BinPath): Name {
    p.dir + [Number(p.version) + ".bin"]
  }

  function JsonName(p: BinPath): Name {
    p.dir + [Number(p.version) + ".json"]
  }

  predicate IsFile(s: Store, n: Name) {
    || (exists p :: p in s.files && BinName(p) == n)
    || (exists p :: p in s.manifests && JsonName(p) == n)
  }

  /** How many of the first m directories on the way to d are there, or can be
      made: none from the first file on. */
  function Reach(s: Store, d: Name, m: nat): (r: nat)
    requires m <= |d|
    ensures r <= m
  {
    if m == 0 then 0
    else
      var r := Reach(s, d, m - 1);
      if r < m - 1 || IsFile(s, d[..m]) then r else m
  }

  function Prefixes(d: Name, m: nat): set<Name>
    requires m <= |d|
  {
    set k | 0 <= k <= m :: d[..k]
  }

  /** MkdirAll of d, which may give up after `most` directories. */
  function MadeDirs(s: Store, d: Name, most: nat): Store {
    s.(dirs := s.dirs + Prefixes(d, Made(s, d, most)))
  }

  function Made(s: Store, d: Name, most: nat): (r: nat)
    ensures r <= |d|
  {
    Reach(s, d, if most < |d| then most else |d|)
  }

  // ---------------------------------------------------------------- the statements

  /** SELECT COALESCE(MAX(version), 0) over the rows from the first n. */
  function MaxVersion(rows: seq<Upload>, slot: Slot): int {
    if rows == [] then 0
    else
      var m := MaxVersion(rows[..|rows| - 1], slot);
      var r := rows[|rows| - 1];
      if r.slot == slot && r.version > m then r.version else m
  }

  function PathFor(cfg: Config, slot: Slot, version: int): BinPath {
    BinPath(cfg.dirOf(slot), version)
  }

  function Row(cfg: Config, slot: Slot, version: int, body: Bytes): Upload {
    Upload(slot, version, |body|, cfg.sha(body), PathFor(cfg, slot, version))
  }

  /** UNIQUE(user_id, rel_path, version) */
  predicate UniqueOK(rows: seq<Upload>, slot: Slot, version: int) {
    forall i :: 0 <= i < |rows| ==> rows[i].slot != slot || rows[i].version != version
  }

  /** LatestVersion: the row of greatest version, first found. */
  function LatestFrom(rows: seq<Upload>, slot: Slot): Option<Upload> {
    if rows == [] then None
    else
      var best := LatestFrom(rows[..|rows| - 1], slot);
      var r := rows[|rows| - 1];
      if r.slot == slot && (best.None? || r.version > best.value.version) then Some(r) else best
  }

  datatype Op = OpLookup | OpProbe | OpMkdir | OpCreate | OpWrite | OpRemove | OpClose | OpManifest | OpInsert

  datatype Outcome = Outcome(result: Option<Upload>, store: Store)

  /** What a call leaves that has written its whole file. */
  function FileKept(s: Store, p: BinPath, row: Upload, faults: set<Op>): Store {
    if OpClose in faults || JsonName(p) in s.dirs then s
    else if OpManifest in faults then s.(manifests := s.manifests[p := None])
    else if OpInsert in faults || !UniqueOK(s.rows, row.slot, row.version) then s.(manifests := s.manifests[p := Some(row)])
    else s.(manifests := s.manifests[p := Some(row)], rows := s.rows + [row], told := s.told + [row])
  }

  /** How a call can fall short of what it attempts: the operations that fail,
      how many directories a failing mkdir makes, and how much of the body a
      failing write leaves. */
  datatype Trouble = Trouble(faults: set<Op>, made: nat, written: nat)

  /** What one undisturbed call returns and leaves behind. */
  function Uploaded(cfg: Config, s: Store, slot: Slot, body: Bytes, x: Trouble): Outcome
    requires x.written <= |body|
  {
    if !(x.faults !! {OpLookup, OpProbe}) then Outcome(None, s)
    else
      var d := cfg.dirOf(slot);
      var most := if OpMkdir in x.faults then x.made else |d|;
      var housed := MadeDirs(s, d, most);
      if OpMkdir in x.faults || Made(s, d, most) < |d| then Outcome(None, housed)
      else FileUploaded(housed, PathFor(cfg, slot, MaxVersion(s.rows, slot) + 1),
                        Row(cfg, slot, MaxVersion(s.rows, slot) + 1, body), body, x)
  }

  /** The part of a call from the exclusive create on. */
  function FileUploaded(s: Store, p: BinPath, row: Upload, body: Bytes, x: Trouble): Outcome
    requires x.written <= |body|
  {
    if OpCreate in x.faults || p in s.files || BinName(p) in s.dirs then Outcome(None, s)
    else if OpWrite in x.faults then
      Outcome(None, if OpRemove in x.faults then s.(files := s.files[p := body[..x.written]]) else s)
    else
      Outcome(if x.faults !! {OpClose, OpManifest, OpInsert} && JsonName(p) !in s.dirs && UniqueOK(s.rows, row.slot, row.version)
              then Some(row) else None,
              FileKept(s.(files := s.files[p := body]), p, row, x.faults))
  }

  /** One call, alone, with the disk, the table and the known users as its fields. */
  class Archiver {
    const cfg: Config
    const users: map<string, int>
    var files: map<BinPath, Bytes>
    var manifests: map<BinPath, Option<Upload>>
    var dirs: set<Name>
    var rows: seq<Upload>
    var told: seq<Upload>

    constructor (cfg: Config, users: map<string, int>)
      ensures this.cfg == cfg && this.users == users && View() == EMPTY
    {
      this.cfg, this.users, files, manifests, dirs, rows, told := cfg, users, map[], map[], {}, [], [];
    }

    function View(): Store
      reads this
    {
      Store(files, manifests, dirs, rows, told)
    }

    method ProbeVersion(slot: Slot) returns (next: int)
      ensures next == MaxVersion(rows, slot) + 1
    {
      var max := 0;
      for i := 0 to |rows|
        invariant max == MaxVersion(rows[..i], slot)
      {
        assert rows[..i + 1][..i] == rows[..i];
        if rows[i].slot == slot && rows[i].version > max { max := rows[i].version; }
      }
      assert rows[..|rows|] == rows;
      return max + 1;
    }

    /** archiveUpload: refuses an anonymous upload, an empty path and an unknown user. */
    method ArchiveUpload(user: string, relPath: string, body: Bytes, x: Trouble) returns (r: Option<Upload>)
      requires x.written <= |body|
      modifies this
      ensures var clean := Paths.TrimSlashes(relPath);
              if user == "" || clean == "" || user !in users then r == None && View() == old(View())
              else Outcome(r, View()) == Uploaded(cfg, old(View()), Slot(users[user], clean), body, x)
      ensures r.None? ==> rows == old(rows) && told == old(told)
      ensures forall q :: q in old(files) ==> q in files && files[q] == old(files)[q]
    {
      hide MaxVersion, UniqueOK, Paths.TrimSlashes, Reach, Prefixes, BinName, JsonName, FileUploaded;
      var cleanPath := Paths.TrimSlashes(relPath);
      if user == "" || cleanPath == "" { return None; }
      if OpLookup in x.faults || user !in users || OpProbe in x.faults { return None; }
      var slot := Slot(users[user], cleanPath);
      var next := ProbeVersion(slot);
      var d := cfg.dirOf(slot);
      var made := Made(View(), d, if OpMkdir in x.faults then x.made else |d|);
      dirs := dirs + Prefixes(d, made);
      if OpMkdir in x.faults || made < |d| { return None; }
      r := WriteVersion(PathFor(cfg, slot, next), Row(cfg, slot, next, body), body, x);
    }

    /** The part of archiveUpload from the exclusive create on. */
    method WriteVersion(path: BinPath, upload: Upload, body: Bytes, x: Trouble) returns (r: Option<Upload>)
      requires x.written <= |body|
      modifies this
      ensures Outcome(r, View()) == FileUploaded(old(View()), path, upload, body, x)
      ensures r.None? ==> rows == old(rows) && told == old(told)
      ensures forall q :: q in old(files) ==> q in files && files[q] == old(files)[q]
    {
      hide UniqueOK, BinName, JsonName;
      if OpCreate in x.faults || path in files || BinName(path) in dirs { return None; }
      files := files[path := []];
      if OpWrite in x.faults {
        files := files[path := body[..x.written]];
        if OpRemove !in x.faults { files := files - {path}; }
        return None;
      }
      files := files[path := body];
      if OpClose in x.faults || JsonName(path) in dirs { return None; }
      if OpManifest in x.faults {
        manifests := manifests[path := None];
        return None;
      }
      manifests := manifests[path := Some(upload)];
      if OpInsert in x.faults || !UniqueOK(rows, upload.slot, upload.version) { return None; }
      rows := rows + [upload];
      told := told + [upload];
      return Some(upload);
    }

    method LatestVersion(user: string, relPath: string, faults: set<Op>) returns (r: Option<Upload>, err: bool)
      ensures err <==> OpLookup in faults || (user in users && OpProbe in faults)
      ensures r == if err || user !in users then None else LatestFrom(rows, Slot(users[user], Paths.TrimSlashes(relPath)))
    {
      if OpLookup in faults { return None, true; }
      if user !in users { return None, false; }
      if OpProbe in faults { return None, true; }
      r := LatestRow(Slot(users[user], Paths.TrimSlashes(relPath)));
      err := false;
    }

    /** SELECT ... ORDER BY version DESC LIMIT 1 */
    method LatestRow(slot: Slot) returns (r: Option<Upload>)
      ensures r == LatestFrom(rows, slot)
    {
      r := None;
      for i := 0 to |rows|
        invariant r == LatestFrom(rows[..i], slot)
      {
        assert rows[..i + 1][..i] == rows[..i];
        if rows[i].slot == slot && (r.None? || rows[i].version > r.value.version) { r := Some(rows[i]); }
      }
      assert rows[..|rows|] == rows;
    }
  }

  // ---------------------------------------------------------------- interleaved calls

  /** Where a call stands.  From `Created` to `Described` it owns its file. */
  datatype Call =
    | Idle
    | Probed(slot: Slot, body: Bytes, version: int)
    | Housed(slot: Slot, body: Bytes, version: int)
    | Created(slot: Slot, body: Bytes, version: int)
    | WriteFailed(slot: Slot, body: Bytes, version: int)
    | Written(slot: Slot, body: Bytes, version: int)
    | Closed(slot: Slot, body: Bytes, version: int)
    | Described(slot: Slot, body: Bytes, version: int)
    | Recorded(slot: Slot, body: Bytes, version: int)

  datatype World = World(store: Store, calls: map<int, Call>)

  const EMPTY := Store(map[], map[], {}, [], [])

  const INIT := World(EMPTY, map[])

  datatype Action =
    | Begin(call: int, slot: Slot, body: Bytes)       // user lookup and version probe succeed
    | Mkdir(call: int, most: nat)                     // stops at a file, or by failing after `most` directories
    | Create(call: int)                               // exclusive create: fails on an existing file or directory
    | Write(call: int)
    | WriteShort(call: int, written: nat)             // write error after some bytes
    | Remove(call: int, done: bool)
    | CloseFile(call: int)
    | Manifest(call: int)
    | ManifestShort(call: int)                        // manifest written in part, or not at all
    | Insert(call: int)
    | Announce(call: int)                             // the observers run; their panics are caught
    | GiveUp(call: int)                               // any other failure: the call returns its error

  function At(w: World, c: int): Call {
    if c in w.calls then w.calls[c] else Idle
  }

  function Set(w: World, c: int, to: Call): World {
    w.(calls := w.calls[c := to])
  }

  function Own(cfg: Config, call: Call): BinPath
    requires !call.Idle?
  {
    PathFor(cfg, call.slot, call.version)
  }

  function RowOf(cfg: Config, call: Call): Upload
    requires !call.Idle?
  {
    Row(cfg, call.slot, call.version, call.body)
  }

  function Next(w: World, cfg: Config, a: Action): World {
    var c := a.call;
    var call := At(w, c);
    match a
    case Begin(_, slot, body) =>
      if call.Idle? then Set(w, c, Probed(slot, body, MaxVersion(w.store.rows, slot) + 1)) else w
    case Mkdir(_, most) =>
      if !call.Probed? then w
      else
        var d := cfg.dirOf(call.slot);
        Set(w, c, if Made(w.store, d, most) == |d| then Housed(call.slot, call.body, call.version) else Idle)
        .(store := MadeDirs(w.store, d, most))
    case Create(_) =>
      if !call.Housed? then w
      else if Own(cfg, call) in w.store.files || BinName(Own(cfg, call)) in w.store.dirs then Set(w, c, Idle)
      else Set(w, c, Created(call.slot, call.body, call.version))
           .(store := w.store.(files := w.store.files[Own(cfg, call) := []]))
    case Write(_) =>
      if !call.Created? then w
      else Set(w, c, Written(call.slot, call.body, call.version))
           .(store := w.store.(files := w.store.files[Own(cfg, call) := call.body]))
    case WriteShort(_, written) =>
      if !call.Created? || written > |call.body| then w
      else Set(w, c, WriteFailed(call.slot, call.body, call.version))
           .(store := w.store.(files := w.store.files[Own(cfg, call) := call.body[..written]]))
    case Remove(_, done) =>
      if !call.WriteFailed? then w
      else Set(w, c, Idle).(store := if done then w.store.(files := w.store.files - {Own(cfg, call)}) else w.store)
    case CloseFile(_) =>
      if call.Written? then Set(w, c, Closed(call.slot, call.body, call.version)) else w
    case Manifest(_) =>
      if !call.Closed? then w
      else if JsonName(Own(cfg, call)) in w.store.dirs then Set(w, c, Idle)
      else Set(w, c, Described(call.slot, call.body, call.version))
           .(store := w.store.(manifests := w.store.manifests[Own(cfg, call) := Some(RowOf(cfg, call))]))
    case ManifestShort(_) =>
      if !call.Closed? then w
      else if JsonName(Own(cfg, call)) in w.store.dirs then Set(w, c, Idle)
      else Set(w, c, Idle).(store := w.store.(manifests := w.store.manifests[Own(cfg, call) := None]))
    case Insert(_) =>
      if !call.Described? then w
      else if !UniqueOK(w.store.rows, call.slot, call.version) then Set(w, c, Idle)
      else Set(w, c, Recorded(call.slot, call.body, call.version))
           .(store := w.store.(rows := w.store.rows + [RowOf(cfg, call)]))
    case Announce(_) =>
      if !call.Recorded? then w
      else Set(w, c, Idle).(store := w.store.(told := w.store.told + [RowOf(cfg, call)]))
    case GiveUp(_) =>
      // a short write is always followed by the attempt to remove the file
      if call.WriteFailed? then w else Set(w, c, Idle)
  }

  function Run(w: World, cfg: Config, actions: seq<Action>): World {
    if actions == [] then w else Next(Run(w, cfg, actions[..|actions| - 1]), cfg, actions[|actions| - 1])
  }

  /** The steps of one call that meets this trouble. */
  function Script(cfg: Config, c: int, slot: Slot, body: Bytes, x: Trouble): seq<Action> {
    if !(x.faults !! {OpLookup, OpProbe}) then []
    else if OpMkdir in x.faults then [Begin(c, slot, body), Mkdir(c, x.made), GiveUp(c)]
    else [Begin(c, slot, body), Mkdir(c, |cfg.dirOf(slot)|)] + FileScript(c, x)
  }

  function FileScript(c: int, x: Trouble): seq<Action> {
    if OpCreate in x.faults then [GiveUp(c)] else [Create(c)] + BodyScript(c, x)
  }

  function BodyScript(c: int, x: Trouble): seq<Action> {
    if OpWrite in x.faults then [WriteShort(c, x.written), Remove(c, OpRemove !in x.faults)]
    else if OpClose in x.faults then [Write(c), GiveUp(c)]
    else [Write(c), CloseFile(c)] + RecordScript(c, x.faults)
  }

  function RecordScript(c: int, faults: set<Op>): seq<Action> {
    if OpManifest in faults then [ManifestShort(c)]
    else if OpInsert in faults then [Manifest(c), GiveUp(c)]
    else [Manifest(c), Insert(c), Announce(c)]
  }

  lemma {:induction false} RunConcat(w: World, cfg: Config, a: seq<Action>, b: seq<Action>)
    ensures Run(w, cfg, a + b) == Run(Run(w, cfg, a), cfg, b)
  {
    if b == [] {
      assert a + b == a;
    } else {
      RunConcat(w, cfg, a, b[..|b| - 1]);
      assert (a + b)[..|a + b| - 1] == a + b[..|b| - 1];
    }
  }

  /** Left undisturbed, the steps of a call do to the store what the call does. */
  lemma SoloCall(w: World, cfg: Config, c: int, slot: Slot, body: Bytes, x: Trouble)
    requires At(w, c).Idle? && x.written <= |body|
    ensures var u := Run(w, cfg, Script(cfg, c, slot, body, x));
            At(u, c).Idle? && u.store == Uploaded(cfg, w.store, slot, body, x).store
  {
    hide Next, FileScript, MaxVersion, FileUploaded, MadeDirs, Made;
    if x.faults !! {OpLookup, OpProbe} {
      if OpMkdir in x.faults {
        MkdirSteps(w, cfg, c, slot, body, x.made);
      } else {
        var begun := [Begin(c, slot, body), Mkdir(c, |cfg.dirOf(slot)|)];
        MkdirSteps(w, cfg, c, slot, body, |cfg.dirOf(slot)|);
        RunConcat(w, cfg, begun, FileScript(c, x));
        var mid := Run(w, cfg, begun);
        if At(mid, c).Idle? { NoSteps(mid, cfg, c, x); } else { FileSteps(mid, cfg, c, x); }
      }
    }
  }

  /** The part of a call up to its directory, and its return when mkdir fails. */
  lemma MkdirSteps(w: World, cfg: Config, c: int, slot: Slot, body: Bytes, most: nat)
    requires At(w, c).Idle?
    ensures var d := cfg.dirOf(slot);
            var u := Run(w, cfg, [Begin(c, slot, body), Mkdir(c, most)]);
            var v := MaxVersion(w.store.rows, slot) + 1;
            && u.store == MadeDirs(w.store, d, most)
            && At(u, c) == (if Made(w.store, d, most) == |d| then Housed(slot, body, v) else Idle)
    ensures var u := Run(w, cfg, [Begin(c, slot, body), Mkdir(c, most), GiveUp(c)]);
            At(u, c).Idle? && u.store == MadeDirs(w.store, cfg.dirOf(slot), most)
  {
    hide MaxVersion, MadeDirs, Made;
    RunSteps(w, cfg, [Begin(c, slot, body), Mkdir(c, most)]);
    RunSteps(w, cfg, [Begin(c, slot, body), Mkdir(c, most), GiveUp(c)]);
  }

  lemma RunSteps(w: World, cfg: Config, actions: seq<Action>)
    requires |actions| <= 3
    ensures Run(w, cfg, actions) ==
            if |actions| == 0 then w
            else if |actions| == 1 then Next(w, cfg, actions[0])
            else if |actions| == 2 then Next(Next(w, cfg, actions[0]), cfg, actions[1])
            else Next(Next(Next(w, cfg, actions[0]), cfg, actions[1]), cfg, actions[2])
  {
    hide Next;
    if actions == [] {
    } else {
      RunSteps(w, cfg, actions[..|actions| - 1]);
    }
  }

  /** The file part of a call whose directory is there. */
  lemma FileSteps(w: World, cfg: Config, c: int, x: Trouble)
    requires At(w, c).Housed? && x.written <= |At(w, c).body|
    ensures var u := Run(w, cfg, FileScript(c, x));
            At(u, c).Idle? && u.store == FileUploaded(w.store, Own(cfg, At(w, c)), RowOf(cfg, At(w, c)), At(w, c).body, x).store
  {
    hide BinName, FileKept, BodyScript, UniqueOK;
    RunSteps(w, cfg, [GiveUp(c)]);
    RunSteps(w, cfg, [Create(c)]);
    RunConcat(w, cfg, [Create(c)], BodyScript(c, x));
    var mid := Next(w, cfg, Create(c));
    if At(mid, c).Idle? {
      NoSteps(mid, cfg, c, x);
    } else {
      BodySteps(mid, cfg, c, x);
      var files, p := w.store.files, Own(cfg, At(w, c));
      var body := At(w, c).body;
      assert files[p := []] - {p} == files && files[p := []][p := body] == files[p := body];
      assert files[p := []][p := body[..x.written]] == files[p := body[..x.written]];
    }
  }

  /** The rest of a call that has just created its file. */
  lemma BodySteps(w: World, cfg: Config, c: int, x: Trouble)
    requires At(w, c).Created? && x.written <= |At(w, c).body| && Own(cfg, At(w, c)) in w.store.files
    ensures var u := Run(w, cfg, BodyScript(c, x));
            var p := Own(cfg, At(w, c));
            && At(u, c).Idle?
            && u.store == if OpWrite in x.faults
                          then w.store.(files := if OpRemove in x.faults then w.store.files[p := At(w, c).body[..x.written]] else w.store.files - {p})
                          else FileKept(w.store.(files := w.store.files[p := At(w, c).body]), p, RowOf(cfg, At(w, c)), x.faults)
  {
    hide JsonName, UniqueOK;
    if OpWrite in x.faults || OpClose in x.faults {
      RunSteps(w, cfg, BodyScript(c, x));
    } else {
      RunSteps(w, cfg, [Write(c), CloseFile(c)]);
      RunConcat(w, cfg, [Write(c), CloseFile(c)], RecordScript(c, x.faults));
      RecordSteps(Run(w, cfg, [Write(c), CloseFile(c)]), cfg, c, x.faults);
    }
  }

  lemma RecordSteps(w: World, cfg: Config, c: int, faults: set<Op>)
    requires At(w, c).Closed? && OpClose !in faults
    ensures var u := Run(w, cfg, RecordScript(c, faults));
            && At(u, c).Idle? && u.store == FileKept(w.store, Own(cfg, At(w, c)), RowOf(cfg, At(w, c)), faults)
  {
    RunSteps(w, cfg, RecordScript(c, faults));
  }

  /** A call that has returned does nothing more. */
  lemma NoSteps(w: World, cfg: Config, c: int, x: Trouble)
    requires At(w, c).Idle?
    ensures var u := Run(w, cfg, FileScript(c, x)); At(u, c).Idle? && u.store == w.store
    ensures var u := Run(w, cfg, BodyScript(c, x)); At(u, c).Idle? && u.store == w.store
  {
    hide Run;
    var script := BodyScript(c, x);
    assert forall i :: 0 <= i < |script| ==> script[i].call == c && !script[i].Begin?;
    var all := FileScript(c, x);
    assert forall i :: 0 <= i < |all| ==> all[i].call == c && !all[i].Begin?;
    StaysIdle(w, cfg, c, script);
    StaysIdle(w, cfg, c, all);
  }

  lemma {:induction false} StaysIdle(w: World, cfg: Config, c: int, actions: seq<Action>)
    requires At(w, c).Idle? && forall i :: 0 <= i < |actions| ==> actions[i].call == c && !actions[i].Begin?
    ensures var u := Run(w, cfg, actions); At(u, c).Idle? && u.store == w.store
  {
    if actions == [] {
    } else {
      StaysIdle(w, cfg, c, actions[..|actions| - 1]);
    }
  }

  // ---------------------------------------------------------------- the invariant

  /** The call has created its file and not yet recorded or removed it. */
  predicate Owner(call: Call) {
    !call.Idle? && !call.Probed? && !call.Housed? && !call.Recorded?
  }

  /** Rows of the slot, in table order. */
  function Versions(rows: seq<Upload>, slot: Slot): seq<int> {
    if rows == [] then []
    else
      var rest := Versions(rows[..|rows| - 1], slot);
      if rows[|rows| - 1].slot == slot then rest + [rows[|rows| - 1].version] else rest
  }

  /** The versions recorded for the slot are 1, 2, ..., n in order. */
  predicate Contiguous(rows: seq<Upload>, slot: Slot) {
    var vs := Versions(rows, slot);
    forall i :: 0 <= i < |vs| ==> vs[i] == i + 1
  }

  /** A row describes its file. */
  predicate Describes(cfg: Config, files: map<BinPath, Bytes>, r: Upload) {
    && r.file == PathFor(cfg, r.slot, r.version)
    && r.file in files && r.size == |files[r.file]| && r.sha == cfg.sha(files[r.file])
  }

  ghost predicate RowsOK(w: World, cfg: Config) {
    var rows := w.store.rows;
    && (forall slot :: Contiguous(rows, slot))
    && (forall i :: 0 <= i < |rows| ==> Describes(cfg, w.store.files, rows[i]))
    && (forall i, j :: 0 <= i < j < |rows| ==> rows[i].file != rows[j].file)
  }

  /** An owner's file exists, belongs to no row and to no other owner, and carries the slot's next version. */
  ghost predicate OwnersOK(w: World, cfg: Config) {
    && (forall c :: c in w.calls && Owner(w.calls[c]) ==>
          var call := w.calls[c];
          && Own(cfg, call) in w.store.files
          && (forall i :: 0 <= i < |w.store.rows| ==> w.store.rows[i].file != Own(cfg, call))
          && call.version == MaxVersion(w.store.rows, call.slot) + 1
          && (call.Written? || call.Closed? || call.Described? ==> w.store.files[Own(cfg, call)] == call.body))
    && (forall c, d :: c in w.calls && d in w.calls && c != d && Owner(w.calls[c]) && Owner(w.calls[d]) ==>
          Own(cfg, w.calls[c]) != Own(cfg, w.calls[d]))
    // a probed version is not ahead of the table
    && (forall c :: c in w.calls && (w.calls[c].Probed? || w.calls[c].Housed?) ==>
          1 <= w.calls[c].version <= MaxVersion(w.store.rows, w.calls[c].slot) + 1)
  }

  ghost predicate WorldOK(w: World, cfg: Config) {
    RowsOK(w, cfg) && OwnersOK(w, cfg)
  }

  // ---------------------------------------------------------------- versions

  predicate HasVersion(rows: seq<Upload>, slot: Slot, v: int) {
    exists i :: 0 <= i < |rows| && rows[i].slot == slot && rows[i].version == v
  }

  lemma {:induction false} VersionsOf(rows: seq<Upload>, slot: Slot)
    requires Contiguous(rows, slot)
    ensures MaxVersion(rows, slot) == |Versions(rows, slot)|
    ensures forall v :: HasVersion(rows, slot, v) <==> 1 <= v <= |Versions(rows, slot)|
  {
    if rows == [] {
    } else {
      var rest, r := rows[..|rows| - 1], rows[|rows| - 1];
      var vs, ws := Versions(rows, slot), Versions(rest, slot);
      assert forall i :: 0 <= i < |ws| ==> ws[i] == vs[i];
      assert r.slot == slot ==> vs[|ws|] == r.version;
      VersionsOf(rest, slot);
      forall v ensures HasVersion(rows, slot, v) <==> HasVersion(rest, slot, v) || (r.slot == slot && v == r.version) {
        if HasVersion(rest, slot, v) {
          var i :| 0 <= i < |rest| && rest[i].slot == slot && rest[i].version == v;
          assert rows[i] == rest[i];
        }
        if HasVersion(rows, slot, v) {
          var i :| 0 <= i < |rows| && rows[i].slot == slot && rows[i].version == v;
          assert i < |rest| ==> rest[i] == rows[i];
        }
      }
    }
  }

  /** Appending the next version keeps every slot contiguous. */
  lemma AppendContiguous(rows: seq<Upload>, r: Upload, slot: Slot)
    requires Contiguous(rows, slot)
    requires r.slot == slot ==> r.version == MaxVersion(rows, slot) + 1
    ensures Contiguous(rows + [r], slot)
    ensures MaxVersion(rows + [r], slot) == if r.slot == slot then r.version else MaxVersion(rows, slot)
  {
    assert (rows + [r])[..|rows|] == rows;
    VersionsOf(rows, slot);
  }

  // ---------------------------------------------------------------- preservation

  lemma CreateKeeps(w: World, cfg: Config, c: int)
    requires WorldOK(w, cfg)
    ensures WorldOK(Next(w, cfg, Create(c)), cfg)
  {
    var call := At(w, c);
    hide Made, MadeDirs, BinName, JsonName;
    if call.Housed? && Own(cfg, call) !in w.store.files && BinName(Own(cfg, call)) !in w.store.dirs {
      var rows := w.store.rows;
      VersionsOf(rows, call.slot);
      // had the probed version been recorded since, its file would exist
      forall i | 0 <= i < |rows| && rows[i].slot == call.slot ensures rows[i].version != call.version {
        assert Describes(cfg, w.store.files, rows[i]);
      }
      assert !HasVersion(rows, call.slot, call.version);
      assert call.version == MaxVersion(rows, call.slot) + 1;
      var u := Next(w, cfg, Create(c));
      forall i | 0 <= i < |rows| ensures Describes(cfg, u.store.files, rows[i]) && rows[i].file != Own(cfg, call) {
        assert Describes(cfg, w.store.files, rows[i]);
      }
    }
  }

  /** Steps that write or remove the caller's own file. */
  lemma OwnFileKeeps(w: World, cfg: Config, a: Action)
    requires WorldOK(w, cfg) && (a.Write? || a.WriteShort? || a.Remove?)
    ensures WorldOK(Next(w, cfg, a), cfg)
  {
    hide Contiguous, MaxVersion, Versions, Made, Prefixes, BinName, JsonName;
    var u := Next(w, cfg, a);
    forall i | 0 <= i < |w.store.rows| ensures Describes(cfg, u.store.files, w.store.rows[i]) {
      assert Describes(cfg, w.store.files, w.store.rows[i]);
    }
  }

  /** Two owners of one slot would own the same file, so the inserter is alone. */
  lemma InsertKeeps(w: World, cfg: Config, c: int)
    requires WorldOK(w, cfg)
    ensures WorldOK(Next(w, cfg, Insert(c)), cfg)
    ensures At(w, c).Described? ==> UniqueOK(w.store.rows, At(w, c).slot, At(w, c).version)
  {
    var call := At(w, c);
    if call.Described? {
      InsertAdmitted(w, cfg, c);
      InsertKeepsRows(w, cfg, c);
      InsertKeepsOwners(w, cfg, c);
    }
  }

  lemma InsertAdmitted(w: World, cfg: Config, c: int)
    requires WorldOK(w, cfg) && At(w, c).Described?
    ensures var call := At(w, c);
            && UniqueOK(w.store.rows, call.slot, call.version)
            && Next(w, cfg, Insert(c)).store
               == w.store.(rows := w.store.rows + [RowOf(cfg, call)])
    ensures forall slot ::
              && Contiguous(Next(w, cfg, Insert(c)).store.rows, slot)
              && MaxVersion(Next(w, cfg, Insert(c)).store.rows, slot)
                 == if slot == At(w, c).slot then At(w, c).version else MaxVersion(w.store.rows, slot)
  {
    hide Contiguous, MaxVersion, Describes;
    var call := At(w, c);
    var rows := w.store.rows;
    VersionsOf(rows, call.slot);
    assert !HasVersion(rows, call.slot, call.version);
    var r := Row(cfg, call.slot, call.version, call.body);
    var u := Next(w, cfg, Insert(c));
    assert u.store.rows == rows + [r];
    forall slot
      ensures Contiguous(u.store.rows, slot)
      ensures MaxVersion(u.store.rows, slot) == if slot == call.slot then call.version else MaxVersion(rows, slot)
    {
      AppendContiguous(rows, r, slot);
    }
  }

  lemma InsertKeepsRows(w: World, cfg: Config, c: int)
    requires WorldOK(w, cfg) && At(w, c).Described?
    ensures RowsOK(Next(w, cfg, Insert(c)), cfg)
  {
    hide Contiguous, MaxVersion, Versions;
    InsertAdmitted(w, cfg, c);
    var rows := w.store.rows;
    var u := Next(w, cfg, Insert(c));
    forall i | 0 <= i < |u.store.rows| ensures Describes(cfg, u.store.files, u.store.rows[i]) {
      if i < |rows| { assert Describes(cfg, w.store.files, rows[i]); }
    }
  }

  lemma InsertKeepsOwners(w: World, cfg: Config, c: int)
    requires WorldOK(w, cfg) && At(w, c).Described?
    ensures OwnersOK(Next(w, cfg, Insert(c)), cfg)
  {
    hide Contiguous, MaxVersion, Versions, Describes;
    InsertAdmitted(w, cfg, c);
  }

  lemma NextKeeps(w: World, cfg: Config, a: Action)
    requires WorldOK(w, cfg)
    ensures WorldOK(Next(w, cfg, a), cfg)
  {
    hide WorldOK, Next;
    match a
    case Create(c) => CreateKeeps(w, cfg, c);
    case Insert(c) => InsertKeeps(w, cfg, c);
    case Begin(c, slot, body) => BeginKeeps(w, cfg, c, slot, body);
    case _ => if a.Write? || a.WriteShort? || a.Remove? { OwnFileKeeps(w, cfg, a); } else { OtherKeeps(w, cfg, a); }
  }

  lemma BeginKeeps(w: World, cfg: Config, c: int, slot: Slot, body: Bytes)
    requires WorldOK(w, cfg)
    ensures WorldOK(Next(w, cfg, Begin(c, slot, body)), cfg)
  {
    VersionsOf(w.store.rows, slot);
    hide Contiguous, MaxVersion, Versions, Describes;
  }

  /** Steps that touch neither the files nor the rows. */
  lemma OtherKeeps(w: World, cfg: Config, a: Action)
    requires WorldOK(w, cfg) && (a.Mkdir? || a.CloseFile? || a.Manifest? || a.ManifestShort? || a.Announce? || a.GiveUp?)
    ensures WorldOK(Next(w, cfg, a), cfg)
  {
    hide WorldOK, Made, Prefixes, JsonName;
    var u := Next(w, cfg, a);
    if u != w { QuietKeeps(w, u, cfg, a.call); }
  }

  /** A call goes on or ends without a change to the files and rows. */
  lemma QuietKeeps(w: World, u: World, cfg: Config, c: int)
    requires WorldOK(w, cfg) && u.store.files == w.store.files && u.store.rows == w.store.rows
    requires c in u.calls && u.calls == w.calls[c := u.calls[c]]
    requires var x, y := At(w, c), At(u, c);
             y.Idle? || (!x.Idle? && y.slot == x.slot && y.version == x.version && y.body == x.body
                         && (Owner(y) ==> x.Written? || x.Closed? || x.Described?) && (y.Housed? ==> x.Probed?) && !y.Probed?)
    ensures WorldOK(u, cfg)
  {
    hide Contiguous, MaxVersion, Describes;
  }

  /** Under every interleaving, with failures anywhere and any collision of
      directories: the versions of a slot are 1..n, every row describes its
      file, no two rows share one, and a pending insertion never violates the
      UNIQUE key. */
  lemma {:induction false} RunKeeps(cfg: Config, actions: seq<Action>)
    ensures WorldOK(Run(INIT, cfg, actions), cfg)
  {
    if actions == [] {
      assert forall slot :: Versions([], slot) == [];
    } else {
      RunKeeps(cfg, actions[..|actions| - 1]);
      NextKeeps(Run(INIT, cfg, actions[..|actions| - 1]), cfg, actions[|actions| - 1]);
    }
  }

  // ---------------------------------------------------------------- immutability

  lemma NextImmutable(w: World, cfg: Config, a: Action)
    requires WorldOK(w, cfg)
    ensures var u := Next(w, cfg, a).store;
            && |w.store.rows| <= |u.rows| && u.rows[..|w.store.rows|] == w.store.rows
            && forall i :: 0 <= i < |w.store.rows| ==>
                 var p := w.store.rows[i].file; p in w.store.files && p in u.files && u.files[p] == w.store.files[p]
  {
    forall i | 0 <= i < |w.store.rows| ensures w.store.rows[i].file in w.store.files {
      assert Describes(cfg, w.store.files, w.store.rows[i]);
    }
  }

  /** Once recorded, an upload's row and the bytes of its file never change. */
  lemma {:induction false} RecordedForever(w: World, cfg: Config, actions: seq<Action>)
    requires WorldOK(w, cfg)
    ensures var u := Run(w, cfg, actions);
            && WorldOK(u, cfg)
            && |w.store.rows| <= |u.store.rows| && u.store.rows[..|w.store.rows|] == w.store.rows
            && forall i :: 0 <= i < |w.store.rows| ==>
                 var p := w.store.rows[i].file; p in w.store.files && p in u.store.files && u.store.files[p] == w.store.files[p]
  {
    if actions == [] {
      NextImmutable(w, cfg, Begin(0, Slot(0, ""), []));
    } else {
      var before := actions[..|actions| - 1];
      var mid := Run(w, cfg, before);
      RecordedForever(w, cfg, before);
      NextKeeps(mid, cfg, actions[|actions| - 1]);
      NextImmutable(mid, cfg, actions[|actions| - 1]);
      var u := Next(mid, cfg, actions[|actions| - 1]);
      assert u.store.rows[..|w.store.rows|] == u.store.rows[..|mid.store.rows|][..|w.store.rows|];
      forall i | 0 <= i < |w.store.rows| ensures mid.store.rows[i] == w.store.rows[i] {
        assert mid.store.rows[..|w.store.rows|][i] == mid.store.rows[i];
      }
    }
  }

  /** Position of the slot's last row, -1 if it has none. */
  function LastRow(rows: seq<Upload>, slot: Slot): int {
    if rows == [] then -1
    else if rows[|rows| - 1].slot == slot then |rows| - 1
    else LastRow(rows[..|rows| - 1], slot)
  }

  /** LatestVersion returns the upload recorded last for the slot. */
  lemma {:induction false} LatestIsLast(rows: seq<Upload>, slot: Slot)
    requires Contiguous(rows, slot)
    ensures var k := LastRow(rows, slot);
            -1 <= k < |rows| && LatestFrom(rows, slot) == (if k < 0 then None else Some(rows[k]))
    ensures LatestFrom(rows, slot).Some? ==> LatestFrom(rows, slot).value.version == MaxVersion(rows, slot)
    ensures LatestFrom(rows, slot).None? ==> MaxVersion(rows, slot) == 0
  {
    if rows == [] {
    } else {
      var rest := rows[..|rows| - 1];
      var vs, ws := Versions(rows, slot), Versions(rest, slot);
      assert forall i :: 0 <= i < |ws| ==> ws[i] == vs[i];
      LatestIsLast(rest, slot);
      VersionsOf(rest, slot);
      if rows[|rows| - 1].slot == slot { assert vs[|ws|] == rows[|rows| - 1].version; }
    }
  }

  /** In every reachable state a pending insertion is admitted by the UNIQUE key,
      and the latest version of a slot is the upload recorded last. */
  lemma RunPromises(cfg: Config, actions: seq<Action>, c: int, slot: Slot)
    ensures var w := Run(INIT, cfg, actions);
            var k := LastRow(w.store.rows, slot);
            && (At(w, c).Described? ==> UniqueOK(w.store.rows, At(w, c).slot, At(w, c).version))
            && -1 <= k < |w.store.rows|
            && LatestFrom(w.store.rows, slot) == (if k < 0 then None else Some(w.store.rows[k]))
            && forall i :: 0 <= i < |w.store.rows| ==>
                 var r := w.store.rows[i];
                 r.file in w.store.files && r.size == |w.store.files[r.file]| && r.sha == cfg.sha(w.store.files[r.file])
  {
    RunKeeps(cfg, actions);
    var w := Run(INIT, cfg, actions);
    InsertKeeps(w, cfg, c);
    LatestIsLast(w.store.rows, slot);
    forall i | 0 <= i < |w.store.rows|
      ensures w.store.rows[i].file in w.store.files
      ensures w.store.rows[i].size == |w.store.files[w.store.rows[i].file]|
      ensures w.store.rows[i].sha == cfg.sha(w.store.files[w.store.rows[i].file])
    {
      assert Describes(cfg, w.store.files, w.store.rows[i]);
    }
  }

  // ---------------------------------------------------------------- manifests and observers

  predicate HasManifest(s: Store, r: Upload) {
    r.file in s.manifests && s.manifests[r.file] == Some(r)
  }

  /** Rows, and calls about to insert theirs, have their manifest. */
  ghost predicate ManifestsOK(w: World, cfg: Config) {
    && (forall i :: 0 <= i < |w.store.rows| ==> HasManifest(w.store, w.store.rows[i]))
    && (forall c :: c in w.calls && w.calls[c].Described? ==> HasManifest(w.store, RowOf(cfg, w.calls[c])))
  }

  lemma NextManifests(w: World, cfg: Config, a: Action)
    requires WorldOK(w, cfg) && ManifestsOK(w, cfg)
    ensures ManifestsOK(Next(w, cfg, a), cfg)
  {
    hide RowsOK, OwnersOK, MaxVersion, UniqueOK, Made, Prefixes, BinName, JsonName;
    if a.Manifest? || a.ManifestShort? {
      ManifestKeeps(w, cfg, a);
    } else {
      var u := Next(w, cfg, a);
      forall i | 0 <= i < |u.store.rows| ensures HasManifest(u.store, u.store.rows[i]) {
        if i < |w.store.rows| { assert HasManifest(w.store, w.store.rows[i]); }
      }
    }
  }

  /** A manifest is written beside the caller's own file, which no row and no other call has. */
  lemma ManifestKeeps(w: World, cfg: Config, a: Action)
    requires WorldOK(w, cfg) && ManifestsOK(w, cfg) && (a.Manifest? || a.ManifestShort?)
    ensures ManifestsOK(Next(w, cfg, a), cfg)
  {
    hide RowsOK, MaxVersion, JsonName;
    var u := Next(w, cfg, a);
    forall i | 0 <= i < |u.store.rows| ensures HasManifest(u.store, u.store.rows[i]) {
      assert HasManifest(w.store, w.store.rows[i]);
    }
    forall c | c in u.calls && u.calls[c].Described? ensures HasManifest(u.store, RowOf(cfg, u.calls[c])) {
      if c != a.call { assert w.calls[c].Described?; }
    }
  }

  /** The observers were told of recorded uploads only, of none twice, and not
      yet of those whose call is about to tell them. */
  ghost predicate ToldOK(w: World, cfg: Config) {
    && (forall r :: r in w.store.told ==> r in w.store.rows)
    && (forall i, j :: 0 <= i < j < |w.store.told| ==> w.store.told[i] != w.store.told[j])
    && (forall c :: c in w.calls && w.calls[c].Recorded? ==>
          RowOf(cfg, w.calls[c]) in w.store.rows && RowOf(cfg, w.calls[c]) !in w.store.told)
    && (forall c, d :: c in w.calls && d in w.calls && c != d && w.calls[c].Recorded? && w.calls[d].Recorded? ==>
          RowOf(cfg, w.calls[c]) != RowOf(cfg, w.calls[d]))
  }

  lemma NextTold(w: World, cfg: Config, a: Action)
    requires WorldOK(w, cfg) && ToldOK(w, cfg)
    ensures ToldOK(Next(w, cfg, a), cfg)
  {
    hide RowsOK, OwnersOK, UniqueOK, MaxVersion, Made, Prefixes, BinName, JsonName;
    if a.Insert? {
      InsertTold(w, cfg, a.call);
    } else if a.Announce? {
      AnnounceTold(w, cfg, a.call);
    }
  }

  lemma AnnounceTold(w: World, cfg: Config, c: int)
    requires ToldOK(w, cfg)
    ensures ToldOK(Next(w, cfg, Announce(c)), cfg)
  {}

  lemma InsertTold(w: World, cfg: Config, c: int)
    requires WorldOK(w, cfg) && ToldOK(w, cfg)
    ensures ToldOK(Next(w, cfg, Insert(c)), cfg)
  {
    hide Contiguous, MaxVersion, Describes, UniqueOK;
    if At(w, c).Described? {
      forall i | 0 <= i < |w.store.rows| ensures w.store.rows[i] != RowOf(cfg, At(w, c)) {
        assert w.store.rows[i].file != Own(cfg, At(w, c));
      }
    }
  }

  /** In every reachable state each row has a manifest that says what it says,
      and the observers were told of recorded uploads only, each once. */
  lemma {:induction false} RunDescribes(cfg: Config, actions: seq<Action>)
    ensures var w := Run(INIT, cfg, actions); ManifestsOK(w, cfg) && ToldOK(w, cfg)
  {
    hide WorldOK, Next;
    if actions == [] {
    } else {
      var mid := Run(INIT, cfg, actions[..|actions| - 1]);
      RunDescribes(cfg, actions[..|actions| - 1]);
      RunKeeps(cfg, actions[..|actions| - 1]);
      NextManifests(mid, cfg, actions[|actions| - 1]);
      NextTold(mid, cfg, actions[|actions| - 1]);
    }
  }

  // ---------------------------------------------------------------- shared directories

  /** Of the slots that share a directory at most one is ever recorded: the
      first version of any other would be the same file. */
  lemma OneSlotPerDirectory(w: World, cfg: Config, a: Slot, b: Slot)
    requires WorldOK(w, cfg) && a != b && cfg.dirOf(a) == cfg.dirOf(b)
    ensures MaxVersion(w.store.rows, a) == 0 || MaxVersion(w.store.rows, b) == 0
  {
    var rows := w.store.rows;
    VersionsOf(rows, a);
    VersionsOf(rows, b);
    assert MaxVersion(rows, a) > 0 ==> HasVersion(rows, a, 1);
    assert MaxVersion(rows, b) > 0 ==> HasVersion(rows, b, 1);
    assert forall i :: 0 <= i < |rows| ==> Describes(cfg, w.store.files, rows[i]);
  }
}
