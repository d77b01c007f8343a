/** The write-through file that archives an upload on Close, and the per-user
    path scoping of the file system. */
module VersionedFs {
  import opened Model
  import opened Archive
  import opened Paths

  // ---------------------------------------------------------------- capturingFile

  /** The fields of a capturing file, its inner file, and the bodies handed to archiveUpload. */
  datatype Capture = Capture(
    inner: Bytes, pos: nat, buf: Bytes, dirty: bool, closed: bool, wErr: bool, archived: seq<Bytes>)

  /** Overwrite from pos on; a gap before pos is filled with zeros. */
  function Overwrite(content: Bytes, pos: nat, p: Bytes): Bytes {
    if p == [] then content
    else if |content| < pos then content + seq(pos - |content|, _ => 0) + p
    else content[..pos] + p + (if pos + |p| < |content| then content[pos + |p|..] else [])
  }

  /** One call; the inner write accepts the first n bytes of p, with or without
      an error; a seek moves the inner file only. */
  datatype FileCall = WriteCall(p: Bytes, n: nat, fails: bool) | SeekCall(to: nat) | CloseCall

  predicate CallOK(op: FileCall) {
    op.WriteCall? ==> op.n <= |op.p|
  }

  function Step(c: Capture, op: FileCall): Capture
    requires CallOK(op)
  {
    match op
    case SeekCall(to) => c.(pos := to)
    case WriteCall(p, n, fails) =>
      c.(inner := Overwrite(c.inner, c.pos, p[..n]), pos := c.pos + n,
         buf := c.buf + p[..n], dirty := c.dirty || n > 0, wErr := c.wErr || fails)
    case CloseCall =>
      if c.closed then c
      else c.(closed := true, archived := if c.dirty && !c.wErr then c.archived + [c.buf] else c.archived)
  }

  class CapturingFile {
    var inner: Bytes
    var pos: nat
    var buf: Bytes
    var dirty: bool
    var closed: bool
    var wErr: bool
    var archived: seq<Bytes>

    /** Opened on a file with this content, at this offset. */
    constructor (content: Bytes, offset: nat)
      ensures View() == Opened(content, offset)
    {
      inner, pos, buf, dirty, closed, wErr, archived := content, offset, [], false, false, false, [];
    }

    function View(): Capture
      reads this
    {
      Capture(inner, pos, buf, dirty, closed, wErr, archived)
    }

    method Write(p: Bytes, n: nat, fails: bool) returns (written: nat, err: bool)
      requires n <= |p|
      modifies this
      ensures View() == Step(old(View()), WriteCall(p, n, fails))
      ensures written == n && err == fails
      ensures inner == Overwrite(old(inner), old(pos), p[..n]) && pos == old(pos) + n && buf == old(buf) + p[..n]
      ensures (dirty <==> old(dirty) || n > 0) && (wErr <==> old(wErr) || fails)
      ensures closed == old(closed) && archived == old(archived)
    {
      inner := Overwrite(inner, pos, p[..n]);
      pos := pos + n;
      if n > 0 {
        buf := buf + p[..n];
        dirty := true;
      }
      if fails {
        wErr := true;
      }
      return n, fails;
    }

    /** Not overridden: seeks reach the inner file. */
    method Seek(to: nat)
      modifies this
      ensures View() == Step(old(View()), SeekCall(to))
      ensures pos == to && inner == old(inner) && buf == old(buf)
    {
      pos := to;
    }

    /** An archive failure is not reported; the inner file's close error is. */
    method Close(innerFails: bool) returns (err: bool)
      modifies this
      ensures View() == Step(old(View()), CloseCall)
      ensures err == (innerFails && !old(closed))
      ensures closed && inner == old(inner)
      ensures archived == old(archived) + if !old(closed) && old(dirty) && !old(wErr) then [old(buf)] else []
    {
      var already := closed;
      closed := true;
      if already { return false; }
      if dirty && !wErr {
        archived := archived + [buf];
      }
      return innerFails;
    }
  }

  function Opened(content: Bytes, offset: nat): Capture {
    Capture(content, offset, [], false, false, false, [])
  }

  function AfterOps(c: Capture, ops: seq<FileCall>): Capture
    requires forall i :: 0 <= i < |ops| ==> CallOK(ops[i])
  {
    if ops == [] then c else Step(AfterOps(c, ops[..|ops| - 1]), ops[|ops| - 1])
  }

  /** Bytes accepted by the inner file, in order. */
  function AcceptedBytes(ops: seq<FileCall>): Bytes
    requires forall i :: 0 <= i < |ops| ==> CallOK(ops[i])
  {
    if ops == [] then []
    else
      var rest, last := AcceptedBytes(ops[..|ops| - 1]), ops[|ops| - 1];
      assert CallOK(ops[|ops| - 1]);
      if last.WriteCall? then rest + last.p[..last.n] else rest
  }

  predicate SomeError(ops: seq<FileCall>) {
    exists i :: 0 <= i < |ops| && ops[i].WriteCall? && ops[i].fails
  }

  /** Position of the first Close, |ops| when there is none. */
  function FirstClose(ops: seq<FileCall>): (k: nat)
    ensures k <= |ops| && (k < |ops| ==> ops[k].CloseCall?) && forall i :: 0 <= i < k ==> !ops[i].CloseCall?
  {
    if ops == [] then 0
    else
      var k := FirstClose(ops[..|ops| - 1]);
      if k < |ops| - 1 || ops[|ops| - 1].CloseCall? then k else |ops|
  }

  /** What is handed to archiveUpload over the whole life of the file: nothing,
      unless it is closed after accepting some byte and before any write
      error; then, once, exactly the bytes accepted up to the first Close. */
  function Expected(ops: seq<FileCall>): seq<Bytes>
    requires forall i :: 0 <= i < |ops| ==> CallOK(ops[i])
  {
    var k := FirstClose(ops);
    if k < |ops| && !SomeError(ops[..k]) && AcceptedBytes(ops[..k]) != [] then [AcceptedBytes(ops[..k])] else []
  }

  lemma SomeErrorStep(ops: seq<FileCall>)
    requires ops != []
    ensures SomeError(ops) <==> SomeError(ops[..|ops| - 1]) || (ops[|ops| - 1].WriteCall? && ops[|ops| - 1].fails)
  {
    var rest := ops[..|ops| - 1];
    if SomeError(rest) {
      var i :| 0 <= i < |rest| && rest[i].WriteCall? && rest[i].fails;
      assert ops[i].WriteCall? && ops[i].fails;
    }
    if SomeError(ops) {
      var i :| 0 <= i < |ops| && ops[i].WriteCall? && ops[i].fails;
      assert i < |rest| ==> rest[i] == ops[i];
    }
  }

  lemma {:induction false} ArchivedOnce(content: Bytes, offset: nat, ops: seq<FileCall>)
    requires forall i :: 0 <= i < |ops| ==> CallOK(ops[i])
    ensures var c := AfterOps(Opened(content, offset), ops);
            && c.archived == Expected(ops)
            && c.buf == AcceptedBytes(ops) && (c.dirty <==> AcceptedBytes(ops) != [])
            && (c.wErr <==> SomeError(ops)) && (c.closed <==> FirstClose(ops) < |ops|)
  {
    if ops == [] {
    } else {
      var rest := ops[..|ops| - 1];
      ArchivedOnce(content, offset, rest);
      SomeErrorStep(ops);
      var k := FirstClose(rest);
      assert ops[..k] == rest[..k];
    }
  }

  predicate NoSeek(ops: seq<FileCall>) {
    forall i :: 0 <= i < |ops| ==> !ops[i].SeekCall?
  }

  /** Without seeks the inner content is the old one with the accepted bytes written in one go. */
  lemma {:induction false} InnerContent(content: Bytes, offset: nat, ops: seq<FileCall>)
    requires (forall i :: 0 <= i < |ops| ==> CallOK(ops[i])) && NoSeek(ops)
    ensures var c := AfterOps(Opened(content, offset), ops);
            c.inner == Overwrite(content, offset, AcceptedBytes(ops)) && c.pos == offset + |AcceptedBytes(ops)|
  {
    if ops == [] {
    } else {
      var rest := ops[..|ops| - 1];
      InnerContent(content, offset, rest);
      if ops[|ops| - 1].WriteCall? {
        OverwriteTwice(content, offset, AcceptedBytes(rest), ops[|ops| - 1].p[..ops[|ops| - 1].n]);
      }
    }
  }

  /** Byte by byte: the written bytes, the old ones around them, zeros in a gap. */
  lemma OverwriteAt(content: Bytes, pos: nat, p: Bytes)
    ensures var r := Overwrite(content, pos, p);
            && |r| == (if p == [] || pos + |p| < |content| then |content| else pos + |p|)
            && forall i :: 0 <= i < |r| ==>
                 r[i] == if pos <= i < pos + |p| then p[i - pos] else if i < |content| then content[i] else 0
  {}

  lemma OverwriteTwice(content: Bytes, pos: nat, a: Bytes, b: Bytes)
    ensures Overwrite(Overwrite(content, pos, a), pos + |a|, b) == Overwrite(content, pos, a + b)
  {
    var once := Overwrite(content, pos, a);
    OverwriteAt(content, pos, a);
    OverwriteAt(once, pos + |a|, b);
    OverwriteAt(content, pos, a + b);
    hide Overwrite;
    assert |Overwrite(once, pos + |a|, b)| == |Overwrite(content, pos, a + b)|;
  }

  /** Without seeks before the first Close, the archived body is the file's
      content at that Close exactly when the file was opened at its start and
      nothing of its earlier content outlived the writes; a freshly truncated
      file always qualifies. */
  lemma ArchiveIsContentIff(content: Bytes, offset: nat, ops: seq<FileCall>)
    requires forall i :: 0 <= i < |ops| ==> CallOK(ops[i])
    requires Expected(ops) != [] && NoSeek(ops[..FirstClose(ops)])
    ensures var k := FirstClose(ops);
            Expected(ops)[0] == AfterOps(Opened(content, offset), ops[..k]).inner
            <==> offset == 0 && |content| <= |AcceptedBytes(ops[..k])|
  {
    var k := FirstClose(ops);
    var w := AcceptedBytes(ops[..k]);
    InnerContent(content, offset, ops[..k]);
    OverwriteAt(content, offset, w);
    hide Overwrite, AfterOps, AcceptedBytes, SomeError;
    assert w != [];
    if offset == 0 && |content| <= |w| { assert Overwrite(content, offset, w) == w; }
  }

  /** With a seek between two writes of a fresh file the archive holds both, the file the second only. */
  lemma SeekDiffers(p: Bytes, q: Bytes)
    requires p != [] && |q| >= |p|
    ensures var ops := [WriteCall(p, |p|, false), SeekCall(0), WriteCall(q, |q|, false), CloseCall];
            var c := AfterOps(Opened([], 0), ops);
            c.archived == [p + q] && c.inner == q
  {
    var c := Opened([], 0);
    var one := [WriteCall(p, |p|, false)];
    var two := one + [SeekCall(0)];
    var three := two + [WriteCall(q, |q|, false)];
    AfterSnoc(c, [], one[0]);
    AfterSnoc(c, one, SeekCall(0));
    AfterSnoc(c, two, WriteCall(q, |q|, false));
    AfterSnoc(c, three, CloseCall);
    assert [] + one == one && p[..|p|] == p && q[..|q|] == q;
    assert AfterOps(c, two).inner == p && AfterOps(c, three).inner == q;
    assert AfterOps(c, three).buf == p + q;
    assert three + [CloseCall] == [WriteCall(p, |p|, false), SeekCall(0), WriteCall(q, |q|, false), CloseCall];
  }

  lemma AfterSnoc(c: Capture, ops: seq<FileCall>, op: FileCall)
    requires CallOK(op) && forall i :: 0 <= i < |ops| ==> CallOK(ops[i])
    ensures AfterOps(c, ops + [op]) == Step(AfterOps(c, ops), op)
  {
    hide Step;
    assert (ops + [op])[..|ops|] == ops;
  }

  // ---------------------------------------------------------------- scoped names

  /** /u/{user}/{name} as the inner file system sees it. */
  function Scoped(user: string, name: string): seq<string> {
    Clean(["u"] + Split(user) + Clean(Split(name)))
  }

  /** The directory /u/{user} itself. */
  function Root(user: string): seq<string> {
    Clean(["u"] + Split(user))
  }

  /** A name leads to a path below the user's directory, whatever ".." it holds. */
  lemma ScopedBelowRoot(user: string, name: string)
    ensures Scoped(user, name) == Root(user) + Clean(Split(name))
  {
    CleanNormal(Split(name));
    CleanAppend(["u"] + Split(user), Clean(Split(name)));
  }

  /** The directory spells out the username exactly when every segment of the
      username is an ordinary one; the server accepts others, such as "..". */
  lemma ScopeHoldsIff(user: string)
    ensures (forall name :: ["u"] + Split(user) <= Scoped(user, name)) <==> AllNormal(Split(user))
  {
    var spelled := ["u"] + Split(user);
    if AllNormal(Split(user)) {
      RootSpelled(user);
      forall name ensures spelled <= Scoped(user, name) { ScopedBelowRoot(user, name); }
    } else {
      CleanNormal(["u"] + Split(user) + Clean(Split("")));
      var p := Scoped(user, "");
      if spelled <= p {
        forall i | 0 <= i < |Split(user)| ensures Normal(Split(user)[i]) { assert p[i + 1] == spelled[i + 1]; }
        assert false;
      }
    }
  }

  lemma RootSpelled(user: string)
    requires AllNormal(Split(user))
    ensures Root(user) == ["u"] + Split(user)
  {
    CleanAll(["u"] + Split(user));
  }

  lemma RootNormal(user: string)
    ensures forall i :: 0 <= i < |Root(user)| ==> Normal(Root(user)[i]) && '/' !in Root(user)[i]
  {
    CleanNormal(["u"] + Split(user));
    assert forall x :: x in ["u"] + Split(user) ==> x == "u" || x in Split(user);
  }

  /** Two users can reach a common file exactly when one user's directory lies
      in the other's. */
  lemma UsersMeetIff(a: string, b: string)
    ensures (exists x, y :: Scoped(a, x) == Scoped(b, y)) <==> Root(a) <= Root(b) || Root(b) <= Root(a)
  {
    if x, y :| Scoped(a, x) == Scoped(b, y) {
      ScopedBelowRoot(a, x);
      ScopedBelowRoot(b, y);
      PrefixesCompare(Root(a), Clean(Split(x)), Root(b), Clean(Split(y)));
    }
    if Root(a) <= Root(b) {
      var x := NameReaching(a, b);
      assert Scoped(a, x) == Scoped(b, "");
    }
    if Root(b) <= Root(a) {
      var y := NameReaching(b, a);
      assert Scoped(a, "") == Scoped(b, y);
    }
  }

  /** A name of user a for the directory of user b. */
  lemma NameReaching(a: string, b: string) returns (x: string)
    requires Root(a) <= Root(b)
    ensures Scoped(a, x) == Scoped(b, "")
  {
    var down := Root(b)[|Root(a)|..];
    RootNormal(b);
    x := JoinSegments(down);
    ScopedBelowRoot(a, x);
    ScopedBelowRoot(b, "");
    assert Root(a) + down == Root(b) == Root(b) + Clean(Split(""));
  }

  lemma {:induction false} JoinSegments(segs: seq<string>) returns (x: string)
    requires AllNormal(segs) && forall i :: 0 <= i < |segs| ==> '/' !in segs[i]
    ensures Clean(Split(x)) == segs
  {
    if segs == [] {
      x := "";
    } else {
      x := Join(segs);
      SplitJoin(segs);
      CleanAll(segs);
    }
  }

  /** Two users the server accepts, such as a and a/b, and files both reach. */
  lemma UsersShareFile(a: string, b: string, name: string)
    requires PlainUser(a) && PlainUser(b) && AllNormal(Split(name))
    ensures Scoped(a, b + "/" + name) == Scoped(a + "/" + b, name)
  {
    SplitSingle(a);
    SplitSingle(b);
    SplitFirst(a, b);
    SplitFirst(b, name);
    hide Split, Clean;
    assert Split(a + "/" + b) == [a] + [b];
    assert Split(b + "/" + name) == [b] + Split(name);
    ScopedSpelled(a, b + "/" + name);
    ScopedSpelled(a + "/" + b, name);
    ConcatAssociates(["u"], [a], [b], Split(name));
  }

  lemma ScopedSpelled(user: string, name: string)
    requires AllNormal(Split(user)) && AllNormal(Split(name))
    ensures Scoped(user, name) == ["u"] + Split(user) + Split(name)
  {
    ScopedBelowRoot(user, name);
    RootSpelled(user);
    CleanAll(Split(name));
  }

  /** A username that is one ordinary path segment. */
  predicate PlainUser(user: string) {
    Normal(user) && '/' !in user
  }

  /** Of users with one-segment names, two never share a file. */
  lemma UsersDisjoint(a: string, b: string, x: string, y: string)
    requires PlainUser(a) && PlainUser(b)
    ensures Scoped(a, x) == Scoped(b, y) <==> a == b && Clean(Split(x)) == Clean(Split(y))
  {
    SplitSingle(a);
    SplitSingle(b);
    RootSpelled(a);
    RootSpelled(b);
    ScopedBelowRoot(a, x);
    ScopedBelowRoot(b, y);
    assert Scoped(a, x)[1] == a && Scoped(b, y)[1] == b;
    assert Scoped(a, x)[2..] == Clean(Split(x)) && Scoped(b, y)[2..] == Clean(Split(y));
  }

  // ---------------------------------------------------------------- ensureParent

  type Path = seq<string>

  /** The existing nodes of the in-memory file system, by absolute path. */
  class MemFs {
    var nodes: set<Path>

    constructor ()
      ensures nodes == {[]}
    {
      nodes := {[]};
    }
  }

  /** Directories above a path, at depths below n. */
  function ParentsTo(path: Path, n: nat): set<Path> {
    set k | 0 < k < n && k < |path| :: path[..k]
  }

  function Parents(path: Path): set<Path> {
    ParentsTo(path, |path|)
  }

  /** mkdir -p of the target's parent: makes what is missing, top down, and
      stops at the first directory that cannot be made. */
  method EnsureParent(fs: MemFs, scoped: Path, faults: set<Path>) returns (err: bool)
    modifies fs
    ensures err <==> (Parents(scoped) - old(fs.nodes)) * faults != {}
    ensures !err ==> fs.nodes == old(fs.nodes) + Parents(scoped)
    ensures err ==> exists n :: 0 < n < |scoped| && scoped[..n] in faults - old(fs.nodes)
                                && fs.nodes == old(fs.nodes) + ParentsTo(scoped, n) && (fs.nodes - old(fs.nodes)) * faults == {}
  {
    var n := 1;
    assert ParentsTo(scoped, 1) == {};
    while n < |scoped|
      invariant 1 <= n && (n > 1 ==> n <= |scoped|)
      invariant fs.nodes == old(fs.nodes) + ParentsTo(scoped, n)
      invariant (fs.nodes - old(fs.nodes)) * faults == {}
    {
      var cur := scoped[..n];
      assert ParentsTo(scoped, n + 1) == ParentsTo(scoped, n) + {cur};
      if cur !in fs.nodes {
        if cur in faults {
          assert cur in (Parents(scoped) - old(fs.nodes)) * faults;
          return true;
        }
        fs.nodes := fs.nodes + {cur};
      }
      n := n + 1;
    }
    assert ParentsTo(scoped, n) == Parents(scoped);
    return false;
  }
}
