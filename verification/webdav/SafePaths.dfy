/** Archive directories: sanitised names, and where they can lie. */
module SafePaths {
  import opened Paths
  import Decimals

  /** strings.ReplaceAll(s, pat, "_"). */
  function ReplaceAll(s: string, pat: string): string
    requires pat != ""
  {
    if s == "" then ""
    else if pat <= s then "_" + ReplaceAll(s[|pat|..], pat)
    else [s[0]] + ReplaceAll(s[1..], pat)
  }

  const UNSAFE := ["..", "\\", ":", "*", "?", "\"", "<", ">", "|"]

  function ReplaceFirst(s: string, n: nat): string
    requires n <= |UNSAFE|
  {
    if n == 0 then s else ReplaceAll(ReplaceFirst(s, n - 1), UNSAFE[n - 1])
  }

  function Safe(s: string): string {
    var r := ReplaceFirst(s, |UNSAFE|);
    if r == "" then "_" else r
  }

  /** safeName. */
  method SafeName(s: string) returns (r: string)
    ensures r == Safe(s)
  {
    r := s;
    for n := 0 to |UNSAFE|
      invariant r == ReplaceFirst(s, n)
    {
      r := ReplaceAll(r, UNSAFE[n]);
    }
    if r == "" {
      r := "_";
    }
  }

  function SafeAll(parts: seq<string>): (r: seq<string>)
    ensures |r| == |parts| && forall i :: 0 <= i < |r| ==> r[i] == Safe(parts[i])
  {
    seq(|parts|, i requires 0 <= i < |parts| => Safe(parts[i]))
  }

  /** safeRelPath. */
  method SafeRelPath(p: string) returns (r: string)
    ensures r == Join(SafeAll(Split(p)))
  {
    var parts := Split(p);
    for i := 0 to |parts|
      invariant |parts| == |Split(p)|
      invariant forall k :: 0 <= k < i ==> parts[k] == Safe(Split(p)[k])
      invariant forall k :: i <= k < |parts| ==> parts[k] == Split(p)[k]
    {
      var name := SafeName(parts[i]);
      parts := parts[i := name];
    }
    assert parts == SafeAll(Split(p));
    r := Join(parts);
  }

  /** Segments of the directory for a user's path, below the data directory. */
  function ArchiveDir(user: string, p: string): seq<string> {
    Clean(["raw"] + Split(Safe(user)) + Split(Join(SafeAll(Split(p)))))
  }

  // ---------------------------------------------------------------- replacement

  predicate Occurs(pat: string, s: string) {
    pat <= s || (s != "" && Occurs(pat, s[1..]))
  }

  /** Text without the replacement character at the front comes from the source text. */
  lemma {:induction false} PrefixSurvives(q: string, s: string, pat: string)
    requires pat != "" && '_' !in q && q <= ReplaceAll(s, pat)
    ensures q <= s
  {
    if q == "" {
    } else {
      assert q[0] in q;
      assert q[1..] <= ReplaceAll(s[1..], pat);
      PrefixSurvives(q[1..], s[1..], pat);
      assert q == [q[0]] + q[1..] && s == [s[0]] + s[1..];
    }
  }

  lemma {:induction false} SuffixWithout(q: string, s: string, k: nat)
    requires !Occurs(q, s) && k <= |s|
    ensures !Occurs(q, s[k..])
  {
    if k == 0 {
    } else {
      SuffixWithout(q, s[1..], k - 1);
      assert s[1..][k - 1..] == s[k..];
    }
  }

  /** Replacing one pattern creates no occurrence of another. */
  lemma {:induction false} ReplaceKeepsOut(q: string, s: string, pat: string)
    requires pat != "" && q != "" && '_' !in q && !Occurs(q, s)
    ensures !Occurs(q, ReplaceAll(s, pat))
  {
    var r := ReplaceAll(s, pat);
    if q <= r { PrefixSurvives(q, s, pat); }
    if s == "" {
    } else {
      var k := if pat <= s then |pat| else 1;
      SuffixWithout(q, s, k);
      ReplaceKeepsOut(q, s[k..], pat);
      assert r[1..] == ReplaceAll(s[k..], pat);
    }
  }

  lemma {:induction false} ReplaceRemoves(s: string, pat: string)
    requires pat != "" && '_' !in pat
    ensures !Occurs(pat, ReplaceAll(s, pat))
  {
    var r := ReplaceAll(s, pat);
    assert pat[0] in pat;
    if pat <= r { PrefixSurvives(pat, s, pat); }
    if s == "" {
    } else {
      var k := if pat <= s then |pat| else 1;
      ReplaceRemoves(s[k..], pat);
      assert r[1..] == ReplaceAll(s[k..], pat);
    }
  }

  /** Replacement changes a text exactly when the pattern occurs in it. */
  lemma {:induction false} ReplaceFixed(s: string, pat: string)
    requires pat != "" && '_' !in pat
    ensures ReplaceAll(s, pat) == s <==> !Occurs(pat, s)
  {
    ReplaceRemoves(s, pat);
    if !Occurs(pat, s) && s != "" {
      ReplaceFixed(s[1..], pat);
    }
  }

  /** Replacement goes from left to right and does not overlap: the first
      occurrence becomes one underscore, and what follows it is replaced in turn. */
  lemma {:induction false} ReplaceFirstOccurrence(a: string, pat: string, b: string)
    requires pat != "" && forall k :: 0 <= k < |a| ==> !(pat <= (a + pat + b)[k..])
    ensures ReplaceAll(a + pat + b, pat) == a + "_" + ReplaceAll(b, pat)
  {
    var s := a + pat + b;
    if a == "" {
      assert s == pat + b && s[|pat|..] == b;
    } else {
      assert s[0..] == s && s[0] == a[0] && s[1..] == a[1..] + pat + b;
      forall k | 0 <= k < |a[1..]| ensures !(pat <= (a[1..] + pat + b)[k..]) {
        assert (a[1..] + pat + b)[k..] == s[k + 1..];
      }
      ReplaceFirstOccurrence(a[1..], pat, b);
      assert a == [a[0]] + a[1..];
    }
  }

  lemma {:induction false} FirstRemoved(s: string, n: nat)
    requires n <= |UNSAFE|
    ensures forall k :: 0 <= k < n ==> !Occurs(UNSAFE[k], ReplaceFirst(s, n))
  {
    if n == 0 {
    } else {
      FirstRemoved(s, n - 1);
      ReplaceRemoves(ReplaceFirst(s, n - 1), UNSAFE[n - 1]);
      forall k | 0 <= k < n - 1 ensures !Occurs(UNSAFE[k], ReplaceFirst(s, n)) {
        ReplaceKeepsOut(UNSAFE[k], ReplaceFirst(s, n - 1), UNSAFE[n - 1]);
      }
    }
  }

  ghost predicate Clear(s: string) {
    s != "" && forall k :: 0 <= k < |UNSAFE| ==> !Occurs(UNSAFE[k], s)
  }

  lemma {:induction false} FirstFixed(s: string, n: nat)
    requires n <= |UNSAFE| && forall k :: 0 <= k < n ==> !Occurs(UNSAFE[k], s)
    ensures ReplaceFirst(s, n) == s
  {
    if n == 0 {
    } else {
      FirstFixed(s, n - 1);
      ReplaceFixed(s, UNSAFE[n - 1]);
    }
  }

  /** A sanitised name is never empty and holds no unsafe text; sanitising
      changes exactly the names that are not so already. */
  lemma SafeIsClear(s: string)
    ensures Clear(Safe(s))
    ensures Safe(s) == s <==> Clear(s)
  {
    FirstRemoved(s, |UNSAFE|);
    if Clear(s) { FirstFixed(s, |UNSAFE|); }
    if Safe(s) == "_" { UnderscoreClear(); }
  }

  /** The unsafe texts, spelled out. */
  lemma ClearExact(s: string)
    ensures Clear(s) <==> s != "" && !Occurs("..", s) && forall c :: c in s ==> c !in "\\:*?\"<>|"
  {
    var bad := "\\:*?\"<>|";
    assert |UNSAFE| == 9 && UNSAFE[0] == "..";
    forall k | 1 <= k < 9 ensures UNSAFE[k] == [bad[k - 1]] && (Occurs(UNSAFE[k], s) <==> bad[k - 1] in s) {
      OccursChar(bad[k - 1], s);
    }
    if c :| c in s && c in bad {
      var i :| 0 <= i < |bad| && bad[i] == c;
      assert Occurs(UNSAFE[i + 1], s);
    }
  }

  lemma {:induction false} OccursChar(c: char, s: string)
    ensures Occurs([c], s) <==> c in s
  {
    if s == "" {
    } else {
      OccursChar(c, s[1..]);
      assert s == [s[0]] + s[1..];
      assert [c] <= s <==> s[0] == c;
    }
  }

  lemma UnderscoreClear()
    ensures forall k :: 0 <= k < |UNSAFE| ==> !Occurs(UNSAFE[k], "_")
  {
    forall k | 0 <= k < |UNSAFE| ensures !Occurs(UNSAFE[k], "_") {
      assert UNSAFE[k][0] != '_';
      assert !Occurs(UNSAFE[k], "_"[1..]);
    }
  }

  // ---------------------------------------------------------------- directories

  lemma {:induction false} SplitOccurs(s: string)
    ensures Split(s)[0] <= s && forall x :: x in Split(s) ==> Occurs(x, s)
  {
    if s == "" {
    } else {
      SplitOccurs(s[1..]);
      var rest := Split(s[1..]);
      assert s == [s[0]] + s[1..];
      forall x | x in Split(s) ensures Occurs(x, s) {
        assert x == Split(s)[0] || x in rest;
      }
    }
  }

  lemma {:induction false} ReplaceSlash(s: string, pat: string)
    requires pat != "" && '/' !in s
    ensures '/' !in ReplaceAll(s, pat)
  {
    if s == "" {
    } else {
      ReplaceSlash(s[if pat <= s then |pat| else 1..], pat);
    }
  }

  lemma {:induction false} FirstSlash(s: string, n: nat)
    requires n <= |UNSAFE| && '/' !in s
    ensures '/' !in ReplaceFirst(s, n)
  {
    if n == 0 {
    } else {
      FirstSlash(s, n - 1);
      ReplaceSlash(ReplaceFirst(s, n - 1), UNSAFE[n - 1]);
    }
  }

  lemma SafeSplit(p: string)
    ensures Split(Join(SafeAll(Split(p)))) == SafeAll(Split(p))
  {
    var parts := Split(p);
    forall i | 0 <= i < |parts| ensures '/' !in Safe(parts[i]) { FirstSlash(parts[i], |UNSAFE|); }
    SplitJoin(SafeAll(parts));
  }

  /** Whatever the username and the path: the directory is the sanitised
      segments in order, below raw, and no segment steps back. */
  lemma ArchiveStaysBelow(user: string, p: string)
    ensures ArchiveDir(user, p) == ["raw"] + Named(Split(Safe(user))) + Named(SafeAll(Split(p)))
    ensures ".." !in ArchiveDir(user, p)
  {
    SafeSplit(p);
    NoStepBack(user, p);
    RawNamed();
    hide Safe, Split, Join, Occurs, Named, Clean;
    CleanParts(["raw"], Split(Safe(user)), SafeAll(Split(p)));
  }

  lemma RawNamed()
    ensures Named(["raw"]) == ["raw"] && ".." !in ["raw"]
  {}

  lemma NoStepBack(user: string, p: string)
    ensures ".." !in Split(Safe(user)) && ".." !in SafeAll(Split(p))
  {
    SafeIsClear(user);
    assert UNSAFE[0] == "..";
    SplitOccurs(Safe(user));
    hide Split, Safe, Occurs;
    forall i | 0 <= i < |SafeAll(Split(p))| ensures SafeAll(Split(p))[i] != ".." {
      SafeIsClear(Split(p)[i]);
      DotsOccur();
    }
  }

  lemma DotsOccur()
    ensures Occurs("..", "..")
  {}

  lemma CleanParts(a: seq<string>, b: seq<string>, c: seq<string>)
    requires ".." !in a && ".." !in b && ".." !in c
    ensures Clean(a + b + c) == Named(a) + Named(b) + Named(c) && ".." !in Clean(a + b + c)
  {
    CleanIsNamed(a + b + c);
    NamedConcat(a + b, c);
    NamedConcat(a, b);
    CleanNormal(a + b + c);
  }

  /** The part of the directory that a username decides. */
  function UserDir(user: string): seq<string> {
    Named(Split(Safe(user)))
  }

  /** The part that a path decides. */
  function PathDir(p: string): seq<string> {
    Named(SafeAll(Split(p)))
  }

  lemma DirParts(user: string, p: string)
    ensures ArchiveDir(user, p) == ["raw"] + (UserDir(user) + PathDir(p))
  {
    ArchiveStaysBelow(user, p);
  }

  /** Uploads of two users with one-segment names share a directory exactly when
      the names, and the named segments of the paths, are the same once sanitised. */
  lemma ShareDirIff(a: string, x: string, b: string, y: string)
    requires '/' !in a && '/' !in b && Safe(a) != "." && Safe(b) != "."
    ensures ArchiveDir(a, x) == ArchiveDir(b, y) <==> Safe(a) == Safe(b) && PathDir(x) == PathDir(y)
  {
    SegmentDir(a);
    SegmentDir(b);
    hide ArchiveDir, UserDir, PathDir, Safe;
    DirParts(a, x);
    DirParts(b, y);
    ConcatEqual("raw", UserDir(a) + PathDir(x), "raw", UserDir(b) + PathDir(y));
    ConcatEqual(Safe(a), PathDir(x), Safe(b), PathDir(y));
  }

  lemma SegmentDir(user: string)
    requires '/' !in user && Safe(user) != "."
    ensures UserDir(user) == [Safe(user)]
  {
    SafeIsClear(user);
    FirstSlash(user, |UNSAFE|);
    SplitSingle(Safe(user));
    hide Split, Named, ReplaceFirst, Clear;
    assert Safe(user) != "" && Split(Safe(user)) == [Safe(user)];
    NamedAll([Safe(user)]);
  }

  /** Some uploads of two users share a directory exactly when one user's part
      of it lies in the other's. */
  lemma UsersShareDirIff(a: string, b: string)
    ensures (exists x, y :: x != "" && y != "" && ArchiveDir(a, x) == ArchiveDir(b, y)) <==>
            UserDir(a) <= UserDir(b) || UserDir(b) <= UserDir(a)
  {
    hide ArchiveDir, UserDir, PathDir;
    if x, y :| x != "" && y != "" && ArchiveDir(a, x) == ArchiveDir(b, y) {
      DirParts(a, x);
      DirParts(b, y);
      var p, q := ArchiveDir(a, x), ArchiveDir(b, y);
      assert p[1..] == UserDir(a) + PathDir(x) && q[1..] == UserDir(b) + PathDir(y);
      PrefixesCompare(UserDir(a), PathDir(x), UserDir(b), PathDir(y));
    }
    if UserDir(a) <= UserDir(b) {
      var x, y := PathsMeeting(a, b);
    }
    if UserDir(b) <= UserDir(a) {
      var y, x := PathsMeeting(b, a);
    }
  }

  /** Paths of two users whose uploads share a directory. */
  lemma PathsMeeting(a: string, b: string) returns (x: string, y: string)
    requires UserDir(a) <= UserDir(b)
    ensures x != "" && y != "" && ArchiveDir(a, x) == ArchiveDir(b, y)
  {
    UserDirClear(b);
    FileNameClear();
    hide ArchiveDir, UserDir, PathDir, Clear;
    var down := UserDir(b)[|UserDir(a)|..];
    forall s | s in down + ["f"] ensures Clear(s) && '/' !in s && s != "." {
      assert s in down ==> s in UserDir(b);
    }
    x, y := PathsTo(a, b, down, "f");
  }

  lemma PathsTo(a: string, b: string, down: seq<string>, f: string) returns (x: string, y: string)
    requires UserDir(b) == UserDir(a) + down
    requires forall s :: s in down + [f] ==> Clear(s) && '/' !in s && s != "."
    ensures x != "" && y != "" && ArchiveDir(a, x) == ArchiveDir(b, y)
  {
    hide ArchiveDir, UserDir, PathDir, Clear;
    assert (down + [f])[|down|] == f;
    forall i | 0 <= i < |down| + 1 ensures Clear((down + [f])[i]) && '/' !in (down + [f])[i] && (down + [f])[i] != "." {
      assert (down + [f])[i] in down + [f];
    }
    x := PathThrough(down + [f]);
    y := PathThrough([f]);
    DirParts(a, x);
    DirParts(b, y);
    assert UserDir(a) + (down + [f]) == UserDir(a) + down + [f];
  }

  /** A path with these segments. */
  lemma PathThrough(segs: seq<string>) returns (p: string)
    requires segs != [] && forall i :: 0 <= i < |segs| ==> Clear(segs[i]) && '/' !in segs[i] && segs[i] != "."
    ensures p != "" && PathDir(p) == segs
  {
    p := Join(segs);
    SplitJoin(segs);
    ClearPath(p);
    NamedAll(segs);
    assert segs[0] != "" && (p == "" ==> Split(p) == [""]);
  }

  lemma ClearPath(p: string)
    requires forall x :: x in Split(p) ==> Clear(x)
    ensures SafeAll(Split(p)) == Split(p)
  {
    forall i | 0 <= i < |Split(p)| ensures Safe(Split(p)[i]) == Split(p)[i] {
      assert Split(p)[i] in Split(p);
      SafeIsClear(Split(p)[i]);
    }
  }

  lemma {:induction false} NamedAll(segs: seq<string>)
    requires forall i :: 0 <= i < |segs| ==> segs[i] != "" && segs[i] != "."
    ensures Named(segs) == segs
  {
    if segs == [] {
    } else {
      NamedAll(segs[..|segs| - 1]);
    }
  }

  lemma FileNameClear()
    ensures Clear("f")
  {
    forall k | 0 <= k < |UNSAFE| ensures !Occurs(UNSAFE[k], "f") {
      assert UNSAFE[k][0] != 'f';
      assert !Occurs(UNSAFE[k], "f"[1..]);
    }
  }

  lemma UserDirClear(user: string)
    ensures forall x :: x in UserDir(user) ==> Clear(x) && '/' !in x && x != "."
  {
    var segs := Split(Safe(user));
    SafeIsClear(user);
    NamedKeeps(segs);
    forall x | x in UserDir(user) ensures Clear(x) {
      forall k | 0 <= k < |UNSAFE| ensures !Occurs(UNSAFE[k], x) { SplitWithout(UNSAFE[k], Safe(user)); }
    }
  }

  lemma {:induction false} NamedKeeps(segs: seq<string>)
    ensures forall x :: x in Named(segs) <==> x in segs && x != "" && x != "."
  {
    if segs == [] {
    } else {
      NamedKeeps(segs[..|segs| - 1]);
      assert segs == segs[..|segs| - 1] + [segs[|segs| - 1]];
    }
  }

  lemma {:induction false} PrefixOccurs(q: string, p: string, s: string)
    requires p <= s && Occurs(q, p)
    ensures Occurs(q, s)
  {
    if q <= p {
      assert q <= s;
    } else {
      PrefixOccurs(q, p[1..], s[1..]);
    }
  }

  /** Splitting creates no occurrence. */
  lemma {:induction false} SplitWithout(q: string, s: string)
    requires !Occurs(q, s)
    ensures forall x :: x in Split(s) ==> !Occurs(q, x)
  {
    SplitOccurs(s);
    forall x | x == Split(s)[0] ensures !Occurs(q, x) {
      if Occurs(q, x) { PrefixOccurs(q, x, s); }
    }
    if s == "" {
    } else {
      SplitWithout(q, s[1..]);
      assert forall x :: x in Split(s) ==> x == Split(s)[0] || x in Split(s[1..]);
    }
  }

  /** A user and a path share their directory with their sanitised forms. */
  lemma SanitisedCollides(user: string, p: string)
    ensures ArchiveDir(Safe(user), Join(SafeAll(Split(p)))) == ArchiveDir(user, p)
  {
    var parts := SafeAll(Split(p));
    SafeSplit(p);
    SafeIsClear(user);
    SafeIsClear(Safe(user));
    forall i | 0 <= i < |parts| ensures Safe(parts[i]) == parts[i] {
      SafeIsClear(Split(p)[i]);
      SafeIsClear(parts[i]);
    }
    assert SafeAll(parts) == parts;
  }

  // ---------------------------------------------------------------- paths below paths

  /** An upload to an ordinary name below a path goes to that name below the path's directory. */
  lemma DirBelow(user: string, p: string, f: string)
    requires Clear(f) && '/' !in f && f != "."
    ensures ArchiveDir(user, p + "/" + f) == ArchiveDir(user, p) + [f]
  {
    SplitLast(p, f);
    SafeIsClear(f);
    var segs := SafeAll(Split(p));
    assert SafeAll(Split(p + "/" + f)) == segs + [f];
    NamedConcat(segs, [f]);
    NamedAll([f]);
    hide ArchiveDir, UserDir, Named, Safe, Split;
    DirParts(user, p);
    DirParts(user, p + "/" + f);
    assert PathDir(p + "/" + f) == PathDir(p) + [f];
    ConcatLast(["raw"], UserDir(user), PathDir(p), f);
  }

  lemma ConcatLast(a: seq<string>, b: seq<string>, c: seq<string>, f: string)
    ensures a + (b + (c + [f])) == a + (b + c) + [f]
  {}

  lemma {:induction false} OccursChars(q: string, s: string)
    requires Occurs(q, s)
    ensures forall c :: c in q ==> c in s
  {
    if q <= s {
      assert s[..|q|] == q;
    } else {
      OccursChars(q, s[1..]);
      assert s == [s[0]] + s[1..];
    }
  }

  /** The name of a version's file or manifest is one that sanitising keeps. */
  lemma VersionNameClear(digits: string, suffix: string)
    requires Decimals.AllDigits(digits) && digits != "" && suffix in {".bin", ".json"}
    ensures Clear(digits + suffix) && '/' !in digits + suffix && digits + suffix != "."
  {
    var s := digits + suffix;
    forall c | c in s ensures c in digits || c in suffix {}
    forall c | c in s ensures Decimals.IsDigit(c) || c in ".binjso" {
      if c in suffix { assert c in ".bin" || c in ".json"; }
    }
    forall k | 0 <= k < |UNSAFE| ensures !Occurs(UNSAFE[k], s) {
      assert UNSAFE[k][0] in UNSAFE[k];
      if k == 0 {
        NoDoubleDot(digits, suffix);
      } else if Occurs(UNSAFE[k], s) {
        OccursChars(UNSAFE[k], s);
      }
    }
    assert s[0] == digits[0];
  }

  lemma {:induction false} NoDoubleDot(digits: string, suffix: string)
    requires Decimals.AllDigits(digits) && suffix in {".bin", ".json"}
    ensures !Occurs("..", digits + suffix)
  {
    if digits == "" {
      assert digits + suffix == suffix;
      SuffixesPlain();
    } else {
      assert Decimals.AllDigits(digits[1..]) && Decimals.IsDigit(digits[0]);
      NoDoubleDot(digits[1..], suffix);
      assert (digits + suffix)[1..] == digits[1..] + suffix;
    }
  }

  lemma SuffixesPlain()
    ensures !Occurs("..", ".bin") && !Occurs("..", ".json")
  {
    assert ".."[0] == '.' && ".."[0] in "..";
    if Occurs("..", "bin") { OccursChars("..", "bin"); }
    if Occurs("..", "json") { OccursChars("..", "json"); }
    assert ".bin"[1..] == "bin" && ".json"[1..] == "json";
  }
}
