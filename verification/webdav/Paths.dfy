/** Slash-separated names: splitting, joining and cleaning. */
module Paths {

  /** Path segments between slashes. */
  function Split(s: string): (r: seq<string>)
    ensures r != [] && forall i :: 0 <= i < |r| ==> '/' !in r[i]
  {
    if s == "" then [""]
    else
      var rest := Split(s[1..]);
      if s[0] == '/' then [""] + rest else [[s[0]] + rest[0]] + rest[1..]
  }

  /** strings.Trim(s, "/"). */
  function TrimSlashes(s: string): (r: string)
    ensures r != "" ==> r[0] != '/' && r[|r| - 1] != '/'
  {
    if s == "" then ""
    else if s[0] == '/' then TrimSlashes(s[1..])
    else if s[|s| - 1] == '/' then TrimSlashes(s[..|s| - 1])
    else s
  }

  /** path.Clean of a rooted path: empty and "." segments vanish, ".." takes one back. */
  function Clean(segs: seq<string>): seq<string> {
    if segs == [] then []
    else
      var rest, last := Clean(segs[..|segs| - 1]), segs[|segs| - 1];
      if last == "" || last == "." then rest
      else if last == ".." then (if rest == [] then [] else rest[..|rest| - 1])
      else rest + [last]
  }

  /** A segment Clean keeps. */
  predicate Normal(seg: string) {
    seg != "" && seg != "." && seg != ".."
  }

  predicate AllNormal(segs: seq<string>) {
    forall i :: 0 <= i < |segs| ==> Normal(segs[i])
  }

  /** strings.Join(parts, "/"). */
  function Join(parts: seq<string>): string
    requires parts != []
  {
    if |parts| == 1 then parts[0] else parts[0] + "/" + Join(parts[1..])
  }

  lemma {:induction false} CleanNormal(segs: seq<string>)
    ensures forall i :: 0 <= i < |Clean(segs)| ==> Normal(Clean(segs)[i]) && Clean(segs)[i] in segs
  {
    if segs == [] {
    } else {
      CleanNormal(segs[..|segs| - 1]);
      assert forall x :: x in segs[..|segs| - 1] ==> x in segs;
    }
  }

  lemma {:induction false} CleanAppend(segs: seq<string>, more: seq<string>)
    requires AllNormal(more)
    ensures Clean(segs + more) == Clean(segs) + more
  {
    if more == [] {
      assert segs + more == segs;
    } else {
      var n := |more| - 1;
      var all := segs + more;
      assert Normal(more[n]) && all[|all| - 1] == more[n] && all[..|all| - 1] == segs + more[..n];
      CleanAppend(segs, more[..n]);
      assert Clean(all) == Clean(segs + more[..n]) + [more[n]];
      assert more == more[..n] + [more[n]];
    }
  }

  lemma CleanAll(segs: seq<string>)
    requires AllNormal(segs)
    ensures Clean(segs) == segs
  {
    CleanAppend([], segs);
    assert [] + segs == segs;
  }

  lemma {:induction false} SplitSingle(s: string)
    ensures '/' !in s <==> Split(s) == [s]
  {
    if s == "" {
    } else {
      SplitSingle(s[1..]);
      assert s == [s[0]] + s[1..];
      var rest := Split(s[1..]);
      assert ([s[0]] + rest[0])[1..] == rest[0];
      assert Split(s) == [s] && s[0] != '/' ==> |rest| == 1 && Split(s)[0] == s;
    }
  }

  lemma {:induction false} SplitFirst(a: string, s: string)
    requires '/' !in a
    ensures Split(a + "/" + s) == [a] + Split(s)
  {
    if a == "" {
      assert a + "/" + s == "/" + s;
    } else {
      SplitFirst(a[1..], s);
      assert (a + "/" + s)[1..] == a[1..] + "/" + s;
      assert a == [a[0]] + a[1..];
    }
  }

  lemma {:induction false} SplitLast(s: string, a: string)
    requires '/' !in a
    ensures Split(s + "/" + a) == Split(s) + [a]
  {
    if s == "" {
      SplitSingle(a);
      assert s + "/" + a == "/" + a;
    } else {
      SplitLast(s[1..], a);
      assert (s + "/" + a)[1..] == s[1..] + "/" + a;
    }
  }

  /** Splitting undoes joining. */
  lemma {:induction false} SplitJoin(parts: seq<string>)
    requires parts != [] && forall i :: 0 <= i < |parts| ==> '/' !in parts[i]
    ensures Split(Join(parts)) == parts
  {
    if |parts| == 1 {
      SplitSingle(parts[0]);
    } else {
      SplitJoin(parts[1..]);
      SplitFirst(parts[0], Join(parts[1..]));
    }
  }

  /** The segments that name a directory of their own. */
  function Named(segs: seq<string>): seq<string> {
    if segs == [] then []
    else
      var last := segs[|segs| - 1];
      Named(segs[..|segs| - 1]) + (if last == "" || last == "." then [] else [last])
  }

  lemma {:induction false} CleanIsNamed(segs: seq<string>)
    requires ".." !in segs
    ensures Clean(segs) == Named(segs)
  {
    if segs == [] {
    } else {
      CleanIsNamed(segs[..|segs| - 1]);
      assert segs[|segs| - 1] in segs;
    }
  }

  lemma {:induction false} NamedConcat(a: seq<string>, b: seq<string>)
    ensures Named(a + b) == Named(a) + Named(b)
  {
    if b == [] {
      assert a + b == a;
    } else {
      assert (a + b)[..|a + b| - 1] == a + b[..|b| - 1];
      NamedConcat(a, b[..|b| - 1]);
    }
  }

  lemma PrefixesCompare(a: seq<string>, x: seq<string>, b: seq<string>, y: seq<string>)
    requires a + x == b + y
    ensures a <= b || b <= a
  {
    if |a| <= |b| {
      assert (a + x)[..|a|] == a && (b + y)[..|a|] == b[..|a|];
    } else {
      assert (b + y)[..|b|] == b && (a + x)[..|b|] == a[..|b|];
    }
  }

  lemma ConcatAssociates(a: seq<string>, b: seq<string>, c: seq<string>, d: seq<string>)
    ensures a + b + (c + d) == a + (b + c) + d
  {}

  lemma ConcatEqual(u: string, x: seq<string>, v: string, y: seq<string>)
    ensures [u] + x == [v] + y <==> u == v && x == y
  {
    assert ([u] + x)[0] == u && ([u] + x)[1..] == x;
    assert ([v] + y)[0] == v && ([v] + y)[1..] == y;
  }

  // ---------------------------------------------------------------- what cleaning and trimming mean

  lemma {:induction false} CleanCongruent(a: seq<string>, b: seq<string>, more: seq<string>)
    requires Clean(a) == Clean(b)
    ensures Clean(a + more) == Clean(b + more)
  {
    if more == [] {
      assert a + more == a && b + more == b;
    } else {
      CleanCongruent(a, b, more[..|more| - 1]);
      assert (a + more)[..|a + more| - 1] == a + more[..|more| - 1];
      assert (b + more)[..|b + more| - 1] == b + more[..|more| - 1];
    }
  }

  lemma CleanSnoc(a: seq<string>, x: string)
    ensures Clean(a + [x]) == if x == "" || x == "." then Clean(a)
                              else if x == ".." then (if Clean(a) == [] then [] else Clean(a)[..|Clean(a)| - 1])
                              else Clean(a) + [x]
  {
    assert (a + [x])[..|a|] == a;
  }

  /** The rules of a rooted path: an empty or "." segment can be left out, a
      ".." takes back the ordinary segment before it, and does nothing at the
      root; a path of ordinary segments is clean. */
  lemma CleanRules(a: seq<string>, x: string, b: seq<string>)
    ensures Clean(a + [""] + b) == Clean(a + b) && Clean(a + ["."] + b) == Clean(a + b)
    ensures Normal(x) ==> Clean(a + [x] + [".."] + b) == Clean(a + b)
    ensures Clean([".."] + b) == Clean(b)
    ensures AllNormal(a) ==> Clean(a) == a
  {
    CleanSnoc(a, "");
    CleanSnoc(a, ".");
    CleanSnoc(a, x);
    CleanSnoc(a + [x], "..");
    CleanSnoc([], "..");
    assert Normal(x) ==> (Clean(a) + [x])[..|Clean(a)|] == Clean(a);
    hide Clean;
    CleanCongruent(a + [""], a, b);
    CleanCongruent(a + ["."], a, b);
    if Normal(x) { CleanCongruent(a + [x] + [".."], a, b); }
    assert [] + [".."] == [".."] && [] + b == b;
    CleanCongruent([".."], [], b) by { EmptyClean(); }
    if AllNormal(a) { CleanAll(a); }
  }

  lemma EmptyClean()
    ensures Clean([]) == [] && Clean([".."]) == []
  {}

  /** Trimming drops slashes at both ends and nothing else. */
  lemma {:induction false} TrimSlashesExact(s: string) returns (before: string, after: string)
    ensures s == before + TrimSlashes(s) + after
    ensures forall c :: c in before || c in after ==> c == '/'
    decreases |s|
  {
    before, after := "", "";
    if s == "" {
    } else if s[0] == '/' {
      before, after := TrimSlashesExact(s[1..]);
      before := [s[0]] + before;
      assert s == [s[0]] + s[1..];
    } else if s[|s| - 1] == '/' {
      before, after := TrimSlashesExact(s[..|s| - 1]);
      after := after + [s[|s| - 1]];
      assert s == s[..|s| - 1] + [s[|s| - 1]];
    }
  }
}
