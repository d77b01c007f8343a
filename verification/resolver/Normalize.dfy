/** Text normalisation before comparison.  `lower` and `kept` stand for the
    Unicode tables: the lower-case form of a rune, and whether a rune is a
    letter or a digit.  A letter or digit is never white space, so the final
    trim can only meet blanks. */
module Normalize {

  predicate Survives(kept: char -> bool, c: char) {
    kept(c) || c == ' '
  }

  function Lower(lower: char -> char, s: string): (r: string)
    ensures |r| == |s| && forall i :: 0 <= i < |s| ==> r[i] == lower(s[i])
  {
    seq(|s|, i requires 0 <= i < |s| => lower(s[i]))
  }

  function Filter(kept: char -> bool, s: string): string {
    if s == "" then ""
    else Filter(kept, s[..|s| - 1]) + (if Survives(kept, s[|s| - 1]) then [s[|s| - 1]] else "")
  }

  function TrimLeft(s: string): string {
    if s != "" && s[0] == ' ' then TrimLeft(s[1..]) else s
  }

  function TrimRight(s: string): string {
    if s != "" && s[|s| - 1] == ' ' then TrimRight(s[..|s| - 1]) else s
  }

  function Normal(lower: char -> char, kept: char -> bool, s: string): string {
    TrimRight(TrimLeft(Filter(kept, Lower(lower, s))))
  }

  /** normalize: one pass over the lower-cased runes, then a trim. */
  method NormalizeText(lower: char -> char, kept: char -> bool, s: string) returns (r: string)
    ensures r == Normal(lower, kept, s)
  {
    var lowered := Lower(lower, s);
    assert lowered[..|lowered|] == lowered;
    var b := "";
    for i := 0 to |lowered|
      invariant b == Filter(kept, lowered[..i])
    {
      assert lowered[..i + 1][..i] == lowered[..i];
      if kept(lowered[i]) || lowered[i] == ' ' {
        b := b + [lowered[i]];
      }
    }
    r := Trim(b);
  }

  method Trim(s: string) returns (r: string)
    ensures r == TrimRight(TrimLeft(s))
  {
    r := s;
    while r != "" && r[0] == ' '
      invariant TrimLeft(r) == TrimLeft(s)
      decreases |r|
    {
      r := r[1..];
    }
    while r != "" && r[|r| - 1] == ' '
      invariant TrimRight(r) == TrimRight(TrimLeft(s))
      decreases |r|
    {
      r := r[..|r| - 1];
    }
  }

  // ---------------------------------------------------------------- what it keeps and forgets

  lemma {:induction false} FilterShape(kept: char -> bool, s: string)
    ensures forall c :: c in Filter(kept, s) <==> c in s && Survives(kept, c)
  {
    if s == "" {
    } else {
      FilterShape(kept, s[..|s| - 1]);
      assert s == s[..|s| - 1] + [s[|s| - 1]];
    }
  }

  lemma {:induction false} TrimLeftShape(s: string)
    ensures TrimLeft(s) != "" ==> TrimLeft(s)[0] != ' '
    ensures forall c :: c in TrimLeft(s) ==> c in s
    ensures forall c :: c in s && c != ' ' ==> c in TrimLeft(s)
  {
    if s != "" && s[0] == ' ' {
      TrimLeftShape(s[1..]);
      assert s == [s[0]] + s[1..];
    }
  }

  lemma {:induction false} TrimRightShape(s: string)
    ensures TrimRight(s) <= s
    ensures TrimRight(s) != "" ==> TrimRight(s)[|TrimRight(s)| - 1] != ' '
    ensures forall c :: c in s && c != ' ' ==> c in TrimRight(s)
  {
    if s != "" && s[|s| - 1] == ' ' {
      TrimRightShape(s[..|s| - 1]);
      assert s == s[..|s| - 1] + [s[|s| - 1]];
    }
  }

  /** Exactly the letters, digits and inner blanks of the lower-cased text
      survive; it is empty exactly for a text without letters and digits. */
  lemma NormalShape(lower: char -> char, kept: char -> bool, s: string)
    ensures var r := Normal(lower, kept, s);
            && (forall c :: c in r ==> Survives(kept, c) && c in Lower(lower, s))
            && (forall c :: c in Lower(lower, s) && kept(c) && c != ' ' ==> c in r)
            && (r != "" ==> r[0] != ' ' && r[|r| - 1] != ' ')
            && (r == "" <==> forall c :: c in Lower(lower, s) ==> !kept(c) || c == ' ')
  {
    var f := Filter(kept, Lower(lower, s));
    FilterShape(kept, Lower(lower, s));
    TrimLeftShape(f);
    TrimRightShape(TrimLeft(f));
    var r := Normal(lower, kept, s);
    if r != "" { assert r[0] in r; }
  }

  lemma {:induction false} FilterAll(kept: char -> bool, s: string)
    requires forall c :: c in s ==> Survives(kept, c)
    ensures Filter(kept, s) == s
  {
    if s == "" {
    } else {
      FilterAll(kept, s[..|s| - 1]);
    }
  }

  /** Normalised text is a fixed point, when lower-casing is. */
  lemma NormalIdempotent(lower: char -> char, kept: char -> bool, s: string)
    requires forall c :: lower(lower(c)) == lower(c)
    ensures Normal(lower, kept, Normal(lower, kept, s)) == Normal(lower, kept, s)
  {
    var r := Normal(lower, kept, s);
    NormalShape(lower, kept, s);
    forall i | 0 <= i < |r| ensures lower(r[i]) == r[i] { assert r[i] in Lower(lower, s); }
    assert Lower(lower, r) == r;
    FilterAll(kept, r);
  }

  lemma {:induction false} FilterConcat(kept: char -> bool, a: string, b: string)
    ensures Filter(kept, a + b) == Filter(kept, a) + Filter(kept, b)
  {
    if b == "" {
      assert a + b == a;
    } else {
      assert (a + b)[..|a + b| - 1] == a + b[..|b| - 1];
      FilterConcat(kept, a, b[..|b| - 1]);
    }
  }

  lemma FilterMiddle(kept: char -> bool, a: string, x: char, b: string)
    ensures Filter(kept, a + [x] + b) ==
            if Survives(kept, x) then Filter(kept, a) + [x] + Filter(kept, b) else Filter(kept, a) + Filter(kept, b)
  {
    FilterConcat(kept, a + [x], b);
    assert (a + [x])[..|a|] == a;
  }

  /** Two texts that differ in the case of one rune, or in one rune of
      punctuation more, compare equal, wherever the rune stands. */
  lemma NormalForgets(lower: char -> char, kept: char -> bool, a: string, c: char, d: char, b: string)
    ensures lower(c) == lower(d) ==> Normal(lower, kept, a + [c] + b) == Normal(lower, kept, a + [d] + b)
    ensures !Survives(kept, lower(c)) ==> Normal(lower, kept, a + [c] + b) == Normal(lower, kept, a + b)
  {
    hide Filter, Survives, TrimLeft, TrimRight;
    var la, lb := Lower(lower, a), Lower(lower, b);
    assert Lower(lower, a + [c] + b) == la + [lower(c)] + lb;
    assert Lower(lower, a + [d] + b) == la + [lower(d)] + lb;
    assert Lower(lower, a + b) == la + lb;
    FilterMiddle(kept, la, lower(c), lb);
    FilterConcat(kept, la, lb);
  }

  /** Text of letters, digits and inner blanks keeps its order: it is only lower-cased. */
  lemma NormalKeeps(lower: char -> char, kept: char -> bool, s: string)
    requires forall c :: c in s ==> Survives(kept, lower(c))
    requires s != "" ==> lower(s[0]) != ' ' && lower(s[|s| - 1]) != ' '
    ensures Normal(lower, kept, s) == Lower(lower, s)
  {
    var l := Lower(lower, s);
    forall c | c in l ensures Survives(kept, c) {
      var i :| 0 <= i < |l| && l[i] == c;
      assert s[i] in s;
    }
    FilterAll(kept, l);
  }

  /** Outer blanks make no difference. */
  lemma NormalTrims(lower: char -> char, kept: char -> bool, s: string, c: char)
    requires lower(c) == ' '
    ensures Normal(lower, kept, [c] + s) == Normal(lower, kept, s)
    ensures Normal(lower, kept, s + [c]) == Normal(lower, kept, s)
  {
    var l := Lower(lower, s);
    assert Lower(lower, [c] + s) == [' '] + l && Lower(lower, s + [c]) == l + [' '];
    FilterConcat(kept, [' '], l);
    FilterConcat(kept, l, [' ']);
    OneBlank(kept);
    var f := Filter(kept, l);
    assert ([' '] + f)[1..] == f;
    TrimsBlankEnd(f);
  }

  lemma OneBlank(kept: char -> bool)
    ensures Filter(kept, [' ']) == [' ']
  {
    assert [' '][..0] == "" && Filter(kept, "") == "";
  }

  lemma {:induction false} TrimsBlankEnd(f: string)
    ensures TrimRight(TrimLeft(f + [' '])) == TrimRight(TrimLeft(f))
  {
    var g := f + [' '];
    if f == "" {
      assert g[1..] == "" && TrimLeft(g[1..]) == "";
    } else if f[0] == ' ' {
      TrimsBlankEnd(f[1..]);
      assert g[1..] == f[1..] + [' '];
    } else {
      assert TrimLeft(g) == g && g[..|g| - 1] == f;
    }
  }
}
