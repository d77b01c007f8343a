/** Jaro and Jaro-Winkler similarity, in exact arithmetic.

    `Jaro` and `JaroWinkler` are the source's loops over two boolean arrays;
    `JaroValue` and `JaroWinklerValue` are what they are proved to compute, and
    the lemmas are about those values. */
module Jaro {
  import opened Matching

  // ---------------------------------------------------------------- flagged subsequences

  function Count(f: seq<bool>): nat {
    if f == [] then 0 else Count(f[..|f| - 1]) + (if f[|f| - 1] then 1 else 0)
  }

  /** The elements of s at the flagged positions, in order. */
  ghost function Select<T>(s: seq<T>, f: seq<bool>): (r: seq<T>)
    requires |s| == |f|
    ensures |r| == Count(f)
  {
    if s == [] then []
    else Select(s[..|s| - 1], f[..|f| - 1]) + (if f[|f| - 1] then [s[|s| - 1]] else [])
  }

  lemma {:induction false} FlagOne<T>(s: seq<T>, f: seq<bool>, i: nat)
    requires |s| == |f| && i < |f| && !f[i]
    ensures Count(f[i := true]) == Count(f) + 1
    ensures multiset(Select(s, f[i := true])) == multiset(Select(s, f)) + multiset{s[i]}
  {
    hide Count, Select;
    var n := |f| - 1;
    assert s == s[..n] + [s[n]] && f == f[..n] + [f[n]];
    if i < n {
      FlagOne(s[..n], f[..n], i);
      FlagCarried(s[..n], f[..n], s[n], f[n], i);
    } else {
      FlagLast(s[..n], f[..n], s[n]);
    }
  }

  lemma FlagCarried<T>(front: seq<T>, flags: seq<bool>, x: T, b: bool, i: nat)
    requires |front| == |flags| && i < |flags| && Count(flags[i := true]) == Count(flags) + 1
    requires multiset(Select(front, flags[i := true])) == multiset(Select(front, flags)) + multiset{front[i]}
    ensures Count((flags + [b])[i := true]) == Count(flags + [b]) + 1
    ensures multiset(Select(front + [x], (flags + [b])[i := true])) == multiset(Select(front + [x], flags + [b])) + multiset{front[i]}
  {
    LastFlag(front, flags, x, b);
    LastFlag(front, flags[i := true], x, b);
    AddSwap(multiset(Select(front, flags)), front[i], if b then multiset{x} else multiset{});
    hide Count, Select;
    assert (flags + [b])[i := true] == flags[i := true] + [b];
  }

  lemma FlagLast<T>(front: seq<T>, flags: seq<bool>, x: T)
    requires |front| == |flags|
    ensures Count((flags + [false])[|flags| := true]) == Count(flags + [false]) + 1
    ensures multiset(Select(front + [x], (flags + [false])[|flags| := true])) == multiset(Select(front + [x], flags + [false])) + multiset{x}
  {
    LastFlag(front, flags, x, false);
    LastFlag(front, flags, x, true);
    hide Count, Select;
    assert (flags + [false])[|flags| := true] == flags + [true];
  }

  lemma AddSwap<T>(a: multiset<T>, x: T, b: multiset<T>)
    ensures a + multiset{x} + b == a + b + multiset{x}
  {}

  lemma LastFlag<T>(front: seq<T>, flags: seq<bool>, x: T, b: bool)
    requires |front| == |flags|
    ensures Count(flags + [b]) == Count(flags) + (if b then 1 else 0)
    ensures multiset(Select(front + [x], flags + [b]))
            == multiset(Select(front, flags)) + (if b then multiset{x} else multiset{})
  {
    assert (front + [x])[..|front|] == front && (flags + [b])[..|flags|] == flags;
  }

  lemma {:induction false} CountPrefix(f: seq<bool>, k: nat)
    requires k <= |f|
    ensures Count(f[..k]) <= Count(f)
    ensures Count(f[..k]) == Count(f) ==> forall x :: k <= x < |f| ==> !f[x]
  {
    if k < |f| {
      var g := f[..|f| - 1];
      CountPrefix(g, k);
      assert g[..k] == f[..k];
    } else {
      assert f[..k] == f;
    }
  }

  lemma {:induction false} SelectAll<T>(s: seq<T>, f: seq<bool>)
    requires |s| == |f|
    ensures Count(f) <= |f|
    ensures Count(f) == |f| ==> Select(s, f) == s
  {
    if s == [] {
    } else {
      SelectAll(s[..|s| - 1], f[..|f| - 1]);
    }
  }

  lemma CountStep(f: seq<bool>, k: nat)
    requires k < |f|
    ensures Count(f[..k + 1]) == Count(f[..k]) + (if f[k] then 1 else 0)
  {
    assert f[..k + 1][..k] == f[..k];
  }

  lemma SelectStep<T>(s: seq<T>, f: seq<bool>, k: nat)
    requires |s| == |f| && k < |f|
    ensures Select(s[..k + 1], f[..k + 1]) == if f[k] then Select(s[..k], f[..k]) + [s[k]] else Select(s[..k], f[..k])
  {
    assert f[..k + 1][..k] == f[..k] && s[..k + 1][..k] == s[..k];
  }

  // ---------------------------------------------------------------- out-of-order matches

  /** Positions where two sequences differ. */
  ghost function Mismatches<T>(a: seq<T>, b: seq<T>): nat
    requires |a| == |b|
  {
    if a == [] then 0
    else Mismatches(a[..|a| - 1], b[..|b| - 1]) + (if a[|a| - 1] != b[|b| - 1] then 1 else 0)
  }

  lemma MismatchesAppend<T>(a: seq<T>, b: seq<T>, x: T, y: T)
    requires |a| == |b|
    ensures Mismatches(a + [x], b + [y]) == Mismatches(a, b) + (if x != y then 1 else 0)
  {
    assert (a + [x])[..|a|] == a && (b + [y])[..|b|] == b;
  }

  lemma {:induction false} MismatchesSymmetric<T>(a: seq<T>, b: seq<T>)
    requires |a| == |b|
    ensures Mismatches(a, b) == Mismatches(b, a) <= |a|
  {
    if a == [] {
    } else {
      MismatchesSymmetric(a[..|a| - 1], b[..|b| - 1]);
    }
  }

  lemma {:induction false} MismatchesZero<T>(a: seq<T>, b: seq<T>)
    requires |a| == |b|
    ensures Mismatches(a, b) == 0 <==> a == b
  {
    if a == [] {
    } else {
      var x, y := a[..|a| - 1], b[..|b| - 1];
      MismatchesZero(x, y);
      assert a == x + [a[|a| - 1]] && b == y + [b[|b| - 1]];
    }
  }

  lemma MultisetCancel<T>(x: seq<T>, y: seq<T>, c: T)
    requires multiset(x + [c]) == multiset(y + [c])
    ensures multiset(x) == multiset(y)
  {
    assert multiset(x) == multiset(x + [c]) - multiset{c};
    assert multiset(y) == multiset(y + [c]) - multiset{c};
  }

  lemma MultisetDiffer<T>(x: seq<T>, p: T, q: T)
    requires p != q
    ensures multiset(x + [p]) != multiset(x + [q])
  {
    assert multiset(x + [p])[p] == multiset(x)[p] + 1;
    assert multiset(x + [q])[p] == multiset(x)[p];
  }

  /** Sequences with exactly one differing position do not have the same elements. */
  lemma {:induction false} OneMismatch<T>(a: seq<T>, b: seq<T>)
    requires |a| == |b| && Mismatches(a, b) == 1
    ensures multiset(a) != multiset(b)
  {
    var n := |a| - 1;
    var x, y, p, q := a[..n], b[..n], a[n], b[n];
    assert a == x + [p] && b == y + [q];
    if p == q {
      OneMismatch(x, y);
      if multiset(a) == multiset(b) { MultisetCancel(x, y, p); }
    } else {
      MismatchesZero(x, y);
      MultisetDiffer(x, p, q);
    }
  }

  // ---------------------------------------------------------------- the value

  /** How far apart two characters may be and still match. */
  function MatchDist(ls: nat, lt: nat): nat {
    var half := (if lt > ls then lt else ls) / 2 - 1;
    if half < 0 then 0 else half
  }

  ghost function RowFlags(m: Pairs, n: nat): (f: seq<bool>)
    ensures |f| == n && forall i :: 0 <= i < n ==> f[i] == RowTaken(m, i)
  {
    seq(n, (i: nat) => RowTaken(m, i))
  }

  ghost function ColFlags(m: Pairs, n: nat): (f: seq<bool>)
    ensures |f| == n && forall j :: 0 <= j < n ==> f[j] == ColTaken(m, j)
  {
    seq(n, (j: nat) => ColTaken(m, j))
  }

  ghost function Matches<T(!new)>(s: seq<T>, t: seq<T>): Pairs {
    Greedy(s, t, MatchDist(|s|, |t|), |s|)
  }

  lemma FlagsAdd(m: Pairs, n: nat, i: nat, j: nat)
    ensures i < n ==> RowFlags(m + {(i, j)}, n) == RowFlags(m, n)[i := true]
    ensures j < n ==> ColFlags(m + {(i, j)}, n) == ColFlags(m, n)[j := true]
  {
    var x := m + {(i, j)};
    assert (i, j) in x;
    forall r: nat ensures RowTaken(x, r) <==> RowTaken(m, r) || r == i {
      if RowTaken(m, r) { var c: nat :| (r, c) in m; assert (r, c) in x; }
    }
    forall c: nat ensures ColTaken(x, c) <==> ColTaken(m, c) || c == j {
      if ColTaken(m, c) { var r: nat :| (r, c) in m; assert (r, c) in x; }
    }
  }

  lemma {:induction false} NoFlags(n: nat)
    ensures Count(RowFlags({}, n)) == 0 && Count(ColFlags({}, n)) == 0
  {
    if n == 0 {
    } else {
      NoFlags(n - 1);
      assert RowFlags({}, n)[..n - 1] == RowFlags({}, n - 1);
      assert ColFlags({}, n)[..n - 1] == ColFlags({}, n - 1);
    }
  }

  /** Both flag sequences hold n trues, and the two flagged subsequences have
      the same characters. */
  ghost predicate FlagsBalanced<T(!new)>(s: seq<T>, t: seq<T>, rows: seq<bool>, cols: seq<bool>, n: nat) {
    && |rows| == |s| && |cols| == |t|
    && Count(rows) == n == Count(cols)
    && multiset(Select(s, rows)) == multiset(Select(t, cols))
  }

  lemma FlagBoth<T(!new)>(s: seq<T>, t: seq<T>, rows: seq<bool>, cols: seq<bool>, n: nat, i: nat, j: nat)
    requires FlagsBalanced(s, t, rows, cols, n)
    requires i < |s| && j < |t| && s[i] == t[j] && !rows[i] && !cols[j]
    ensures FlagsBalanced(s, t, rows[i := true], cols[j := true], n + 1)
  {
    FlagOne(s, rows, i);
    FlagOne(t, cols, j);
  }

  ghost predicate Balanced<T(!new)>(s: seq<T>, t: seq<T>, m: Pairs) {
    FlagsBalanced(s, t, RowFlags(m, |s|), ColFlags(m, |t|), |m|)
  }

  lemma BalancedAdd<T(!new)>(s: seq<T>, t: seq<T>, m: Pairs, i: nat, j: nat)
    requires Balanced(s, t, m) && i < |s| && j < |t| && s[i] == t[j]
    requires !RowTaken(m, i) && !ColTaken(m, j)
    ensures Balanced(s, t, m + {(i, j)})
  {
    FlagsAdd(m, |s|, i, j);
    FlagsAdd(m, |t|, i, j);
    FlagBoth(s, t, RowFlags(m, |s|), ColFlags(m, |t|), |m|, i, j);
    assert (i, j) !in m;
    assert |m + {(i, j)}| == |m| + 1;
  }

  lemma NoneBalanced<T(!new)>(s: seq<T>, t: seq<T>)
    ensures Balanced(s, t, {})
  {
    NoFlags(|s|);
    NoFlags(|t|);
    assert Select(s, RowFlags({}, |s|)) == [] == Select(t, ColFlags({}, |t|));
  }

  lemma GreedyStep<T(!new)>(s: seq<T>, t: seq<T>, d: nat, k: nat)
    requires k < |s|
    ensures var m := Greedy(s, t, d, k); var c := FirstFree(s, t, d, m, k, 0);
            && !RowTaken(m, k)
            && Greedy(s, t, d, k + 1) == if c < |t| then m + {(k, c)} else m
  {
    assert forall p :: p in Greedy(s, t, d, k) ==> p.0 < k;
  }

  lemma GreedyNone<T(!new)>(s: seq<T>, t: seq<T>, d: nat)
    ensures Greedy(s, t, d, 0) == {}
    ensures forall i: nat :: !RowTaken({}, i) && !ColTaken({}, i)
  {}

  lemma {:induction false} GreedyBalanced<T(!new)>(s: seq<T>, t: seq<T>, d: nat, k: nat)
    requires k <= |s|
    ensures Balanced(s, t, Greedy(s, t, d, k))
  {
    hide Balanced, Greedy, FirstFree, RowTaken, ColTaken;
    if k == 0 {
      NoneBalanced(s, t);
      assert Greedy(s, t, d, k) == {} by { GreedyNone(s, t, d); }
    } else {
      GreedyBalanced(s, t, d, k - 1);
      GreedyStep(s, t, d, k - 1);
      var m := Greedy(s, t, d, k - 1);
      var c := FirstFree(s, t, d, m, k - 1, 0);
      if c < |t| {
        assert Admissible(s, t, d, k - 1, c);
        BalancedAdd(s, t, m, k - 1, c);
      }
    }
  }

  /** Matched characters that are out of order. */
  ghost function Transpositions<T(!new)>(s: seq<T>, t: seq<T>): nat {
    var m := Matches(s, t);
    GreedyBalanced(s, t, MatchDist(|s|, |t|), |s|);
    Mismatches(Select(s, RowFlags(m, |s|)), Select(t, ColFlags(m, |t|)))
  }

  function Similarity(ls: nat, lt: nat, matches: nat, transpositions: nat): real
    requires ls > 0 && lt > 0 && matches > 0
  {
    var m := matches as real;
    (m / ls as real + m / lt as real + (m - transpositions as real / 2.0) / m) / 3.0
  }

  ghost function JaroValue<T(!new)>(s: seq<T>, t: seq<T>): real {
    if s == t then 1.0
    else if s == [] || t == [] || |Matches(s, t)| == 0 then 0.0
    else Similarity(|s|, |t|, |Matches(s, t)|, Transpositions(s, t))
  }

  /** Length of the common prefix, counted up to max. */
  function CommonPrefix<T(==)>(s: seq<T>, t: seq<T>, max: nat): (l: nat)
    ensures l <= max && l <= |s| && l <= |t|
    ensures s[..l] == t[..l]
    ensures l < max && l < |s| && l < |t| ==> s[l] != t[l]
    decreases |s|
  {
    if max == 0 || s == [] || t == [] || s[0] != t[0] then 0
    else 1 + CommonPrefix(s[1..], t[1..], max - 1)
  }

  /** The prefix bonus of l characters. */
  function Boost(j: real, l: nat): real {
    j + Gain(l as real * 0.1, 1.0 - j)
  }

  function Gain(share: real, rest: real): real {
    share * rest
  }

  ghost function JaroWinklerValue<T(!new)>(s: seq<T>, t: seq<T>): real {
    var j := JaroValue(s, t);
    if j < 0.7 then j else Boost(j, CommonPrefix(s, t, 4))
  }

  // ---------------------------------------------------------------- the value in terms of positions

  /** The window: half the longer length, less one. */
  lemma MatchDistIs(ls: nat, lt: nat, max: nat)
    requires ls <= max && lt <= max && (max == ls || max == lt)
    ensures var d := MatchDist(ls, lt); if max < 4 then d == 0 else 2 * d + 2 <= max <= 2 * d + 3
  {}

  ghost function Flagged(f: seq<bool>): set<int> {
    set i | 0 <= i < |f| && f[i]
  }

  lemma {:induction false} CountIs(f: seq<bool>)
    ensures Count(f) == |Flagged(f)|
  {
    if f == [] {
    } else {
      var n := |f| - 1;
      CountIs(f[..n]);
      assert Flagged(f) == Flagged(f[..n]) + (if f[n] then {n} else {});
    }
  }

  /** The k-th flagged element of s stands at position k of the selection. */
  lemma {:induction false} SelectIs<T>(s: seq<T>, f: seq<bool>, i: nat)
    requires |s| == |f| && i < |f| && f[i]
    ensures Count(f[..i]) < Count(f) && Select(s, f)[Count(f[..i])] == s[i]
  {
    var n := |f| - 1;
    if i == n {
      assert f[..i] == f[..n];
    } else {
      SelectIs(s[..n], f[..n], i);
      assert f[..n][..i] == f[..i];
    }
  }

  /** Positions at which two texts differ. */
  ghost function Differing<T(!new)>(a: seq<T>, b: seq<T>): set<int>
    requires |a| == |b|
  {
    set k | 0 <= k < |a| && a[k] != b[k]
  }

  lemma {:induction false} MismatchesAre<T(!new)>(a: seq<T>, b: seq<T>)
    requires |a| == |b|
    ensures Mismatches(a, b) == |Differing(a, b)|
  {
    if a == [] {
    } else {
      var n := |a| - 1;
      MismatchesAre(a[..n], b[..n]);
      assert Differing(a, b) == Differing(a[..n], b[..n]) + (if a[n] != b[n] then {n} else {});
    }
  }

  /** Ranks k at which the k-th matched characters of the two texts differ. */
  ghost function OutOfOrder<T(!new)>(s: seq<T>, t: seq<T>): set<int> {
    var m := Matches(s, t);
    GreedyBalanced(s, t, MatchDist(|s|, |t|), |s|);
    Differing(Select(s, RowFlags(m, |s|)), Select(t, ColFlags(m, |t|)))
  }

  lemma OutOfOrderCounted<T(!new)>(s: seq<T>, t: seq<T>)
    ensures Transpositions(s, t) == |OutOfOrder(s, t)|
  {
    var m := Matches(s, t);
    GreedyBalanced(s, t, MatchDist(|s|, |t|), |s|);
    MismatchesAre(Select(s, RowFlags(m, |s|)), Select(t, ColFlags(m, |t|)));
  }

  lemma SimilarityIs(ls: nat, lt: nat, m: nat, tr: nat)
    requires ls > 0 && lt > 0 && m > 0
    ensures Similarity(ls, lt, m, tr)
            == (m as real / ls as real + m as real / lt as real + 1.0 - tr as real / (2.0 * m as real)) / 3.0
  {
    Halves(m as real, tr as real);
  }

  lemma Divided(x: real, y: real, q: real)
    requires y > 0.0 && q * y == x
    ensures x / y == q
  {}

  lemma Halves(m: real, tr: real)
    requires m > 0.0
    ensures (m - tr / 2.0) / m == 1.0 - tr / (2.0 * m)
  {
    var q := tr / (2.0 * m);
    assert q * (2.0 * m) == tr;
    Divided(m - tr / 2.0, m, 1.0 - q);
  }

  /** The similarity of different texts, from a largest pairing within the
      window and the ranks at which it is out of order. */
  lemma JaroExact<T(!new)>(s: seq<T>, t: seq<T>)
    ensures s == t ==> JaroValue(s, t) == 1.0
    ensures s != t && Matches(s, t) == {} ==> JaroValue(s, t) == 0.0
    ensures s != t && Matches(s, t) != {} ==>
              var m, tr := |Matches(s, t)| as real, |OutOfOrder(s, t)| as real;
              s != [] && t != [] && JaroValue(s, t) == (m / |s| as real + m / |t| as real + 1.0 - tr / (2.0 * m)) / 3.0
  {
    TranspositionsBound(s, t);
    OutOfOrderCounted(s, t);
    hide Similarity, Transpositions, OutOfOrder, Matches;
    if s != t && Matches(s, t) != {} { SimilarityIs(|s|, |t|, |Matches(s, t)|, Transpositions(s, t)); }
  }

  /** The prefix bonus: a tenth of the distance to 1 for each of at most four
      common characters, from 0.7 on. */
  lemma JaroWinklerExact<T(!new)>(s: seq<T>, t: seq<T>)
    ensures var j, l := JaroValue(s, t), CommonPrefix(s, t, 4);
            JaroWinklerValue(s, t) == if j < 0.7 then j else j + l as real * 0.1 * (1.0 - j)
  {
    hide JaroValue, CommonPrefix;
  }

  /** The similarity of n characters that all find a partner, h of them out of place. */
  function Displaced(n: nat, h: nat): real
    requires n > 0
  {
    1.0 - h as real / (6.0 * n as real)
  }

  /** When every character finds a partner only the places where the texts
      differ count. */
  lemma FullMatchValue<T(!new)>(s: seq<T>, t: seq<T>, n: Pairs)
    requires |s| == |t| > 0 && Pairing(s, t, MatchDist(|s|, |t|), n) && |n| == |s|
    ensures JaroValue(s, t) == Displaced(|s|, |Differing(s, t)|)
  {
    MatchesMaximum(s, t, n);
    TranspositionsBound(s, t);
    FullMatchOrder(s, t);
    OutOfOrderCounted(s, t);
    if s == t { assert Differing(s, t) == {}; }
    hide Similarity, Displaced, MatchDist, Matches, Transpositions, OutOfOrder, Differing;
    FullSimilarity(|s|, |Differing(s, t)|);
  }

  lemma FullSimilarity(n: nat, h: nat)
    requires n > 0
    ensures Similarity(n, n, n, h) == Displaced(n, h)
    ensures Displaced(n, 0) == 1.0
  {
    SimilarityIs(n, n, n, h);
    Sixths(n as real, h as real);
    Divided(0.0, 6.0 * n as real, 0.0);
  }

  lemma FullMatchOrder<T(!new)>(s: seq<T>, t: seq<T>)
    requires |Matches(s, t)| == |s| == |t|
    ensures OutOfOrder(s, t) == Differing(s, t)
  {
    var m := Matches(s, t);
    GreedyBalanced(s, t, MatchDist(|s|, |t|), |s|);
    SelectAll(s, RowFlags(m, |s|));
    SelectAll(t, ColFlags(m, |t|));
  }

  lemma Sixths(m: real, tr: real)
    requires m > 0.0
    ensures (m / m + m / m + 1.0 - tr / (2.0 * m)) / 3.0 == 1.0 - tr / (6.0 * m)
  {
    var q := tr / (6.0 * m);
    assert q * (6.0 * m) == tr;
    Divided(tr, 2.0 * m, 3.0 * q);
    Divided(m, m, 1.0);
  }

  /** The standard example: six matches, two of them out of order. */
  lemma MarthaMarhta()
    ensures JaroValue("martha", "marhta") == 17.0 / 18.0
  {
    var n := PairAll("martha", "marhta", [0, 1, 2, 4, 3, 5], 6);
    assert Differing("martha", "marhta") == {3, 4};
    SixWithTwo("martha", "marhta", n);
  }

  lemma SixWithTwo(s: string, t: string, n: Pairs)
    requires |s| == |t| == 6 && Pairing(s, t, MatchDist(6, 6), n) && |n| == 6 && Differing(s, t) == {3, 4}
    ensures JaroValue(s, t) == 17.0 / 18.0
  {
    DisplacedTwo();
    hide Displaced, JaroValue;
    FullMatchValue(s, t, n);
  }

  lemma DisplacedTwo()
    ensures Displaced(6, 2) == 17.0 / 18.0
  {}

  /** Pairing each of the first k characters of s with the one of t named for it. */
  lemma {:induction false} PairAll(s: string, t: string, to: seq<nat>, k: nat) returns (n: Pairs)
    requires |to| == |s| && k <= |s|
    requires forall i :: 0 <= i < |s| ==> Admissible(s, t, MatchDist(|s|, |t|), i, to[i])
    requires forall i, j :: 0 <= i < j < |s| ==> to[i] != to[j]
    ensures Pairing(s, t, MatchDist(|s|, |t|), n) && |n| == k
    ensures forall p :: p in n ==> p.0 < k && p.1 == to[p.0]
  {
    if k == 0 {
      n := {};
    } else {
      var m := PairAll(s, t, to, k - 1);
      assert !RowTaken(m, k - 1) && !ColTaken(m, to[k - 1]);
      AddPair(s, t, MatchDist(|s|, |t|), m, k - 1, to[k - 1]);
      n := m + {(k - 1, to[k - 1])};
    }
  }

  // ---------------------------------------------------------------- the loops of the source

  /** The three weights are equal: the matched share of either text, and the
      share of matched characters that are in order, a transposition counting
      one half. */
  method Jaro<T(==,!new)>(s: seq<T>, t: seq<T>) returns (r: real)
    ensures r == JaroValue(s, t)
    ensures s == t ==> r == 1.0
    ensures s != t && Matches(s, t) == {} ==> r == 0.0
    ensures s != t && Matches(s, t) != {} ==>
              var m, tr := |Matches(s, t)| as real, |OutOfOrder(s, t)| as real;
              s != [] && t != [] && r == (m / |s| as real + m / |t| as real + 1.0 - tr / (2.0 * m)) / 3.0
  {
    JaroExact(s, t);
    if s == t { return 1.0; }
    var ls, lt := |s|, |t|;
    if ls == 0 || lt == 0 { return 0.0; }
    var matchDist := MatchDist(ls, lt);
    var sMatched := new bool[ls](_ => false);
    var tMatched := new bool[lt](_ => false);
    var matches := Match(s, t, matchDist, sMatched, tMatched);
    if matches == 0 { return 0.0; }
    var transpositions := CountTransposed(s, t, sMatched, tMatched);
    r := Similarity(ls, lt, matches, transpositions);
  }

  lemma PairFlagged(m: Pairs, ls: nat, lt: nat, i: nat, j: nat)
    requires i < ls && j < lt && !RowTaken(m, i)
    ensures RowFlags(m + {(i, j)}, ls) == RowFlags(m, ls)[i := true]
    ensures ColFlags(m + {(i, j)}, lt) == ColFlags(m, lt)[j := true]
    ensures |m + {(i, j)}| == |m| + 1
  {
    FlagsAdd(m, ls, i, j);
    FlagsAdd(m, lt, i, j);
    assert (i, j) !in m;
  }

  /** The first scan: fills both arrays and counts the matches. */
  method Match<T(==,!new)>(s: seq<T>, t: seq<T>, d: nat, sMatched: array<bool>, tMatched: array<bool>)
      returns (matches: nat)
    requires sMatched != tMatched && sMatched.Length == |s| && tMatched.Length == |t|
    requires forall x :: 0 <= x < |s| ==> !sMatched[x]
    requires forall x :: 0 <= x < |t| ==> !tMatched[x]
    modifies sMatched, tMatched
    ensures matches == |Greedy(s, t, d, |s|)|
    ensures sMatched[..] == RowFlags(Greedy(s, t, d, |s|), |s|)
    ensures tMatched[..] == ColFlags(Greedy(s, t, d, |s|), |t|)
  {
    hide Greedy, FirstFree, RowFlags, ColFlags, RowTaken;
    matches := 0;
    GreedyNone(s, t, d);
    for i := 0 to |s|
      invariant matches == |Greedy(s, t, d, i)|
      invariant sMatched[..] == RowFlags(Greedy(s, t, d, i), |s|)
      invariant tMatched[..] == ColFlags(Greedy(s, t, d, i), |t|)
    {
      GreedyStep(s, t, d, i);
      ghost var m := Greedy(s, t, d, i);
      ghost var c := FirstFree(s, t, d, m, i, 0);
      ghost var rows, cols := sMatched[..], tMatched[..];
      var start := if i - d < 0 then 0 else i - d;
      var end := if i + d + 1 > |t| then |t| else i + d + 1;
      var j := start;
      while j < end
        invariant start <= j && (c < |t| ==> j <= c)
        invariant matches == |m| && sMatched[..] == rows && tMatched[..] == cols
      {
        assert tMatched[j] == cols[j] == ColTaken(m, j);
        if tMatched[j] || s[i] != t[j] {
          j := j + 1;
          continue;
        }
        assert j == c;
        PairFlagged(m, |s|, |t|, i, j);
        sMatched[i] := true;
        tMatched[j] := true;
        assert sMatched[..] == rows[i := true] && tMatched[..] == cols[j := true];
        matches := matches + 1;
        break;
      }
    }
  }

  /** The second scan has consumed i rows and k columns: equally many were
      flagged, and tr of the pairs met so far differ. */
  ghost predicate Scanned<T(!new)>(s: seq<T>, t: seq<T>, rows: seq<bool>, cols: seq<bool>, i: nat, k: nat, tr: nat)
    requires |s| == |rows| && |t| == |cols|
  {
    && i <= |s| && k <= |t| && Count(rows[..i]) == Count(cols[..k])
    && tr == Mismatches(Select(s[..i], rows[..i]), Select(t[..k], cols[..k]))
  }

  lemma SkipRow<T(!new)>(s: seq<T>, t: seq<T>, rows: seq<bool>, cols: seq<bool>, i: nat, k: nat, tr: nat)
    requires |s| == |rows| && |t| == |cols| && Scanned(s, t, rows, cols, i, k, tr)
    requires i < |s| && !rows[i]
    ensures Scanned(s, t, rows, cols, i + 1, k, tr)
  {
    CountStep(rows, i);
    SelectStep(s, rows, i);
  }

  lemma SkipColumn<T(!new)>(s: seq<T>, t: seq<T>, rows: seq<bool>, cols: seq<bool>, i: nat, k: nat, tr: nat)
    requires |s| == |rows| && |t| == |cols| && Scanned(s, t, rows, cols, i, k, tr)
    requires k < |t| && !cols[k]
    ensures Scanned(s, t, rows, cols, i, k + 1, tr)
  {
    CountStep(cols, k);
    SelectStep(t, cols, k);
  }

  lemma MeetPair<T(!new)>(s: seq<T>, t: seq<T>, rows: seq<bool>, cols: seq<bool>, i: nat, k: nat, tr: nat)
    requires |s| == |rows| && |t| == |cols| && Scanned(s, t, rows, cols, i, k, tr)
    requires i < |s| && rows[i] && k < |t| && cols[k]
    ensures Scanned(s, t, rows, cols, i + 1, k + 1, if s[i] != t[k] then tr + 1 else tr)
  {
    CountStep(rows, i);
    CountStep(cols, k);
    SelectStep(s, rows, i);
    SelectStep(t, cols, k);
    MismatchesAppend(Select(s[..i], rows[..i]), Select(t[..k], cols[..k]), s[i], t[k]);
  }

  /** While a flagged row is left, so is a flagged column. */
  lemma ColumnLeft<T(!new)>(s: seq<T>, t: seq<T>, rows: seq<bool>, cols: seq<bool>, i: nat, k: nat, tr: nat)
    requires |s| == |rows| && |t| == |cols| && Scanned(s, t, rows, cols, i, k, tr)
    requires Count(rows) == Count(cols) && i < |s| && rows[i]
    ensures k < |t|
  {
    CountStep(rows, i);
    CountPrefix(rows, i + 1);
    assert cols[..|t|] == cols;
  }

  lemma ScanStart<T(!new)>(s: seq<T>, t: seq<T>, rows: seq<bool>, cols: seq<bool>)
    requires |s| == |rows| && |t| == |cols|
    ensures Scanned(s, t, rows, cols, 0, 0, 0)
  {}

  lemma TranspositionsAre<T(!new)>(s: seq<T>, t: seq<T>)
    ensures var rows, cols := RowFlags(Matches(s, t), |s|), ColFlags(Matches(s, t), |t|);
            Count(rows) == Count(cols) && Transpositions(s, t) == Mismatches(Select(s, rows), Select(t, cols))
  {
    GreedyBalanced(s, t, MatchDist(|s|, |t|), |s|);
  }

  lemma ScanDone<T(!new)>(s: seq<T>, t: seq<T>, rows: seq<bool>, cols: seq<bool>, k: nat, tr: nat)
    requires |s| == |rows| && |t| == |cols| && Scanned(s, t, rows, cols, |s|, k, tr)
    requires Count(rows) == Count(cols)
    ensures tr == Mismatches(Select(s, rows), Select(t, cols))
  {
    assert s[..|s|] == s && rows[..|s|] == rows;
    SelectPrefix(t, cols, k);
  }

  /** The second scan.  The inner loop tests no bound; that it stops inside t is
      part of what is verified here. */
  method CountTransposed<T(==,!new)>(s: seq<T>, t: seq<T>, sMatched: array<bool>, tMatched: array<bool>)
      returns (transpositions: nat)
    requires sMatched[..] == RowFlags(Matches(s, t), |s|)
    requires tMatched[..] == ColFlags(Matches(s, t), |t|)
    ensures transpositions == Transpositions(s, t)
  {
    hide Scanned, Select, Count, Mismatches, Matches, RowFlags, ColFlags, Transpositions;
    ghost var rows, cols := sMatched[..], tMatched[..];
    ScanStart(s, t, rows, cols);
    TranspositionsAre(s, t);
    transpositions := 0;
    var k := 0;
    for i := 0 to |s|
      invariant Scanned(s, t, rows, cols, i, k, transpositions)
    {
      if !sMatched[i] {
        SkipRow(s, t, rows, cols, i, k, transpositions);
        continue;
      }
      ColumnLeft(s, t, rows, cols, i, k, transpositions);
      while !tMatched[k]
        invariant k < |t| && Scanned(s, t, rows, cols, i, k, transpositions)
        decreases |t| - k
      {
        SkipColumn(s, t, rows, cols, i, k, transpositions);
        k := k + 1;
        ColumnLeft(s, t, rows, cols, i, k, transpositions);
      }
      MeetPair(s, t, rows, cols, i, k, transpositions);
      if s[i] != t[k] {
        transpositions := transpositions + 1;
      }
      k := k + 1;
    }
    ScanDone(s, t, rows, cols, k, transpositions);
  }

  lemma {:induction false} SelectPrefix<T>(s: seq<T>, f: seq<bool>, k: nat)
    requires |s| == |f| && k <= |f| && Count(f[..k]) == Count(f)
    ensures Select(s, f) == Select(s[..k], f[..k])
  {
    if k < |f| {
      var n := |f| - 1;
      CountPrefix(f, k);
      assert f[..n][..k] == f[..k] && s[..n][..k] == s[..k];
      SelectPrefix(s[..n], f[..n], k);
    } else {
      assert f[..k] == f && s[..k] == s;
    }
  }

  method JaroWinkler<T(==,!new)>(s: seq<T>, t: seq<T>) returns (r: real)
    ensures r == JaroWinklerValue(s, t)
  {
    var j := Jaro(s, t);
    if j < 0.7 { return j; }
    var l := PrefixLength(s, t, 4);
    r := Boost(j, l);
  }

  method PrefixLength<T(==)>(s: seq<T>, t: seq<T>, max: nat) returns (l: nat)
    ensures l == CommonPrefix(s, t, max)
  {
    l := 0;
    var maxPfx := max;
    if |s| < maxPfx { maxPfx := |s|; }
    if |t| < maxPfx { maxPfx := |t|; }
    for i := 0 to maxPfx
      invariant l == i && s[..i] == t[..i]
    {
      if s[i] != t[i] { break; }
      l := l + 1;
    }
    CommonPrefixUnique(s, t, max, l);
  }

  lemma CommonPrefixUnique<T>(s: seq<T>, t: seq<T>, max: nat, l: nat)
    requires l <= max && l <= |s| && l <= |t| && s[..l] == t[..l]
    requires l < max && l < |s| && l < |t| ==> s[l] != t[l]
    ensures CommonPrefix(s, t, max) == l
  {
    var c := CommonPrefix(s, t, max);
    assert forall x :: 0 <= x < l ==> s[..l][x] == t[..l][x];
    assert forall x :: 0 <= x < c ==> s[..c][x] == t[..c][x];
  }

  // ---------------------------------------------------------------- what the value promises

  lemma FlagsFlip(m: Pairs, n: nat)
    ensures RowFlags(Flip(m), n) == ColFlags(m, n)
    ensures ColFlags(Flip(m), n) == RowFlags(m, n)
  {
    var f := Flip(m);
    forall j: nat ensures RowTaken(f, j) <==> ColTaken(m, j) {
      if ColTaken(m, j) { var i: nat :| (i, j) in m; assert (j, i) in f; }
      if RowTaken(f, j) { var i: nat :| (j, i) in f; assert (i, j) in m; }
    }
    forall i: nat ensures ColTaken(f, i) <==> RowTaken(m, i) {
      if RowTaken(m, i) { var j: nat :| (i, j) in m; assert (j, i) in f; }
      if ColTaken(f, i) { var j: nat :| (j, i) in f; assert (i, j) in m; }
    }
  }

  lemma MatchesSymmetric<T(!new)>(s: seq<T>, t: seq<T>)
    ensures Matches(t, s) == Flip(Matches(s, t))
    ensures RowFlags(Matches(t, s), |t|) == ColFlags(Matches(s, t), |t|)
    ensures ColFlags(Matches(t, s), |s|) == RowFlags(Matches(s, t), |s|)
  {
    var d := MatchDist(|s|, |t|);
    assert d == MatchDist(|t|, |s|);
    GreedySymmetric(s, t, d);
    var m := Greedy(s, t, d, |s|);
    FlagsFlip(m, |s|);
    FlagsFlip(m, |t|);
  }

  /** Both scans find the same number of matches and of transpositions from either side. */
  lemma CountsSymmetric<T(!new)>(s: seq<T>, t: seq<T>)
    ensures |Matches(s, t)| == |Matches(t, s)|
    ensures Transpositions(s, t) == Transpositions(t, s)
  {
    var m := Matches(s, t);
    MatchesSymmetric(s, t);
    GreedyBalanced(s, t, MatchDist(|s|, |t|), |s|);
    GreedyBalanced(t, s, MatchDist(|s|, |t|), |t|);
    MismatchesSymmetric(Select(s, RowFlags(m, |s|)), Select(t, ColFlags(m, |t|)));
  }

  lemma JaroSymmetric<T(!new)>(s: seq<T>, t: seq<T>)
    ensures JaroValue(s, t) == JaroValue(t, s)
  {
    CountsSymmetric(s, t);
  }

  lemma {:induction false} CommonPrefixSymmetric<T>(s: seq<T>, t: seq<T>, max: nat)
    ensures CommonPrefix(s, t, max) == CommonPrefix(t, s, max)
  {
    CommonPrefixUnique(t, s, max, CommonPrefix(s, t, max));
  }

  lemma JaroWinklerSymmetric<T(!new)>(s: seq<T>, t: seq<T>)
    ensures JaroWinklerValue(s, t) == JaroWinklerValue(t, s)
  {
    JaroSymmetric(s, t);
    CommonPrefixSymmetric(s, t, 4);
  }

  /** `matches` is the size of a largest one-to-one pairing of equal characters within the window. */
  lemma MatchesMaximum<T(!new)>(s: seq<T>, t: seq<T>, n: Pairs)
    ensures Pairing(s, t, MatchDist(|s|, |t|), Matches(s, t))
    ensures Pairing(s, t, MatchDist(|s|, |t|), n) ==> |n| <= |Matches(s, t)|
  {
    if Pairing(s, t, MatchDist(|s|, |t|), n) {
      GreedyMaximum(s, t, MatchDist(|s|, |t|), n);
    }
  }

  /** No more transpositions than matches, and never exactly one. */
  lemma TranspositionsBound<T(!new)>(s: seq<T>, t: seq<T>)
    ensures |Matches(s, t)| <= |s| && |Matches(s, t)| <= |t|
    ensures Transpositions(s, t) <= |Matches(s, t)|
    ensures Transpositions(s, t) != 1
  {
    var m := Matches(s, t);
    var rows, cols := RowFlags(m, |s|), ColFlags(m, |t|);
    GreedyBalanced(s, t, MatchDist(|s|, |t|), |s|);
    SelectAll(s, rows);
    SelectAll(t, cols);
    MismatchesSymmetric(Select(s, rows), Select(t, cols));
    if Transpositions(s, t) == 1 {
      OneMismatch(Select(s, rows), Select(t, cols));
    }
  }

  /** Everything matched and nothing out of order means equal strings. */
  lemma PerfectMatch<T(!new)>(s: seq<T>, t: seq<T>)
    requires |Matches(s, t)| == |s| == |t| && Transpositions(s, t) == 0
    ensures s == t
  {
    var m := Matches(s, t);
    GreedyBalanced(s, t, MatchDist(|s|, |t|), |s|);
    SelectAll(s, RowFlags(m, |s|));
    SelectAll(t, ColFlags(m, |t|));
    MismatchesZero(s, t);
  }

  lemma Ratio(a: nat, b: nat)
    requires b > 0 && a <= b
    ensures 0.0 <= a as real / b as real <= 1.0
    ensures a as real / b as real == 1.0 <==> a == b
    ensures a > 0 ==> a as real / b as real > 0.0
  {}

  lemma HalfOff(m: nat, tr: nat)
    requires 0 < m && tr <= m
    ensures var x := (m as real - tr as real / 2.0) / m as real;
            0.0 < x <= 1.0 && (x == 1.0 <==> tr == 0)
  {
    var h := m as real - tr as real / 2.0;
    assert 0.0 < h <= m as real;
  }

  lemma SimilarityRange(ls: nat, lt: nat, m: nat, tr: nat)
    requires ls > 0 && lt > 0 && 0 < m <= ls && m <= lt && tr <= m
    ensures 0.0 < Similarity(ls, lt, m, tr) <= 1.0
    ensures Similarity(ls, lt, m, tr) == 1.0 <==> m == ls == lt && tr == 0
  {
    Ratio(m, ls);
    Ratio(m, lt);
    var x := (m as real - tr as real / 2.0) / m as real;
    HalfOff(m, tr);
  }

  /** In exact arithmetic the value is in [0, 1]; it is 1 exactly for equal
      strings, and 0 exactly when no character of s has an equal one of t in
      its window. */
  lemma JaroRange<T(!new)>(s: seq<T>, t: seq<T>)
    ensures 0.0 <= JaroValue(s, t) <= 1.0
    ensures JaroValue(s, t) == 1.0 <==> s == t
    ensures JaroValue(s, t) == 0.0 <==>
            s != t && forall i: nat, j: nat :: !Admissible(s, t, MatchDist(|s|, |t|), i, j)
  {
    var m := Matches(s, t);
    var d := MatchDist(|s|, |t|);
    TranspositionsBound(s, t);
    if s != t && s != [] && t != [] && |m| > 0 {
      SimilarityRange(|s|, |t|, |m|, Transpositions(s, t));
      if JaroValue(s, t) == 1.0 { PerfectMatch(s, t); }
      var p :| p in m;
      assert Admissible(s, t, d, p.0, p.1);
    }
    if i: nat, j: nat :| Admissible(s, t, d, i, j) {
      GreedyStable(s, t, d);
      assert (i, j) in m || RowBefore(m, i, j) || ColBefore(m, i, j);
    }
  }

  /** The prefix bonus moves the value towards 1 without reaching it. */
  lemma JaroWinklerRange<T(!new)>(s: seq<T>, t: seq<T>)
    ensures JaroValue(s, t) <= JaroWinklerValue(s, t) <= 1.0
    ensures JaroWinklerValue(s, t) == 1.0 <==> s == t
  {
    JaroRange(s, t);
    BoostRange(JaroValue(s, t), CommonPrefix(s, t, 4));
  }

  lemma BoostRange(j: real, l: nat)
    requires 0.0 <= j <= 1.0 && l <= 4
    ensures j <= Boost(j, l) <= 1.0
    ensures Boost(j, l) == 1.0 <==> j == 1.0
  {
    hide Gain;
    var share := l as real * 0.1;
    assert 0.0 <= share <= 0.4;
    GainRange(share, 1.0 - j);
  }

  lemma GainRange(a: real, b: real)
    requires 0.0 <= a <= 0.4 && 0.0 <= b
    ensures 0.0 <= Gain(a, b) <= 0.4 * b
  {
    ProductSign(a, b);
    ProductSign(0.4 - a, b);
  }

  lemma ProductSign(x: real, y: real)
    requires 0.0 <= x && 0.0 <= y
    ensures 0.0 <= x * y
  {}
}
