/** The window matching of `jaro` as a set of position pairs.

    Row i of s may take column j of t when the two characters agree and the
    positions are at most d apart.  The source builds the matching greedily:
    rows in ascending order, each taking the least free column it may.  This
    module shows that the result is the only matching of a shape that treats
    rows and columns alike, and that no matching has more pairs. */
module Matching {

  type Pairs = set<(nat, nat)>

  ghost predicate Admissible<T(!new)>(s: seq<T>, t: seq<T>, d: nat, i: nat, j: nat) {
    i < |s| && j < |t| && s[i] == t[j] && i <= j + d && j <= i + d
  }

  /** A one-to-one pairing of admissible positions. */
  ghost predicate Pairing<T(!new)>(s: seq<T>, t: seq<T>, d: nat, m: Pairs) {
    && (forall p :: p in m ==> Admissible(s, t, d, p.0, p.1))
    && (forall p, q :: p in m && q in m && p != q ==> p.0 != q.0 && p.1 != q.1)
  }

  /** Row i is paired with a column before j. */
  ghost predicate RowBefore(m: Pairs, i: nat, j: nat) {
    exists c: nat :: c < j && (i, c) in m
  }

  /** Column j is paired with a row before i. */
  ghost predicate ColBefore(m: Pairs, i: nat, j: nat) {
    exists r: nat :: r < i && (r, j) in m
  }

  /** Every admissible pair that was left out lost one of its ends to an earlier partner. */
  ghost predicate Stable<T(!new)>(s: seq<T>, t: seq<T>, d: nat, m: Pairs) {
    forall i: nat, j: nat :: Admissible(s, t, d, i, j) && (i, j) !in m ==> RowBefore(m, i, j) || ColBefore(m, i, j)
  }

  // ---------------------------------------------------------------- the greedy scan

  ghost predicate ColTaken(m: Pairs, j: nat) {
    exists i: nat :: (i, j) in m
  }

  ghost predicate RowTaken(m: Pairs, i: nat) {
    exists j: nat :: (i, j) in m
  }

  /** The least free column from j on that row i may take, |t| when there is none. */
  ghost function FirstFree<T(!new)>(s: seq<T>, t: seq<T>, d: nat, m: Pairs, i: nat, j: nat): (c: nat)
    requires j <= |t|
    ensures j <= c <= |t|
    ensures c < |t| ==> Admissible(s, t, d, i, c) && !ColTaken(m, c)
    ensures forall x: nat :: j <= x < c ==> !Admissible(s, t, d, i, x) || ColTaken(m, x)
    decreases |t| - j
  {
    if j == |t| || (Admissible(s, t, d, i, j) && !ColTaken(m, j)) then j else FirstFree(s, t, d, m, i, j + 1)
  }

  /** What the greedy scan has paired after its first k rows. */
  ghost function Greedy<T(!new)>(s: seq<T>, t: seq<T>, d: nat, k: nat): (m: Pairs)
    requires k <= |s|
    ensures Pairing(s, t, d, m)
    ensures forall p :: p in m ==> p.0 < k
  {
    if k == 0 then {} else
      var m := Greedy(s, t, d, k - 1);
      var c := FirstFree(s, t, d, m, k - 1, 0);
      if c < |t| then m + {(k - 1, c)} else m
  }

  lemma {:induction false} GreedyStableRows<T(!new)>(s: seq<T>, t: seq<T>, d: nat, k: nat)
    requires k <= |s|
    ensures forall i: nat, j: nat :: i < k && Admissible(s, t, d, i, j) && (i, j) !in Greedy(s, t, d, k) ==>
              RowBefore(Greedy(s, t, d, k), i, j) || ColBefore(Greedy(s, t, d, k), i, j)
  {
    if k == 0 {
    } else {
      GreedyStableRows(s, t, d, k - 1);
      var m, n := Greedy(s, t, d, k - 1), Greedy(s, t, d, k);
      var c := FirstFree(s, t, d, m, k - 1, 0);
      forall i: nat, j: nat | i < k && Admissible(s, t, d, i, j) && (i, j) !in n
        ensures RowBefore(n, i, j) || ColBefore(n, i, j)
      {
        if i == k - 1 {
          if c < j {
            assert (k - 1, c) in n;
          } else {
            assert ColTaken(m, j);
          }
        } else {
          assert RowBefore(m, i, j) || ColBefore(m, i, j);
        }
      }
    }
  }

  /** The greedy matching is stable. */
  lemma GreedyStable<T(!new)>(s: seq<T>, t: seq<T>, d: nat)
    ensures Stable(s, t, d, Greedy(s, t, d, |s|))
  {
    GreedyStableRows(s, t, d, |s|);
  }

  // ---------------------------------------------------------------- uniqueness and symmetry

  lemma {:induction false} StableContains<T(!new)>(s: seq<T>, t: seq<T>, d: nat, m: Pairs, n: Pairs, i: nat, j: nat)
    requires Pairing(s, t, d, m) && Pairing(s, t, d, n)
    requires Stable(s, t, d, m) && Stable(s, t, d, n)
    requires (i, j) in m
    ensures (i, j) in n
    decreases i + j
  {
    if (i, j) !in n {
      assert Admissible(s, t, d, (i, j).0, (i, j).1);
      if RowBefore(n, i, j) {
        var c: nat :| c < j && (i, c) in n;
        StableContains(s, t, d, n, m, i, c);
      } else {
        var r: nat :| r < i && (r, j) in n;
        StableContains(s, t, d, n, m, r, j);
      }
      assert false;
    }
  }

  /** There is only one stable matching. */
  lemma StableUnique<T(!new)>(s: seq<T>, t: seq<T>, d: nat, m: Pairs, n: Pairs)
    requires Pairing(s, t, d, m) && Pairing(s, t, d, n)
    requires Stable(s, t, d, m) && Stable(s, t, d, n)
    ensures m == n
  {
    forall p | p in m ensures p in n { StableContains(s, t, d, m, n, p.0, p.1); }
    forall p | p in n ensures p in m { StableContains(s, t, d, n, m, p.0, p.1); }
  }

  /** The same pairs read from the other string. */
  ghost function Flip(m: Pairs): (f: Pairs)
    ensures forall i: nat, j: nat :: (j, i) in f <==> (i, j) in m
  {
    set p | p in m :: (p.1, p.0)
  }

  /** Scanning from t pairs exactly the positions that scanning from s pairs. */
  lemma GreedySymmetric<T(!new)>(s: seq<T>, t: seq<T>, d: nat)
    ensures Greedy(t, s, d, |t|) == Flip(Greedy(s, t, d, |s|))
  {
    var m := Greedy(s, t, d, |s|);
    var f := Flip(m);
    GreedyStable(s, t, d);
    GreedyStable(t, s, d);
    forall p | p in f ensures Admissible(t, s, d, p.0, p.1) {
      assert (p.1, p.0) in m;
      assert Admissible(s, t, d, (p.1, p.0).0, (p.1, p.0).1);
    }
    forall p, q | p in f && q in f && p != q ensures p.0 != q.0 && p.1 != q.1 {
      assert (p.1, p.0) in m && (q.1, q.0) in m;
    }
    forall j: nat, i: nat | Admissible(t, s, d, j, i) && (j, i) !in f
      ensures RowBefore(f, j, i) || ColBefore(f, j, i)
    {
      assert Admissible(s, t, d, i, j) && (i, j) !in m;
      if RowBefore(m, i, j) {
        var c: nat :| c < j && (i, c) in m;
        assert (c, i) in f;
      } else {
        var r: nat :| r < i && (r, j) in m;
        assert (j, r) in f;
      }
    }
    StableUnique(t, s, d, Greedy(t, s, d, |t|), f);
  }

  // ---------------------------------------------------------------- maximality

  /** n continues the greedy scan's first k rows: it contains their pairs and otherwise uses later rows only. */
  ghost predicate Continues(m: Pairs, n: Pairs, k: nat) {
    m <= n && forall p :: p in n && p !in m ==> p.0 >= k
  }

  lemma AddPair<T(!new)>(s: seq<T>, t: seq<T>, d: nat, m: Pairs, i: nat, j: nat)
    requires Pairing(s, t, d, m) && Admissible(s, t, d, i, j)
    requires !RowTaken(m, i) && !ColTaken(m, j)
    ensures Pairing(s, t, d, m + {(i, j)}) && |m + {(i, j)}| == |m| + 1
  {
    forall p | p in m ensures p.0 != i && p.1 != j {
      assert (p.0, p.1) in m;
    }
  }

  lemma DropPair<T(!new)>(s: seq<T>, t: seq<T>, d: nat, m: Pairs, i: nat, j: nat)
    requires Pairing(s, t, d, m) && (i, j) in m
    ensures Pairing(s, t, d, m - {(i, j)}) && |m - {(i, j)}| == |m| - 1
    ensures !RowTaken(m - {(i, j)}, i) && !ColTaken(m - {(i, j)}, j)
    ensures Admissible(s, t, d, i, j)
  {
    assert (i, j).0 == i && (i, j).1 == j;
    forall x: nat | (i, x) in m ensures x == j { assert (i, x).0 == (i, j).0; }
    forall x: nat | (x, j) in m ensures x == i { assert (x, j).1 == (i, j).1; }
  }

  /** The crossing case: rows k < r hold columns b > c the wrong way round. */
  lemma Uncross<T(!new)>(s: seq<T>, t: seq<T>, d: nat, n: Pairs, k: nat, b: nat, r: nat, c: nat) returns (x: Pairs)
    requires Pairing(s, t, d, n)
    requires (k, b) in n && (r, c) in n && k < r && c < b && Admissible(s, t, d, k, c)
    ensures forall p :: p in x <==> (p in n && p != (k, b) && p != (r, c)) || p == (k, c) || p == (r, b)
    ensures Pairing(s, t, d, x) && |x| == |n|
  {
    DropPair(s, t, d, n, k, b);
    var n1 := n - {(k, b)};
    DropPair(s, t, d, n1, r, c);
    var n2 := n1 - {(r, c)};
    AddPair(s, t, d, n2, k, c);
    var n3 := n2 + {(k, c)};
    assert !RowTaken(n3, r) && !ColTaken(n3, b);
    AddPair(s, t, d, n3, r, b);
    x := n3 + {(r, b)};
  }

  /** Columns before the greedy choice are unavailable to row k in any continuation. */
  lemma GreedyChoiceLeast<T(!new)>(s: seq<T>, t: seq<T>, d: nat, k: nat, n: Pairs, b: nat)
    requires k < |s|
    requires Pairing(s, t, d, n) && Continues(Greedy(s, t, d, k), n, k)
    requires (k, b) in n
    ensures FirstFree(s, t, d, Greedy(s, t, d, k), k, 0) <= b < |t|
  {
    var m := Greedy(s, t, d, k);
    assert Admissible(s, t, d, (k, b).0, (k, b).1);
    assert !ColTaken(m, b);
  }

  /** One greedy row: any continuation of k rows can be exchanged, without
      losing a pair, for a continuation of k + 1 rows. */
  lemma Exchange<T(!new)>(s: seq<T>, t: seq<T>, d: nat, k: nat, n: Pairs) returns (x: Pairs)
    requires k < |s|
    requires Pairing(s, t, d, n) && Continues(Greedy(s, t, d, k), n, k)
    ensures Pairing(s, t, d, x) && Continues(Greedy(s, t, d, k + 1), x, k + 1)
    ensures |x| >= |n|
  {
    var m := Greedy(s, t, d, k);
    var c := FirstFree(s, t, d, m, k, 0);
    assert forall p :: p in n && p !in m ==> p.0 >= k;
    if c == |t| {
      x := n;
      forall p | p in n && p !in m ensures p.0 >= k + 1 {
        if p.0 == k { GreedyChoiceLeast(s, t, d, k, n, p.1); }
      }
    } else {
      x := ExchangeFor(s, t, d, k, m, n, c);
    }
  }

  /** Row k and column c are free in y, which keeps the first k rows' pairs. */
  lemma ContinueWith<T(!new)>(s: seq<T>, t: seq<T>, d: nat, k: nat, m: Pairs, y: Pairs, c: nat)
    requires Pairing(s, t, d, y) && Continues(m, y, k)
    requires Admissible(s, t, d, k, c) && !RowTaken(y, k) && !ColTaken(y, c)
    ensures Pairing(s, t, d, y + {(k, c)}) && |y + {(k, c)}| == |y| + 1
    ensures Continues(m + {(k, c)}, y + {(k, c)}, k + 1)
  {
    AddPair(s, t, d, y, k, c);
    forall p | p in y && p !in m ensures p.0 >= k + 1 {
      assert (p.0, p.1) in y;
    }
  }

  lemma ExchangeFor<T(!new)>(s: seq<T>, t: seq<T>, d: nat, k: nat, m: Pairs, n: Pairs, c: nat) returns (x: Pairs)
    requires k < |s| && m == Greedy(s, t, d, k) && c == FirstFree(s, t, d, m, k, 0) && c < |t|
    requires Pairing(s, t, d, n) && Continues(m, n, k)
    ensures Pairing(s, t, d, x) && Continues(m + {(k, c)}, x, k + 1)
    ensures |x| >= |n|
  {
    if RowTaken(n, k) {
      var b: nat :| (k, b) in n;
      x := ExchangeRow(s, t, d, k, m, n, c, b);
    } else if ColTaken(n, c) {
      var r: nat :| (r, c) in n;
      DropPair(s, t, d, n, r, c);
      ContinueWith(s, t, d, k, m, n - {(r, c)}, c);
      x := n - {(r, c)} + {(k, c)};
    } else {
      ContinueWith(s, t, d, k, m, n, c);
      x := n + {(k, c)};
    }
  }

  lemma ExchangeRow<T(!new)>(s: seq<T>, t: seq<T>, d: nat, k: nat, m: Pairs, n: Pairs, c: nat, b: nat) returns (x: Pairs)
    requires k < |s| && m == Greedy(s, t, d, k) && c == FirstFree(s, t, d, m, k, 0) && c < |t|
    requires Pairing(s, t, d, n) && Continues(m, n, k) && (k, b) in n
    ensures Pairing(s, t, d, x) && Continues(m + {(k, c)}, x, k + 1)
    ensures |x| >= |n|
  {
    GreedyChoiceLeast(s, t, d, k, n, b);
    DropPair(s, t, d, n, k, b);
    var y := n - {(k, b)};
    assert (k, b) !in m;
    if c == b {
      ContinueWith(s, t, d, k, m, y, c);
      x := y + {(k, c)};
    } else if ColTaken(n, c) {
      var r: nat :| (r, c) in n;
      x := ExchangeCrossing(s, t, d, k, m, n, c, b, r);
    } else {
      assert !ColTaken(y, c);
      ContinueWith(s, t, d, k, m, y, c);
      x := y + {(k, c)};
    }
  }

  lemma ExchangeCrossing<T(!new)>(s: seq<T>, t: seq<T>, d: nat, k: nat, m: Pairs, n: Pairs, c: nat, b: nat, r: nat)
      returns (x: Pairs)
    requires Pairing(s, t, d, n) && Continues(m, n, k)
    requires (k, b) in n && (r, c) in n && (k, b) !in m && !ColTaken(m, c)
    requires c < b && Admissible(s, t, d, k, c)
    ensures Pairing(s, t, d, x) && Continues(m + {(k, c)}, x, k + 1) && |x| == |n|
  {
    assert (r, c) !in m;
    var kb, rc := (k, b), (r, c);
    assert rc.0 >= k && kb != rc;
    assert r > k;
    x := Uncross(s, t, d, n, k, b, r, c);
    forall p | p in x && p !in m + {(k, c)} ensures p.0 >= k + 1 {
      if p != (r, b) {
        assert p in n && p != kb;
        assert p.0 != kb.0;
      }
    }
  }

  lemma {:induction false} GreedyDominates<T(!new)>(s: seq<T>, t: seq<T>, d: nat, k: nat, n: Pairs)
    requires k <= |s|
    requires Pairing(s, t, d, n) && Continues(Greedy(s, t, d, k), n, k)
    ensures |n| <= |Greedy(s, t, d, |s|)|
    decreases |s| - k
  {
    if k < |s| {
      var x := Exchange(s, t, d, k, n);
      GreedyDominates(s, t, d, k + 1, x);
    } else {
      assert n <= Greedy(s, t, d, k) by {
        forall p | p in n ensures p in Greedy(s, t, d, k) {
          assert Admissible(s, t, d, p.0, p.1);
        }
      }
      assert n == Greedy(s, t, d, k);
    }
  }

  /** No one-to-one pairing of equal characters within the window is larger. */
  lemma GreedyMaximum<T(!new)>(s: seq<T>, t: seq<T>, d: nat, n: Pairs)
    requires Pairing(s, t, d, n)
    ensures |n| <= |Greedy(s, t, d, |s|)|
  {
    GreedyDominates(s, t, d, 0, n);
  }
}
