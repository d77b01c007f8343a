/** Confidence scoring: the signal ladder, the bands and the fuzzy fallback.

    `norm` stands for the source's text normalisation followed by its UTF-8
    bytes; every result holds for any such function. */
module Resolver {
  import opened Model
  import J = Jaro

  type Normalizer = string -> seq<Byte>

  datatype Band = Quarantine | UserReview | WritebackWary | WritebackSafe | AutoResolve

  function BandOf(confidence: int): Band {
    if confidence >= 95 then AutoResolve
    else if confidence >= 80 then WritebackSafe
    else if confidence >= 60 then WritebackWary
    else if confidence >= 40 then UserReview
    else Quarantine
  }

  /** Outbox jobs may proceed. */
  predicate WritebackEnabled(confidence: int) {
    match BandOf(confidence)
    case Quarantine | UserReview => false
    case _ => true
  }

  /** Exact signals with their scores, best first. */
  const LADDER: seq<(Signal, int)> := [
    (InColumn(FileHash), 100), (InColumn(EpubId), 97), (InColumn(CalibreId), 95),
    (InColumn(GoodreadsId), 90), (InColumn(Isbn13), 85), (InColumn(Isbn10), 80),
    (InColumn(Asin), 75), (KOReaderAlias, 70), (MoonAlias, 65)]

  /** Confidence in a book record created from this evidence alone. */
  function EvidenceQuality(ev: Evidence): int {
    QualityFrom(ev, 0)
  }

  function QualityFrom(ev: Evidence, n: nat): int
    requires n <= |LADDER|
    decreases |LADDER| - n
  {
    if n < |LADDER| then
      if Key(ev, LADDER[n].0) != "" then LADDER[n].1 else QualityFrom(ev, n + 1)
    else if ev.title != "" && ev.authorSort != "" then 40
    else if ev.title != "" then 20
    else 0
  }

  datatype Reason = Exact(signal: Signal) | FuzzyTitleAuthor | TitleOnly | NoMatch
  datatype Match = Match(confidence: int, reason: Reason)

  predicate Agrees(norm: Normalizer, ev: Evidence, stored: Evidence, signal: Signal) {
    Key(ev, signal) != "" && Key(stored, signal) != "" && norm(Key(ev, signal)) == norm(Key(stored, signal))
  }

  /** The best matching signal between evidence and a stored record. */
  ghost function Score(norm: Normalizer, ev: Evidence, stored: Evidence): Match {
    ScoreFrom(norm, ev, stored, 0)
  }

  ghost function ScoreFrom(norm: Normalizer, ev: Evidence, stored: Evidence, n: nat): Match
    requires n <= |LADDER|
    decreases |LADDER| - n
  {
    if n == |LADDER| then Fuzzy(norm, ev, stored)
    else if Agrees(norm, ev, stored, LADDER[n].0) then Match(LADDER[n].1, Exact(LADDER[n].0))
    else ScoreFrom(norm, ev, stored, n + 1)
  }

  ghost function Fuzzy(norm: Normalizer, ev: Evidence, stored: Evidence): Match {
    var titles := ev.title != "" && stored.title != "";
    var authors := ev.authorSort != "" && stored.authorSort != "";
    var ts := J.JaroWinklerValue(norm(ev.title), norm(stored.title));
    if titles && authors && ts >= 0.92 && J.JaroWinklerValue(norm(ev.authorSort), norm(stored.authorSort)) >= 0.88
    then Match(55, FuzzyTitleAuthor)
    else if titles && ts >= 0.95 then Match(30, TitleOnly)
    else Match(0, NoMatch)
  }

  /** Score, whose answers `ScoreExact` lists. */
  method ComputeScore(norm: Normalizer, ev: Evidence, stored: Evidence) returns (m: Match)
    ensures m == Score(norm, ev, stored)
  {
    for n := 0 to |LADDER|
      invariant Score(norm, ev, stored) == ScoreFrom(norm, ev, stored, n)
    {
      if Agrees(norm, ev, stored, LADDER[n].0) {
        return Match(LADDER[n].1, Exact(LADDER[n].0));
      }
    }
    if ev.title != "" && stored.title != "" && ev.authorSort != "" && stored.authorSort != "" {
      var ts := J.JaroWinkler(norm(ev.title), norm(stored.title));
      var au := J.JaroWinkler(norm(ev.authorSort), norm(stored.authorSort));
      if ts >= 0.92 && au >= 0.88 { return Match(55, FuzzyTitleAuthor); }
    }
    if ev.title != "" && stored.title != "" {
      var ts := J.JaroWinkler(norm(ev.title), norm(stored.title));
      if ts >= 0.95 { return Match(30, TitleOnly); }
    }
    return Match(0, NoMatch);
  }

  // ---------------------------------------------------------------- properties

  lemma {:induction false} ScoreFromSymmetric(norm: Normalizer, a: Evidence, b: Evidence, n: nat)
    requires n <= |LADDER|
    ensures ScoreFrom(norm, a, b, n) == ScoreFrom(norm, b, a, n)
    decreases |LADDER| - n
  {
    if n == |LADDER| {
      J.JaroWinklerSymmetric(norm(a.title), norm(b.title));
      J.JaroWinklerSymmetric(norm(a.authorSort), norm(b.authorSort));
    } else {
      ScoreFromSymmetric(norm, a, b, n + 1);
    }
  }

  /** Scoring does not depend on which side is the stored record. */
  lemma ScoreSymmetric(norm: Normalizer, a: Evidence, b: Evidence)
    ensures Score(norm, a, b) == Score(norm, b, a)
  {
    ScoreFromSymmetric(norm, a, b, 0);
  }

  /** The ladder is strictly descending, so the first agreement is the best one. */
  lemma {:induction false} ScoreFromAtLeast(norm: Normalizer, ev: Evidence, stored: Evidence, n: nat, k: nat)
    requires n <= k < |LADDER| && Agrees(norm, ev, stored, LADDER[k].0)
    ensures ScoreFrom(norm, ev, stored, n).confidence >= LADDER[k].1
    ensures ScoreFrom(norm, ev, stored, n).reason.Exact?
    decreases k - n
  {
    assert LADDER[n].1 >= LADDER[k].1;
    if n < k && !Agrees(norm, ev, stored, LADDER[n].0) {
      ScoreFromAtLeast(norm, ev, stored, n + 1, k);
    }
  }

  /** Agreement on a signal gives at least that signal's score. */
  lemma ScoreAtLeast(norm: Normalizer, ev: Evidence, stored: Evidence, k: nat)
    requires k < |LADDER| && Agrees(norm, ev, stored, LADDER[k].0)
    ensures Score(norm, ev, stored).confidence >= LADDER[k].1
  {
    ScoreFromAtLeast(norm, ev, stored, 0, k);
  }

  /** Writeback is enabled by exactly the exact-signal matches: no fuzzy match reaches 60. */
  lemma {:induction false} WritebackNeedsExact(norm: Normalizer, ev: Evidence, stored: Evidence, n: nat)
    requires n <= |LADDER|
    ensures var m := ScoreFrom(norm, ev, stored, n);
            (WritebackEnabled(m.confidence) <==> m.reason.Exact?) && 0 <= m.confidence <= 100
    ensures ScoreFrom(norm, ev, stored, n).reason.Exact? <==>
            exists k :: n <= k < |LADDER| && Agrees(norm, ev, stored, LADDER[k].0)
    decreases |LADDER| - n
  {
    hide Agrees, Fuzzy;
    FuzzyIsLow(norm, ev, stored);
    LadderShape();
    if n >= |LADDER| {
    } else {
      WritebackNeedsExact(norm, ev, stored, n + 1);
    }
  }

  lemma FuzzyIsLow(norm: Normalizer, ev: Evidence, stored: Evidence)
    ensures var m := Fuzzy(norm, ev, stored); !m.reason.Exact? && m.confidence in {0, 30, 55}
  {}

  lemma LadderShape()
    ensures forall k :: 0 <= k < |LADDER| ==> 65 <= LADDER[k].1 <= 100
  {}

  lemma {:induction false} NoExactIsFuzzy(norm: Normalizer, ev: Evidence, stored: Evidence, n: nat)
    requires n <= |LADDER|
    ensures !ScoreFrom(norm, ev, stored, n).reason.Exact? ==> ScoreFrom(norm, ev, stored, n) == Fuzzy(norm, ev, stored)
    decreases |LADDER| - n
  {
    if n >= |LADDER| {
    } else {
      NoExactIsFuzzy(norm, ev, stored, n + 1);
    }
  }

  /** Evidence names at least one identifier column. */
  predicate HasColumn(ev: Evidence) {
    exists c: Column :: Key(ev, InColumn(c)) != ""
  }

  /** What a books row created from this evidence reads back as: alias keys are not columns. */
  function WithoutAliases(ev: Evidence): Evidence {
    ev.(koreaderDocHash := "", moonKey := "")
  }

  /** From ladder position n on, evidence supplies a column identifier. */
  predicate ColumnFrom(ev: Evidence, n: nat) {
    exists k :: n <= k < 7 && Key(ev, LADDER[k].0) != ""
  }

  lemma {:induction false} SelfScoreFrom(norm: Normalizer, ev: Evidence, n: nat)
    requires n <= |LADDER|
    ensures var m := ScoreFrom(norm, ev, WithoutAliases(ev), n);
            if ColumnFrom(ev, n) then m.confidence == QualityFrom(ev, n) >= 75
            else m == Fuzzy(norm, ev, WithoutAliases(ev))
    decreases |LADDER| - n
  {
    if n >= |LADDER| {
    } else {
      SelfScoreFrom(norm, ev, n + 1);
      assert n < 7 ==> Key(WithoutAliases(ev), LADDER[n].0) == Key(ev, LADDER[n].0);
      assert n >= 7 ==> Key(WithoutAliases(ev), LADDER[n].0) == "";
      if n < 7 && Key(ev, LADDER[n].0) != "" {
        assert ColumnFrom(ev, n);
      } else {
        assert ColumnFrom(ev, n) <==> ColumnFrom(ev, n + 1);
      }
    }
  }

  lemma {:induction false} QualityWithoutColumn(ev: Evidence, n: nat)
    requires n <= |LADDER| && !ColumnFrom(ev, n)
    ensures var q := QualityFrom(ev, n);
            if n <= 7 && ev.koreaderDocHash != "" then q == 70
            else if n <= 8 && ev.moonKey != "" then q == 65
            else if ev.title == "" then q == 0
            else q == (if ev.authorSort != "" then 40 else 20)
    decreases |LADDER| - n
  {
    if n >= |LADDER| {
    } else {
      assert n < 7 ==> Key(ev, LADDER[n].0) == "";
      assert !ColumnFrom(ev, n + 1);
      QualityWithoutColumn(ev, n + 1);
    }
  }

  lemma LadderColumns(ev: Evidence)
    ensures ColumnFrom(ev, 0) <==> HasColumn(ev)
  {
    if c: Column :| Key(ev, InColumn(c)) != "" {
      var k := match c
        case FileHash => 0 case EpubId => 1 case CalibreId => 2 case GoodreadsId => 3
        case Isbn13 => 4 case Isbn10 => 5 case Asin => 6;
      assert LADDER[k].0 == InColumn(c);
    }
    if ColumnFrom(ev, 0) {
      var k :| 0 <= k < 7 && Key(ev, LADDER[k].0) != "";
      assert Key(ev, InColumn(LADDER[k].0.column)) != "";
    }
  }

  /** Evidence scored against the row it created.  It scores the confidence the
      row was created with exactly when it has a column identifier, or nothing
      to score at all; alias-only evidence loses its 70 or 65.  Evidence without
      any signal is not found again, so for a bare title this compares two
      scores the pipeline does not compare: it makes another book. */
  lemma SameEvidenceAgain(norm: Normalizer, ev: Evidence)
    ensures var again := Score(norm, ev, WithoutAliases(ev)).confidence;
            && (again == EvidenceQuality(ev) <==>
                HasColumn(ev) || (ev.koreaderDocHash == "" && ev.moonKey == "" && ev.title == ""))
            && (WritebackEnabled(again) <==> HasColumn(ev))
    ensures WritebackEnabled(EvidenceQuality(ev)) <==>
            HasColumn(ev) || ev.koreaderDocHash != "" || ev.moonKey != ""
  {
    SelfScoreFrom(norm, ev, 0);
    LadderColumns(ev);
    if !ColumnFrom(ev, 0) {
      QualityWithoutColumn(ev, 0);
      J.JaroWinklerRange(norm(ev.title), norm(ev.title));
      J.JaroWinklerRange(norm(ev.authorSort), norm(ev.authorSort));
    }
  }

  // ---------------------------------------------------------------- the answers, row by row

  lemma BandsExact(c: int)
    ensures BandOf(c) == AutoResolve <==> 95 <= c
    ensures BandOf(c) == WritebackSafe <==> 80 <= c <= 94
    ensures BandOf(c) == WritebackWary <==> 60 <= c <= 79
    ensures BandOf(c) == UserReview <==> 40 <= c <= 59
    ensures BandOf(c) == Quarantine <==> c <= 39
    ensures WritebackEnabled(c) <==> 60 <= c
  {}

  /** Two identifiers that are both given and equal once normalised. */
  predicate Same(norm: Normalizer, a: string, b: string) {
    a != "" && b != "" && norm(a) == norm(b)
  }

  /** How alike two texts are once normalised. */
  ghost function Alike(norm: Normalizer, a: string, b: string): real {
    J.JaroWinklerValue(norm(a), norm(b))
  }

  /** Which score is given when: the first identifier the two agree in, in this
      order; without one the title and author, then the title alone. */
  lemma ScoreExact(norm: Normalizer, a: Evidence, b: Evidence)
    ensures var m := Score(norm, a, b);
            if Same(norm, a.fileHash, b.fileHash) then m == Match(100, Exact(InColumn(FileHash)))
            else if Same(norm, a.epubId, b.epubId) then m == Match(97, Exact(InColumn(EpubId)))
            else if Same(norm, a.calibreId, b.calibreId) then m == Match(95, Exact(InColumn(CalibreId)))
            else if Same(norm, a.goodreadsId, b.goodreadsId) then m == Match(90, Exact(InColumn(GoodreadsId)))
            else if Same(norm, a.isbn13, b.isbn13) then m == Match(85, Exact(InColumn(Isbn13)))
            else if Same(norm, a.isbn10, b.isbn10) then m == Match(80, Exact(InColumn(Isbn10)))
            else if Same(norm, a.asin, b.asin) then m == Match(75, Exact(InColumn(Asin)))
            else if Same(norm, a.koreaderDocHash, b.koreaderDocHash) then m == Match(70, Exact(KOReaderAlias))
            else if Same(norm, a.moonKey, b.moonKey) then m == Match(65, Exact(MoonAlias))
            else if a.title == "" || b.title == "" then m == Match(0, NoMatch)
            else if a.authorSort != "" && b.authorSort != "" && Alike(norm, a.title, b.title) >= 0.92
                    && Alike(norm, a.authorSort, b.authorSort) >= 0.88 then m == Match(55, FuzzyTitleAuthor)
            else if Alike(norm, a.title, b.title) >= 0.95 then m == Match(30, TitleOnly)
            else m == Match(0, NoMatch)
  {
    ScoreSteps(norm, a, b, 0);
    ScoreSteps(norm, a, b, 3);
    ScoreSteps(norm, a, b, 6);
    RungsAgree(norm, a, b);
    FuzzyExact(norm, a, b);
    hide ScoreFrom, Fuzzy, Agrees, Same, Alike, Key;
  }

  lemma RungsAgree(norm: Normalizer, a: Evidence, b: Evidence)
    ensures LADDER[0].1 == 100 && (Agrees(norm, a, b, LADDER[0].0) <==> Same(norm, a.fileHash, b.fileHash))
    ensures LADDER[1].1 == 97 && (Agrees(norm, a, b, LADDER[1].0) <==> Same(norm, a.epubId, b.epubId))
    ensures LADDER[2].1 == 95 && (Agrees(norm, a, b, LADDER[2].0) <==> Same(norm, a.calibreId, b.calibreId))
    ensures LADDER[3].1 == 90 && (Agrees(norm, a, b, LADDER[3].0) <==> Same(norm, a.goodreadsId, b.goodreadsId))
    ensures LADDER[4].1 == 85 && (Agrees(norm, a, b, LADDER[4].0) <==> Same(norm, a.isbn13, b.isbn13))
    ensures LADDER[5].1 == 80 && (Agrees(norm, a, b, LADDER[5].0) <==> Same(norm, a.isbn10, b.isbn10))
    ensures LADDER[6].1 == 75 && (Agrees(norm, a, b, LADDER[6].0) <==> Same(norm, a.asin, b.asin))
    ensures LADDER[7].1 == 70 && (Agrees(norm, a, b, LADDER[7].0) <==> Same(norm, a.koreaderDocHash, b.koreaderDocHash))
    ensures LADDER[8].1 == 65 && (Agrees(norm, a, b, LADDER[8].0) <==> Same(norm, a.moonKey, b.moonKey))
  {}

  lemma FuzzyExact(norm: Normalizer, a: Evidence, b: Evidence)
    ensures Fuzzy(norm, a, b)
            == if a.title == "" || b.title == "" then Match(0, NoMatch)
               else if a.authorSort != "" && b.authorSort != "" && Alike(norm, a.title, b.title) >= 0.92
                       && Alike(norm, a.authorSort, b.authorSort) >= 0.88 then Match(55, FuzzyTitleAuthor)
               else if Alike(norm, a.title, b.title) >= 0.95 then Match(30, TitleOnly)
               else Match(0, NoMatch)
  {
    hide J.JaroWinklerValue;
  }

  /** Three rungs of the ladder, and what follows the last. */
  lemma ScoreSteps(norm: Normalizer, a: Evidence, b: Evidence, n: nat)
    requires n + 3 <= |LADDER|
    ensures ScoreFrom(norm, a, b, n)
            == if Agrees(norm, a, b, LADDER[n].0) then Match(LADDER[n].1, Exact(LADDER[n].0))
               else if Agrees(norm, a, b, LADDER[n + 1].0) then Match(LADDER[n + 1].1, Exact(LADDER[n + 1].0))
               else if Agrees(norm, a, b, LADDER[n + 2].0) then Match(LADDER[n + 2].1, Exact(LADDER[n + 2].0))
               else ScoreFrom(norm, a, b, n + 3)
    ensures ScoreFrom(norm, a, b, |LADDER|) == Fuzzy(norm, a, b)
  {
    hide Agrees, Fuzzy;
    assert ScoreFrom(norm, a, b, n + 1)
        == if Agrees(norm, a, b, LADDER[n + 1].0) then Match(LADDER[n + 1].1, Exact(LADDER[n + 1].0)) else ScoreFrom(norm, a, b, n + 2);
  }

  /** Confidence in a record made from this evidence: the best identifier given. */
  lemma QualityExact(ev: Evidence)
    ensures EvidenceQuality(ev)
            == if ev.fileHash != "" then 100
               else if ev.epubId != "" then 97
               else if ev.calibreId != "" then 95
               else if ev.goodreadsId != "" then 90
               else if ev.isbn13 != "" then 85
               else if ev.isbn10 != "" then 80
               else if ev.asin != "" then 75
               else if ev.koreaderDocHash != "" then 70
               else if ev.moonKey != "" then 65
               else if ev.title != "" && ev.authorSort != "" then 40
               else if ev.title != "" then 20
               else 0
  {
    QualitySteps(ev, 0);
    QualitySteps(ev, 3);
    QualitySteps(ev, 6);
    hide QualityFrom;
  }

  lemma QualitySteps(ev: Evidence, n: nat)
    requires n + 3 <= |LADDER|
    ensures QualityFrom(ev, n)
            == if Key(ev, LADDER[n].0) != "" then LADDER[n].1
               else if Key(ev, LADDER[n + 1].0) != "" then LADDER[n + 1].1
               else if Key(ev, LADDER[n + 2].0) != "" then LADDER[n + 2].1
               else QualityFrom(ev, n + 3)
    ensures QualityFrom(ev, |LADDER|)
            == if ev.title != "" && ev.authorSort != "" then 40 else if ev.title != "" then 20 else 0
  {
    hide Key;
    assert QualityFrom(ev, n + 1) == if Key(ev, LADDER[n + 1].0) != "" then LADDER[n + 1].1 else QualityFrom(ev, n + 2);
  }
}
