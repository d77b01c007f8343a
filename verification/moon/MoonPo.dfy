/** The Moon+ `.po` position format: parser, writer, and the laws between them.

    Percentages are exact decimals. */
module MoonPo {
  import opened Decimals
  import opened Model
  import Pipeline

  // ---------------------------------------------------------------- the grammar

  datatype Fields = Fields(fileId: string, position: string, chapter: string, scroll: string, pct: string)

  function FromPct(f: Fields): string { f.pct + "%" }
  function FromScroll(f: Fields): string { f.scroll + ":" + FromPct(f) }
  function FromChapter(f: Fields): string { f.chapter + "#" + FromScroll(f) }
  function FromPosition(f: Fields): string { f.position + "@" + FromChapter(f) }

  /** {file_id}*{position}@{chapter}#{scroll}:{pct}% */
  function Text(f: Fields): string { f.fileId + "*" + FromPosition(f) }

  predicate Matches(text: string, f: Fields) {
    && '*' !in f.fileId && '@' !in f.position && '#' !in f.chapter && ':' !in f.scroll && IsNumber(f.pct)
    && text == Text(f)
  }

  /** What precedes and what follows the first c. */
  function Cut(s: string, c: char): Option<(string, string)> {
    var i := Index(s, c);
    if i == |s| then None else Some((s[..i], s[i + 1..]))
  }

  function ScanPct(t: string): Option<string> {
    if t != "" && t[|t| - 1] == '%' && IsNumber(t[..|t| - 1]) then Some(t[..|t| - 1]) else None
  }

  /** Each delimiter is the first of its kind after the one before it. */
  function Scan(text: string): Option<Fields> {
    var a := Cut(text, '*');
    if a.None? then None else
    var b := Cut(a.value.1, '@');
    if b.None? then None else
    var c := Cut(b.value.1, '#');
    if c.None? then None else
    var d := Cut(c.value.1, ':');
    if d.None? then None else
    var e := ScanPct(d.value.1);
    if e.None? then None else
    Some(Fields(a.value.0, b.value.0, c.value.0, d.value.0, e.value))
  }

  lemma CutIff(s: string, c: char, a: string, b: string)
    ensures Cut(s, c) == Some((a, b)) <==> c !in a && s == a + [c] + b
  {
    if c !in a && s == a + [c] + b {
      IndexIs(a, c, b);
      assert s[..|a|] == a && s[|a| + 1..] == b;
    }
    if Cut(s, c) == Some((a, b)) {
      assert s == s[..Index(s, c)] + [c] + s[Index(s, c) + 1..];
    }
  }

  lemma ScanPctIff(t: string, pct: string)
    ensures ScanPct(t) == Some(pct) <==> IsNumber(pct) && t == pct + "%"
  {
    if t != "" && t[|t| - 1] == '%' { assert t == t[..|t| - 1] + "%"; }
    if t == pct + "%" { assert t[..|t| - 1] == pct; }
  }

  /** The grammar is unambiguous, and the scan decides it. */
  lemma ScanIff(text: string, f: Fields)
    ensures Scan(text) == Some(f) <==> Matches(text, f)
  {
    var a, b, c, d := Cut(text, '*'), Cut(FromPosition(f), '@'), Cut(FromChapter(f), '#'), Cut(FromScroll(f), ':');
    CutIff(FromPosition(f), '@', f.position, FromChapter(f));
    CutIff(FromChapter(f), '#', f.chapter, FromScroll(f));
    CutIff(FromScroll(f), ':', f.scroll, FromPct(f));
    ScanPctIff(FromPct(f), f.pct);
    CutIff(text, '*', f.fileId, FromPosition(f));
    if Scan(text) == Some(f) { ScanMatches(text, f); }
  }

  lemma ScanMatches(text: string, f: Fields)
    requires Scan(text) == Some(f)
    ensures Matches(text, f)
  {
    var a := Cut(text, '*').value;
    var b := Cut(a.1, '@').value;
    var c := Cut(b.1, '#').value;
    var d := Cut(c.1, ':').value;
    ScanPctIff(d.1, f.pct);
    CutIff(c.1, ':', d.0, d.1);
    CutIff(b.1, '#', c.0, c.1);
    CutIff(a.1, '@', b.0, b.1);
    CutIff(text, '*', a.0, a.1);
  }

  /** Position of the last c, -1 if there is none. */
  function LastIndex(s: string, c: char): (i: int)
    ensures -1 <= i < |s| && (i >= 0 ==> s[i] == c)
  {
    if s == "" then -1 else if s[|s| - 1] == c then |s| - 1 else LastIndex(s[..|s| - 1], c)
  }

  lemma {:induction false} LastIndexIs(a: string, c: char, b: string)
    requires c !in b
    ensures LastIndex(a + [c] + b, c) == |a|
    decreases |b|
  {
    var s := a + [c] + b;
    if b == "" {
    } else {
      LastIndexIs(a, c, b[..|b| - 1]);
      assert s[..|s| - 1] == a + [c] + b[..|b| - 1];
      assert s[|s| - 1] == b[|b| - 1];
    }
  }

  lemma NumberChars(s: string)
    requires IsNumber(s)
    ensures ':' !in s
  {
    var p := Index(s, '.');
    forall i | 0 <= i < |s| ensures s[i] != ':' {
      if i < p { assert IsDigit(s[..p][i]); } else if i > p { assert IsDigit(s[p + 1..][i - p - 1]); }
    }
  }

  /** Everything before the percentage. */
  function Prefix(f: Fields): string {
    f.fileId + "*" + f.position + "@" + f.chapter + "#" + f.scroll
  }

  lemma TextPrefix(f: Fields)
    ensures Text(f) == Prefix(f) + ":" + f.pct + "%"
  {}

  /** The last colon of a matching text is always the percentage's. */
  lemma LastColonIsDelimiter(text: string, f: Fields)
    requires Matches(text, f)
    ensures LastIndex(text, ':') == |Prefix(f)| && text[..LastIndex(text, ':')] == Prefix(f)
  {
    NumberChars(f.pct);
    TextPrefix(f);
    assert text == Prefix(f) + [':'] + (f.pct + "%");
    LastIndexIs(Prefix(f), ':', f.pct + "%");
  }

  // ---------------------------------------------------------------- parser

  predicate IsSpace(c: char) {
    '\t' <= c <= '\r' || c == ' ' || c == '\U{85}' || c == '\U{A0}' || c == '\U{1680}'
    || '\U{2000}' <= c <= '\U{200A}' || c == '\U{2028}' || c == '\U{2029}' || c == '\U{202F}'
    || c == '\U{205F}' || c == '\U{3000}'
  }

  function TrimSpace(s: string): (r: string)
    ensures r != "" ==> !IsSpace(r[0]) && !IsSpace(r[|r| - 1])
  {
    if s == "" then ""
    else if IsSpace(s[0]) then TrimSpace(s[1..])
    else if IsSpace(s[|s| - 1]) then TrimSpace(s[..|s| - 1])
    else s
  }

  datatype FileFormat = V1Plain | UnknownFormat

  datatype Result = Result(format: FileFormat, bookKey: string, percent: Decimal, position: string, lastRead: int)

  /** Suffix test, ignoring ASCII case. */
  predicate HasPoSuffix(name: string) {
    var n := |name|;
    n >= 3 && name[n - 3] == '.' && (name[n - 2] == 'p' || name[n - 2] == 'P') && (name[n - 1] == 'o' || name[n - 1] == 'O')
  }

  function BookKey(filename: string, fileId: string): string
    requires HasPoSuffix(filename)
  {
    var base := filename[..|filename| - 3];
    if TrimSpace(fileId) == "" then base else base + "#" + TrimSpace(fileId)
  }

  const ONE := Decimal(1, 0)

  /** A hundredth, at most 1. */
  function Fraction(pctVal: Decimal): Decimal {
    var pct := Decimal(pctVal.m, pctVal.k + 2);
    if Value(pct) > 1.0 then ONE else pct
  }

  /** None is the source's ErrUnknownFormat. */
  function Parse(filename: string, body: string, receivedAt: int): Option<Result> {
    if !HasPoSuffix(filename) then None else
    var text := TrimSpace(body);
    if text == "" || Scan(text).None? then None else
    var f := Scan(text).value;
    ScanIff(text, f);
    var pctVal := ParseNumber(f.pct);
    if Value(pctVal) < 0.0 || Value(pctVal) > 100.5 then None else
    Some(Result(V1Plain, BookKey(filename, f.fileId), Fraction(pctVal), text, receivedAt))
  }

  function ToAdapterEvent(r: Result): AdapterEvent {
    AdapterEvent(NO_EVIDENCE.(moonKey := r.bookKey), Moon, Some(r.lastRead), Some(Value(r.percent)), None, None,
                 Some(r.position), MoonPosition,
                 if Value(r.percent) >= 1.0 then Finished else if Value(r.percent) > 0.0 then Reading else Unknown)
  }

  /** The pipeline accepts every parsed file's event, and normalisation leaves it as it is. */
  lemma ParsedEventAccepted(filename: string, body: string, at: int)
    requires Parse(filename, body, at).Some?
    ensures var ev := ToAdapterEvent(Parse(filename, body, at).value);
            Pipeline.ValidEvent(ev) && Pipeline.NormalizeEvent(ev) == ev
  {
    var f := ParseGivesParsed(filename, body, at);
    FractionRange(ParseNumber(f.pct));
  }

  // ---------------------------------------------------------------- writer

  /** None is an error: foreign format, percentage out of range, no colon. */
  function SerializeV1Plain(r: Result, newPercent: Decimal): Option<string> {
    if r.format != V1Plain || Value(newPercent) < 0.0 || Value(newPercent) > 1.0001 then None else
    var p := if Value(newPercent) > 1.0 then ONE else newPercent;
    ValueSign(newPercent);
    var colon := LastIndex(r.position, ':');
    if colon < 0 then None else
    Some(r.position[..colon] + ":" + Format(Decimal(p.m * 100, p.k)) + "%")
  }

  // ---------------------------------------------------------------- laws

  /** Min(p, 1), the percentage a write stores. */
  function Stored(p: Decimal): real {
    if Value(p) > 1.0 then 1.0 else Value(p)
  }

  /** r is what parsing some `.po` file with this name gave. */
  ghost predicate Parsed(filename: string, r: Result, f: Fields) {
    && HasPoSuffix(filename) && Matches(r.position, f) && r.format == V1Plain
    && TrimSpace(r.position) == r.position && r.bookKey == BookKey(filename, f.fileId)
    && r.percent == Fraction(ParseNumber(f.pct))
  }

  lemma FractionRange(pctVal: Decimal)
    requires pctVal.m >= 0
    ensures 0.0 <= Value(Fraction(pctVal)) <= 1.0
    ensures Value(Fraction(pctVal)) == if Value(pctVal) > 100.0 then 1.0 else Value(pctVal) / 100.0
    ensures Fraction(pctVal) == if Value(pctVal) > 100.0 then ONE else Decimal(pctVal.m, pctVal.k + 2)
    ensures Value(pctVal) >= 0.0
  {
    TimesHundred(pctVal);
    ValueSign(pctVal);
    ValueSign(Decimal(pctVal.m, pctVal.k + 2));
    OneIsOne();
  }

  lemma ParseGivesParsed(filename: string, body: string, at: int) returns (f: Fields)
    requires Parse(filename, body, at).Some?
    ensures Parsed(filename, Parse(filename, body, at).value, f)
  {
    var text := TrimSpace(body);
    f := Scan(text).value;
    ScanIff(text, f);
    TrimTwice(text);
  }

  lemma TrimTwice(text: string)
    requires text != "" ==> !IsSpace(text[0]) && !IsSpace(text[|text| - 1])
    ensures TrimSpace(text) == text
  {}

  lemma OneIsOne()
    ensures Value(ONE) == 1.0
  {}

  /** The percentage a write of p prints. */
  function Printed(p: Decimal): string
    requires Value(p) >= 0.0
  {
    ValueSign(p);
    var q := if Value(p) > 1.0 then ONE else p;
    Format(Decimal(q.m * 100, q.k))
  }

  lemma PrintedValue(p: Decimal)
    requires 0.0 <= Value(p)
    ensures IsNumber(Printed(p)) && Value(ParseNumber(Printed(p))) == 100.0 * Stored(p)
  {
    OneIsOne();
    ValueSign(p);
    var q := if Value(p) > 1.0 then ONE else p;
    FormatValue(Decimal(q.m * 100, q.k));
    TimesHundred(q);
  }

  /** The text a write produces. */
  lemma Written(filename: string, r: Result, f: Fields, p: Decimal)
    requires Parsed(filename, r, f) && 0.0 <= Value(p) <= 1.0001
    ensures var g := f.(pct := Printed(p));
            IsNumber(g.pct) && Matches(Text(g), g) && SerializeV1Plain(r, p) == Some(Text(g))
  {
    LastColonIsDelimiter(r.position, f);
    TextPrefix(f.(pct := Printed(p)));
  }

  /** A text that matches, begins like a trimmed one and is in range parses to its fields. */
  lemma ParseMatching(filename: string, g: Fields, at: int)
    requires HasPoSuffix(filename) && Matches(Text(g), g) && !IsSpace(Text(g)[0])
    requires 0.0 <= Value(ParseNumber(g.pct)) <= 100.5
    ensures var r := Parse(filename, Text(g), at);
            r.Some? && Parsed(filename, r.value, g) && r.value.position == Text(g)
  {
    TextPrefix(g);
    assert Text(g)[|Text(g)| - 1] == '%';
    TrimTwice(Text(g));
    ScanIff(Text(g), g);
  }

  lemma WriteThenParse(filename: string, r: Result, f: Fields, p: Decimal, at: int)
    requires Parsed(filename, r, f) && 0.0 <= Value(p) <= 1.0001
    ensures var g := f.(pct := Printed(p));
            && SerializeV1Plain(r, p) == Some(Text(g)) && IsNumber(g.pct) && Matches(Text(g), g)
            && var s := Parse(filename, Text(g), at);
               s.Some? && Parsed(filename, s.value, g) && s.value.position == Text(g) && Value(s.value.percent) == Stored(p)
  {
    var g := f.(pct := Printed(p));
    Written(filename, r, f, p);
    PrintedValue(p);
    TextPrefix(f);
    TextPrefix(g);
    assert Text(g)[0] == Prefix(f)[0] == r.position[0];
    ParseMatching(filename, g, at);
    FractionRange(ParseNumber(g.pct));
  }

  /** Write, then read: for every parseable body and every percentage in range
      the percentage comes back, clamped to 1, with the same book key and the
      same text up to the last colon. */
  lemma PutGet(filename: string, body: string, p: Decimal, at: int, later: int)
    requires Parse(filename, body, at).Some? && 0.0 <= Value(p) <= 1.0001
    ensures var r := Parse(filename, body, at).value;
            && SerializeV1Plain(r, p).Some?
            && var out := SerializeV1Plain(r, p).value;
               && Parse(filename, out, later).Some?
               && var s := Parse(filename, out, later).value;
                  && Value(s.percent) == Stored(p) && s.bookKey == r.bookKey && s.position == out
                  && LastIndex(out, ':') == LastIndex(r.position, ':') >= 0
                  && out[..LastIndex(out, ':')] == r.position[..LastIndex(r.position, ':')]
  {
    var r := Parse(filename, body, at).value;
    var f := ParseGivesParsed(filename, body, at);
    WriteThenParse(filename, r, f, p, later);
    LastColonIsDelimiter(r.position, f);
    LastColonIsDelimiter(SerializeV1Plain(r, p).value, f.(pct := Printed(p)));
  }

  /** The second of two writes wins, byte for byte. */
  lemma PutPut(filename: string, body: string, p: Decimal, q: Decimal, at: int, later: int)
    requires Parse(filename, body, at).Some? && 0.0 <= Value(p) <= 1.0001
    ensures var r := Parse(filename, body, at).value;
            SerializeV1Plain(r, p).Some? && Parse(filename, SerializeV1Plain(r, p).value, later).Some?
            && SerializeV1Plain(Parse(filename, SerializeV1Plain(r, p).value, later).value, q) == SerializeV1Plain(r, q)
  {
    PutGet(filename, body, p, at, later);
  }

  /** Writing back the parsed percentage keeps its value, and reproduces the
      text itself exactly when the percentage was written without superfluous
      zeros and was at most 100. */
  lemma GetPut(filename: string, body: string, at: int, later: int)
    requires Parse(filename, body, at).Some?
    ensures var r := Parse(filename, body, at).value;
            var out := SerializeV1Plain(r, r.percent);
            && out.Some? && Parse(filename, out.value, later).Some?
            && Value(Parse(filename, out.value, later).value.percent) == Value(r.percent)
            && Scan(r.position).Some? && IsNumber(Scan(r.position).value.pct)
            && var pct := Scan(r.position).value.pct;
               (out.value == r.position <==> CanonicalNumber(pct) && Value(ParseNumber(pct)) <= 100.0)
  {
    var r := Parse(filename, body, at).value;
    var f := ParseGivesParsed(filename, body, at);
    FractionRange(ParseNumber(f.pct));
    WriteThenParse(filename, r, f, r.percent, later);
    ScanIff(r.position, f);
    TextPrefix(f);
    TextPrefix(f.(pct := Printed(r.percent)));
    SuffixEqual(Prefix(f) + ":", Printed(r.percent), f.pct, "%");
    PrintedAgainIff(f.pct);
  }

  /** Printing a parsed percentage gives the numeral back exactly when it is canonical and at most 100. */
  lemma PrintedAgainIff(pct: string)
    requires IsNumber(pct)
    ensures Value(Fraction(ParseNumber(pct))) >= 0.0
    ensures Printed(Fraction(ParseNumber(pct))) == pct <==> CanonicalNumber(pct) && Value(ParseNumber(pct)) <= 100.0
  {
    var d := ParseNumber(pct);
    FractionRange(d);
    PrintedValue(Fraction(d));
    FormatParseIff(pct);
    TimesHundred(d);
    assert Value(d) <= 100.0 ==> Printed(Fraction(d)) == Format(Decimal(d.m * 100, d.k + 2));
    SameStripSameFormat(Decimal(d.m * 100, d.k + 2), d);
  }

  lemma SuffixEqual(a: string, x: string, y: string, z: string)
    ensures a + x + z == a + y + z <==> x == y
  {
    var s, t := a + x + z, a + y + z;
    assert s[|a|..|s| - |z|] == x && t[|a|..|t| - |z|] == y;
  }

  lemma SameStripSameFormat(d: Decimal, e: Decimal)
    requires d.m >= 0 && e.m >= 0 && Strip(d) == Strip(e)
    ensures Format(d) == Format(e)
  {}

  // ---------------------------------------------------------------- what a file says

  /** Trimming drops white space at both ends and nothing else. */
  lemma {:induction false} TrimExact(s: string) returns (before: string, after: string)
    ensures s == before + TrimSpace(s) + after
    ensures forall c :: c in before || c in after ==> IsSpace(c)
    decreases |s|
  {
    before, after := "", "";
    if s == "" {
    } else if IsSpace(s[0]) {
      before, after := TrimExact(s[1..]);
      before := [s[0]] + before;
      assert s == [s[0]] + s[1..];
    } else if IsSpace(s[|s| - 1]) {
      before, after := TrimExact(s[..|s| - 1]);
      after := after + [s[|s| - 1]];
      assert s == s[..|s| - 1] + [s[|s| - 1]];
    }
  }

  /** Exactly the files with the suffix, whose trimmed text has the grammar's
      form with a percentage of at most 100.5, are read. */
  lemma ParseIff(filename: string, body: string, at: int)
    ensures Parse(filename, body, at).Some? <==>
            && |filename| >= 3 && filename[|filename| - 3..] in {".po", ".Po", ".pO", ".PO"}
            && exists f :: Matches(TrimSpace(body), f) && Value(ParseNumber(f.pct)) <= 100.5
  {
    var text := TrimSpace(body);
    SuffixSpelled(filename);
    if Scan(text).Some? {
      var f := Scan(text).value;
      ScanIff(text, f);
      ValueSign(ParseNumber(f.pct));
    }
    forall f | Matches(text, f) ensures Scan(text) == Some(f) { ScanIff(text, f); }
    assert text == "" ==> forall f :: !Matches(text, f);
  }

  lemma SuffixSpelled(name: string)
    ensures HasPoSuffix(name) <==> |name| >= 3 && name[|name| - 3..] in {".po", ".Po", ".pO", ".PO"}
  {
    if |name| >= 3 {
      var s := name[|name| - 3..];
      assert s == [s[0], s[1], s[2]];
      assert ".po" == ['.', 'p', 'o'] && ".Po" == ['.', 'P', 'o'] && ".pO" == ['.', 'p', 'O'] && ".PO" == ['.', 'P', 'O'];
    }
  }

  /** What is read from a file with these fields: the percentage as a fraction
      of at most 1, the name without its suffix and the trimmed file id as the
      book's key, the whole trimmed text as the position. */
  lemma ParsedExact(filename: string, body: string, at: int, f: Fields)
    requires Parse(filename, body, at).Some? && Matches(TrimSpace(body), f)
    ensures var r := Parse(filename, body, at).value;
            var pct := Value(ParseNumber(f.pct));
            var base, id := filename[..|filename| - 3], TrimSpace(f.fileId);
            && r.format == V1Plain && r.position == TrimSpace(body) && r.lastRead == at
            && Value(r.percent) == (if pct > 100.0 then 1.0 else pct / 100.0)
            && r.bookKey == (if id == "" then base else base + "#" + id)
  {
    ScanIff(TrimSpace(body), f);
    FractionRange(ParseNumber(f.pct));
  }

  /** The event of a result: a Moon+ event known by its key alone, at the time
      the file was received, finished from 1 on, and under way above 0. */
  lemma EventExact(r: Result)
    ensures var ev := ToAdapterEvent(r);
            var p := Value(r.percent);
            && ev.source == Moon && ev.deviceTS == Some(r.lastRead)
            && ev.evidence.moonKey == r.bookKey && ev.evidence.koreaderDocHash == ""
            && ev.evidence.title == "" && ev.evidence.authorSort == "" && (forall c: Column :: Key(ev.evidence, InColumn(c)) == "")
            && ev.percent == Some(p) && ev.page == None && ev.totalPages == None
            && ev.rawLocator == Some(r.position) && ev.locatorType == MoonPosition
            && ev.readStatus == (if p >= 1.0 then Finished else if p > 0.0 then Reading else Unknown)
  {}

  /** A write is refused exactly for a foreign format, a percentage out of
      range, or a position without a colon. */
  lemma WriteFailsIff(r: Result, p: Decimal)
    ensures SerializeV1Plain(r, p) == None <==>
            r.format != V1Plain || Value(p) < 0.0 || Value(p) > 1.0001 || ':' !in r.position
  {
    LastIndexFinds(r.position, ':');
  }

  lemma {:induction false} LastIndexFinds(s: string, c: char)
    ensures LastIndex(s, c) >= 0 <==> c in s
  {
    if s == "" {
    } else {
      LastIndexFinds(s[..|s| - 1], c);
      assert s == s[..|s| - 1] + [s[|s| - 1]];
    }
  }
}
