/** Domain types shared by the modules. */
module Model {

  datatype Option<+T> = None | Some(value: T)

  newtype Byte = x: int | 0 <= x < 256

  /** Times and durations are in nanoseconds. */
  const SECOND := 1_000_000_000

  // texts that none of the named constants below stands for
  type OtherSourceText = s: string |
    s !in {"", "calibre", "goodreads_bridge", "koreader", "moon", "kindle_via_goodreads"} witness "x"
  type OtherStatusText = s: string |
    s !in {"", "not_started", "reading", "finished", "abandoned", "unknown"} witness "x"
  type OtherLocationText = s: string |
    s !in {"", "percent", "page", "koreader_xpointer", "moon_position", "epub_cfi", "raw"} witness "x"

  /** Which adapter produced an event.  `NoSource` is the empty string. */
  datatype Source = NoSource | Calibre | GoodreadsBridge | KOReader | Moon | KindleViaGoodreads | OtherSource(name: OtherSourceText)

  /** `NoStatus` is the empty string, normalised to `Unknown`. */
  datatype ReadStatus = NoStatus | NotStarted | Reading | Finished | Abandoned | Unknown | OtherStatus(name: OtherStatusText)

  /** `NoLocation` is the empty string, normalised to `Raw`. */
  datatype LocationType =
    NoLocation | Percent | Page | KOReaderXPtr | MoonPosition | EpubCFI | Raw | OtherLocation(name: OtherLocationText)

  /** Identifiers supplied by an adapter; the empty string means "not provided". */
  datatype Evidence = Evidence(
    fileHash: string, epubId: string, calibreId: string, goodreadsId: string,
    isbn13: string, isbn10: string, asin: string,
    koreaderDocHash: string, moonKey: string,
    title: string, authorSort: string)

  const NO_EVIDENCE := Evidence("", "", "", "", "", "", "", "", "", "", "")

  /** Identifier columns of the books table. */
  datatype Column = FileHash | EpubId | CalibreId | GoodreadsId | Isbn13 | Isbn10 | Asin

  /** A lookup signal: an identifier column or an alias namespace. */
  datatype Signal = InColumn(column: Column) | KOReaderAlias | MoonAlias

  function Key(ev: Evidence, signal: Signal): string {
    match signal
    case InColumn(FileHash) => ev.fileHash
    case InColumn(EpubId) => ev.epubId
    case InColumn(CalibreId) => ev.calibreId
    case InColumn(GoodreadsId) => ev.goodreadsId
    case InColumn(Isbn13) => ev.isbn13
    case InColumn(Isbn10) => ev.isbn10
    case InColumn(Asin) => ev.asin
    case KOReaderAlias => ev.koreaderDocHash
    case MoonAlias => ev.moonKey
  }

  /** Raw input submitted by an adapter; times are nanoseconds. */
  datatype AdapterEvent = AdapterEvent(
    evidence: Evidence, source: Source, deviceTS: Option<int>,
    percent: Option<real>, page: Option<int>, totalPages: Option<int>,
    rawLocator: Option<string>, locatorType: LocationType, readStatus: ReadStatus)

  /** A number greater than all of these. */
  lemma {:induction false} FreshKey(keys: set<int>) returns (c: int)
    ensures forall k :: k in keys ==> k < c
    decreases keys
  {
    if forall k :: k !in keys {
      c := 0;
    } else {
      var k :| k in keys;
      var d := FreshKey(keys - {k});
      c := if k < d then d else k + 1;
      assert forall x :: x in keys ==> x == k || x in keys - {k};
    }
  }
}
