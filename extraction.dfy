/** `extract_text_from_file`: derive the extension of an uploaded file's
    name, pick the reader for it, and fail soft. The readers themselves
    (UTF-8 decoding, PDF page extraction, CSV and Excel parsing, table
    rendering) are library code; here they are parameters that may raise. */
module Extraction {
  import opened Outcomes
  import opened PyStr

  type Byte = b: int | 0 <= b < 256
  type Bytes = seq<Byte>

  /** An uploaded file: its name as the browser sent it, and its content. */
  datatype Upload = Upload(name: string, content: Bytes)

  /** A page of an opened PDF document. */
  datatype Page = Page(data: Bytes)

  /** A parsed table (a pandas data frame): column names and rows. */
  datatype Table = Table(columns: seq<string>, rows: seq<seq<string>>)

  /** The library calls behind each format, each of which may raise. */
  datatype Readers = Readers(
    decodeUtf8: Bytes -> Outcome<string>,      // bytes.decode("utf-8")
    openPdf: Bytes -> Outcome<seq<Page>>,      // fitz.open(stream=..., filetype="pdf")
    pageText: Page -> Outcome<string>,         // page.get_text()
    readCsv: Bytes -> Outcome<Table>,          // pd.read_csv(...)
    readExcel: Bytes -> Outcome<Table>,        // pd.read_excel(...)
    renderTable: Table -> Outcome<string>      // df.to_string(index=False)
  )

  datatype Format = Txt | Pdf | Csv | Xlsx

  const Unsupported: string := "Unsupported file format."
  const ReadErrorLead: string := "Error reading file: "

  /** `name.split(".")[-1].lower()`. */
  function Extension(name: string): (ext: string)
    ensures '.' !in ext
  {
    var piece := Last(Split(name, '.'));
    assert piece in Split(name, '.');
    var ext := Lower(piece);
    assert forall k :: 0 <= k < |ext| ==> ext[k] != '.';
    ext
  }

  /** The extension is the lower-cased text after the last `.` of the name,
      or the whole lower-cased name when it holds no `.`. */
  lemma ExtensionIsAfterLastDot(name: string)
    ensures Extension(name) == Lower(AfterLast(name, '.'))
    ensures '.' !in name ==> Extension(name) == Lower(name)
  {
    LastPieceIsAfterLast(name, '.');
  }

  /** The four extensions with a reader, compared as written in the
      `if`/`elif` chain. */
  function FormatOf(ext: string): (f: Option<Format>)
    ensures f == Some(Txt) <==> ext == "txt"
    ensures f == Some(Pdf) <==> ext == "pdf"
    ensures f == Some(Csv) <==> ext == "csv"
    ensures f == Some(Xlsx) <==> ext == "xlsx"
    ensures f.None? <==> ext !in {"txt", "pdf", "csv", "xlsx"}
  {
    if ext == "txt" then Some(Txt)
    else if ext == "pdf" then Some(Pdf)
    else if ext == "csv" then Some(Csv)
    else if ext == "xlsx" then Some(Xlsx)
    else None
  }

  /** `"".join(page.get_text() for page in doc)`: the page texts in page
      order; the first page whose text cannot be read raises. */
  function JoinPageTexts(pages: seq<Page>, pageText: Page -> Outcome<string>): (r: Outcome<string>)
    ensures r.Ok? ==> forall k :: 0 <= k < |pages| ==> pageText(pages[k]).Ok?
    ensures pages != [] && pageText(pages[0]).Raised? ==> r == pageText(pages[0])
  {
    if pages == [] then Ok([])
    else
      match pageText(pages[0])
      case Raised(d) => Raised(d)
      case Ok(t) =>
        var rest := JoinPageTexts(pages[1..], pageText);
        if rest.Raised? then Raised(rest.detail) else Ok(t + rest.value)
  }

  /** The PDF text can be read exactly when every page's text can. */
  lemma {:induction false} AllPagesReadable(pages: seq<Page>, pageText: Page -> Outcome<string>)
    ensures JoinPageTexts(pages, pageText).Ok? <==> forall k :: 0 <= k < |pages| ==> pageText(pages[k]).Ok?
    decreases |pages|
  {
    if pages != [] {
      AllPagesReadable(pages[1..], pageText);
      assert forall k :: 1 <= k < |pages| ==> pages[k] == pages[1..][k - 1];
    }
  }

  /** A PDF whose text cannot be read raises the exception of its first
      unreadable page. */
  lemma {:induction false} FirstUnreadablePage(pages: seq<Page>, pageText: Page -> Outcome<string>)
    requires JoinPageTexts(pages, pageText).Raised?
    ensures exists k :: 0 <= k < |pages| && pageText(pages[k]) == Raised(JoinPageTexts(pages, pageText).detail) &&
                        forall m :: 0 <= m < k ==> pageText(pages[m]).Ok?
    decreases |pages|
  {
    var d := JoinPageTexts(pages, pageText).detail;
    if pageText(pages[0]).Raised? {
      assert pageText(pages[0]) == Raised(d);
    } else {
      var tail := pages[1..];
      FirstUnreadablePage(tail, pageText);
      var k :| 0 <= k < |tail| && pageText(tail[k]) == Raised(d) &&
               forall m :: 0 <= m < k ==> pageText(tail[m]).Ok?;
      assert pageText(pages[k + 1]) == Raised(d);
      assert forall m :: 1 <= m < k + 1 ==> pages[m] == tail[m - 1];
    }
  }

  /** What the reader of one format returns for the file's content. */
  function Read(f: Format, content: Bytes, rd: Readers): (r: Outcome<string>)
    ensures f == Txt ==> r == rd.decodeUtf8(content)
    ensures f == Pdf ==> (rd.openPdf(content).Raised? ==> r == Raised(rd.openPdf(content).detail)) &&
                         (rd.openPdf(content).Ok? ==> r == JoinPageTexts(rd.openPdf(content).value, rd.pageText))
    ensures f == Csv ==> (rd.readCsv(content).Raised? ==> r == Raised(rd.readCsv(content).detail)) &&
                         (rd.readCsv(content).Ok? ==> r == rd.renderTable(rd.readCsv(content).value))
    ensures f == Xlsx ==> (rd.readExcel(content).Raised? ==> r == Raised(rd.readExcel(content).detail)) &&
                          (rd.readExcel(content).Ok? ==> r == rd.renderTable(rd.readExcel(content).value))
  {
    match f
    case Txt => rd.decodeUtf8(content)
    case Pdf => Then(rd.openPdf(content), pages => JoinPageTexts(pages, rd.pageText))
    case Csv => Then(rd.readCsv(content), rd.renderTable)
    case Xlsx => Then(rd.readExcel(content), rd.renderTable)
  }

  /** The text a reader's outcome becomes: its text, or the error text. */
  function Softened(out: Outcome<string>): string
  {
    if out.Ok? then out.value else ReadErrorLead + out.detail
  }

  /** `extract_text_from_file(uploaded_file)`. It never raises: a reader's
      exception becomes the text `"Error reading file: <detail>"`, and an
      unknown extension the text `"Unsupported file format."`. */
  function ExtractText(u: Upload, rd: Readers): (text: string)
    ensures FormatOf(Extension(u.name)).None? ==> text == Unsupported
    ensures FormatOf(Extension(u.name)).Some? ==> text == Softened(Read(FormatOf(Extension(u.name)).value, u.content, rd))
  {
    match FormatOf(Extension(u.name))
    case None => Unsupported
    case Some(f) => Softened(Read(f, u.content, rd))
  }

  // ---------- properties ----------

  /** Two sets of readers that agree on the calls one format makes for
      this content. */
  ghost predicate AgreeOn(f: Format, content: Bytes, rd1: Readers, rd2: Readers)
  {
    match f
    case Txt => rd1.decodeUtf8(content) == rd2.decodeUtf8(content)
    case Pdf => rd1.openPdf(content) == rd2.openPdf(content) &&
                forall p :: rd1.pageText(p) == rd2.pageText(p)
    case Csv => rd1.readCsv(content) == rd2.readCsv(content) &&
                forall t :: rd1.renderTable(t) == rd2.renderTable(t)
    case Xlsx => rd1.readExcel(content) == rd2.readExcel(content) &&
                 forall t :: rd1.renderTable(t) == rd2.renderTable(t)
  }

  /** An unrecognised extension yields exactly `"Unsupported file format."`
      whatever the readers would do: no reader is consulted. */
  lemma UnsupportedReadsNothing(u: Upload, rd1: Readers, rd2: Readers)
    requires Extension(u.name) !in {"txt", "pdf", "csv", "xlsx"}
    ensures ExtractText(u, rd1) == Unsupported
    ensures ExtractText(u, rd1) == ExtractText(u, rd2)
  {
  }

  /** A recognised extension consults only the reader of its own format:
      readers that agree on it give the same text. */
  lemma {:induction false} OnlyItsReader(u: Upload, rd1: Readers, rd2: Readers)
    requires FormatOf(Extension(u.name)).Some?
    requires AgreeOn(FormatOf(Extension(u.name)).value, u.content, rd1, rd2)
    ensures ExtractText(u, rd1) == ExtractText(u, rd2)
  {
    var f := FormatOf(Extension(u.name)).value;
    if f == Pdf && rd1.openPdf(u.content).Ok? {
      SamePageTexts(rd1.openPdf(u.content).value, rd1.pageText, rd2.pageText);
    }
  }

  lemma {:induction false} SamePageTexts(pages: seq<Page>, g1: Page -> Outcome<string>, g2: Page -> Outcome<string>)
    requires forall p :: g1(p) == g2(p)
    ensures JoinPageTexts(pages, g1) == JoinPageTexts(pages, g2)
    decreases |pages|
  {
    if pages != [] {
      SamePageTexts(pages[1..], g1, g2);
    }
  }

  /** For a recognised extension whose reader raises, the text is
      `"Error reading file: "` followed by the exception's text. */
  lemma ReaderFailureIsReported(u: Upload, rd: Readers)
    requires FormatOf(Extension(u.name)).Some?
    requires Read(FormatOf(Extension(u.name)).value, u.content, rd).Raised?
    ensures ExtractText(u, rd) == ReadErrorLead + Read(FormatOf(Extension(u.name)).value, u.content, rd).detail
    ensures |ExtractText(u, rd)| >= |ReadErrorLead| && ExtractText(u, rd)[..|ReadErrorLead|] == ReadErrorLead
  {
  }

  /** Two joined runs of pages one after the other: the first run's
      exception, else the second's, else the two texts with nothing between
      them. */
  function Combine(x: Outcome<string>, y: Outcome<string>): Outcome<string>
  {
    if x.Raised? then x else if y.Raised? then y else Ok(x.value + y.value)
  }

  /** Joining two runs of pages is joining each and combining: the text of
      the first run followed by the text of the second, or the first
      exception in page order. */
  lemma {:induction false} JoinPageTextsAppend(a: seq<Page>, b: seq<Page>, pageText: Page -> Outcome<string>)
    ensures JoinPageTexts(a + b, pageText) == Combine(JoinPageTexts(a, pageText), JoinPageTexts(b, pageText))
    decreases |a|
  {
    var y := JoinPageTexts(b, pageText);
    if a == [] {
      assert a + b == b;
      assert y.Ok? ==> [] + y.value == y.value;
    } else {
      var ab := a + b;
      assert ab[0] == a[0];
      assert ab[1..] == a[1..] + b;
      if pageText(a[0]).Ok? {
        var t := pageText(a[0]).value;
        var x := JoinPageTexts(a[1..], pageText);
        JoinPageTextsAppend(a[1..], b, pageText);
        if x.Ok? && y.Ok? {
          assert t + (x.value + y.value) == (t + x.value) + y.value;
        }
      }
    }
  }

  /** Every page's text can be read. */
  predicate AllReadable(pages: seq<Page>, pageText: Page -> Outcome<string>)
  {
    forall k :: 0 <= k < |pages| ==> pageText(pages[k]).Ok?
  }

  /** The text of every page, in page order, when each can be read. */
  function PageTexts(pages: seq<Page>, pageText: Page -> Outcome<string>): (texts: seq<string>)
    requires AllReadable(pages, pageText)
    ensures |texts| == |pages|
    ensures forall k :: 0 <= k < |pages| ==> texts[k] == pageText(pages[k]).value
  {
    if pages == [] then []
    else [pageText(pages[0]).value] + PageTexts(pages[1..], pageText)
  }

  /** When every page can be read, the PDF text is the concatenation of the
      page texts in page order with no separator. */
  lemma {:induction false} PdfTextIsConcatenation(pages: seq<Page>, pageText: Page -> Outcome<string>)
    requires AllReadable(pages, pageText)
    ensures JoinPageTexts(pages, pageText) == Ok(Concat(PageTexts(pages, pageText)))
    decreases |pages|
  {
    if pages != [] {
      assert forall k :: 1 <= k < |pages| ==> pages[k] == pages[1..][k - 1];
      PdfTextIsConcatenation(pages[1..], pageText);
    }
  }

  // ---------- each extension and its reader ----------

  /** A recognised upload is its reader's outcome, softened. */
  lemma ExtractTextOf(u: Upload, rd: Readers, f: Format)
    requires FormatOf(Extension(u.name)) == Some(f)
    ensures ExtractText(u, rd) == Softened(Read(f, u.content, rd))
  {
  }

  /** A `.txt` upload is its content decoded as UTF-8. */
  lemma TxtUploadIsDecoded(u: Upload, rd: Readers)
    requires Extension(u.name) == "txt"
    ensures ExtractText(u, rd) == Softened(rd.decodeUtf8(u.content))
  {
  }

  /** A `.pdf` upload whose document opens and whose pages can all be read is
      the page texts concatenated in page order with no separator. */
  lemma PdfUploadIsPageTexts(u: Upload, rd: Readers, pages: seq<Page>)
    requires Extension(u.name) == "pdf"
    requires rd.openPdf(u.content) == Ok(pages)
    requires AllReadable(pages, rd.pageText)
    ensures ExtractText(u, rd) == Concat(PageTexts(pages, rd.pageText))
  {
    ExtractTextOf(u, rd, Pdf);
    PdfPagesJoined(u.content, rd, pages);
  }

  /** The PDF reader on a document that opens and whose pages can all be
      read. */
  lemma PdfPagesJoined(content: Bytes, rd: Readers, pages: seq<Page>)
    requires rd.openPdf(content) == Ok(pages)
    requires AllReadable(pages, rd.pageText)
    ensures Softened(Read(Pdf, content, rd)) == Concat(PageTexts(pages, rd.pageText))
  {
    PdfTextIsConcatenation(pages, rd.pageText);
  }

  /** A `.pdf` upload that does not open, or has a page that cannot be read,
      is the error text of the first failure. */
  lemma PdfUploadFailure(u: Upload, rd: Readers)
    requires Extension(u.name) == "pdf"
    ensures rd.openPdf(u.content).Raised? ==> ExtractText(u, rd) == ReadErrorLead + rd.openPdf(u.content).detail
    ensures rd.openPdf(u.content).Ok? ==>
      ExtractText(u, rd) == Softened(JoinPageTexts(rd.openPdf(u.content).value, rd.pageText))
  {
  }

  /** A `.csv` upload is its content parsed as CSV and rendered as a table,
      or the error text of whichever of the two raised. */
  lemma CsvUploadIsRendered(u: Upload, rd: Readers)
    requires Extension(u.name) == "csv"
    ensures rd.readCsv(u.content).Raised? ==> ExtractText(u, rd) == ReadErrorLead + rd.readCsv(u.content).detail
    ensures rd.readCsv(u.content).Ok? ==> ExtractText(u, rd) == Softened(rd.renderTable(rd.readCsv(u.content).value))
  {
  }

  /** An `.xlsx` upload is its content parsed as a workbook and rendered as a
      table, or the error text of whichever of the two raised. */
  lemma XlsxUploadIsRendered(u: Upload, rd: Readers)
    requires Extension(u.name) == "xlsx"
    ensures rd.readExcel(u.content).Raised? ==> ExtractText(u, rd) == ReadErrorLead + rd.readExcel(u.content).detail
    ensures rd.readExcel(u.content).Ok? ==> ExtractText(u, rd) == Softened(rd.renderTable(rd.readExcel(u.content).value))
  {
  }
}
