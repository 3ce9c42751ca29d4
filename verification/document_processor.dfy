/**
 * `DocumentProcessor`: turns plain text, PDF page texts and CSV rows into
 * source-tagged documents. The recursive character splitter is a library
 * this model does not open; it is a parameter, and only what the processor
 * adds around it is modelled.
 */
module DocumentProcessor {
  import opened Wrappers
  import opened PyStr
  import opened PyWords

  /** A LangChain document: the chunk text and its metadata. */
  datatype Document = Document(pageContent: string, metadata: map<string, string>)

  /** `doc.metadata.get('source')`. */
  function SourceOf(d: Document): (src: Option<string>)
    ensures src.Some? <==> "source" in d.metadata
    ensures src.Some? ==> src.value == d.metadata["source"]
  {
    if "source" in d.metadata then Some(d.metadata["source"]) else None
  }

  /** `Config.CHUNK_SIZE` and `Config.CHUNK_OVERLAP`. */
  const ChunkSize: nat := 1000
  const ChunkOverlap: nat := 200

  /** A recursive character text splitter: its configuration, and the splitting
      algorithm that cuts a text into chunks of at most `chunkSize` characters
      overlapping by `chunkOverlap`. */
  datatype TextSplitter = TextSplitter(
    chunkSize: nat,
    chunkOverlap: nat,
    algorithm: (string, nat, nat) -> seq<string>)
  {
    /** `split_text(text)`: the algorithm run with this splitter's configuration. */
    function Chunks(text: string): seq<string> {
      algorithm(text, chunkSize, chunkOverlap)
    }
  }

  /** The splitter `DocumentProcessor()` constructs around the library's algorithm. */
  function DefaultSplitter(algorithm: (string, nat, nat) -> seq<string>): (splitter: TextSplitter)
    ensures forall text :: splitter.Chunks(text) == algorithm(text, 1000, 200)
  {
    TextSplitter(ChunkSize, ChunkOverlap, algorithm)
  }

  /** The chunk texts of a list of documents, in order. */
  function Contents(docs: seq<Document>): (chunks: seq<string>)
    ensures |chunks| == |docs|
    ensures forall i :: 0 <= i < |docs| ==> chunks[i] == docs[i].pageContent
  {
    seq(|docs|, i requires 0 <= i < |docs| => docs[i].pageContent)
  }

  /** Every document carries exactly the metadata `{"source": source}`. */
  predicate AllTagged(docs: seq<Document>, source: string) {
    forall i :: 0 <= i < |docs| ==> docs[i].metadata == map["source" := source]
  }

  /** `_split_text`: nothing for blank text, otherwise one document per chunk
      the splitter returns, in the splitter's order, each tagged with `source`. */
  function SplitText(splitter: TextSplitter, text: string, source: string): (docs: seq<Document>)
    ensures IsBlank(text) ==> docs == []
    ensures !IsBlank(text) ==> Contents(docs) == splitter.Chunks(text)
    ensures AllTagged(docs, source)
  {
    if Strip(text) == [] then []
    else
      var chunks := splitter.Chunks(text);
      seq(|chunks|, i requires 0 <= i < |chunks| => Document(chunks[i], map["source" := source]))
  }

  /** Blank text never reaches the splitter: any two splitters give the same (empty) result. */
  lemma BlankTextIgnoresSplitter(s1: TextSplitter, s2: TextSplitter, text: string, source: string)
    requires IsBlank(text)
    ensures SplitText(s1, text, source) == SplitText(s2, text, source) == []
  {
  }

  /** Every document `SplitText` produces reports `source` as its source. */
  lemma SplitTextSource(splitter: TextSplitter, text: string, source: string)
    ensures forall d :: d in SplitText(splitter, text, source) ==> SourceOf(d) == Some(source)
  {
    var docs := SplitText(splitter, text, source);
    forall d | d in docs
      ensures SourceOf(d) == Some(source)
    {
      var i :| 0 <= i < |docs| && docs[i] == d;
    }
  }

  // ---------------------------------------------------------------------------
  // process_text
  // ---------------------------------------------------------------------------

  /** `process_text(text, source="web")`. */
  function ProcessText(splitter: TextSplitter, text: string, source: string := "web"): (docs: seq<Document>)
    ensures IsBlank(text) ==> docs == []
    ensures !IsBlank(text) ==> Contents(docs) == splitter.Chunks(text)
    ensures AllTagged(docs, source)
  {
    SplitText(splitter, text, source)
  }

  /** Without an explicit source, text is tagged as coming from the web. */
  lemma ProcessTextDefaultsToWeb(splitter: TextSplitter, text: string)
    ensures forall d :: d in ProcessText(splitter, text) ==> SourceOf(d) == Some("web")
  {
    SplitTextSource(splitter, text, "web");
  }

  /** The processor as constructed: with the configured splitter, non-blank
      text becomes one document per chunk of size 1000 and overlap 200, in
      order, each tagged with its source; blank text becomes none. */
  lemma DefaultProcessText(algorithm: (string, nat, nat) -> seq<string>, text: string, source: string)
    ensures var docs := ProcessText(DefaultSplitter(algorithm), text, source);
      && (IsBlank(text) ==> docs == [])
      && (!IsBlank(text) ==> |docs| == |algorithm(text, 1000, 200)|)
      && (!IsBlank(text) ==> forall i :: 0 <= i < |docs| ==>
            docs[i] == Document(algorithm(text, 1000, 200)[i], map["source" := source]))
  {
  }

  // ---------------------------------------------------------------------------
  // File sources
  // ---------------------------------------------------------------------------

  /** `os.path.basename` on a POSIX path: what follows the last '/'. */
  function Basename(path: string): (name: string)
    ensures |name| <= |path|
    ensures name == path[|path| - |name|..]
    ensures forall i :: 0 <= i < |name| ==> name[i] != '/'
    ensures |name| < |path| ==> path[|path| - |name| - 1] == '/'
  {
    if path == [] || path[|path| - 1] == '/' then []
    else
      var name := Basename(path[..|path| - 1]);
      SuffixExtend(path, |name|);
      name + [path[|path| - 1]]
  }

  lemma SuffixExtend(path: string, n: nat)
    requires n < |path|
    ensures path[..|path| - 1][|path| - 1 - n..] + [path[|path| - 1]] == path[|path| - 1 - n..]
  {
  }

  /** A name without a separator is its own basename, so taking it twice changes nothing. */
  lemma {:induction false} BasenameOfName(name: string)
    requires forall i :: 0 <= i < |name| ==> name[i] != '/'
    ensures Basename(name) == name
  {
    if name != [] {
      var init := name[..|name| - 1];
      assert forall i :: 0 <= i < |init| ==> init[i] == name[i];
      BasenameOfName(init);
      assert Basename(name) == Basename(init) + [name[|name| - 1]];
      assert name == init + [name[|name| - 1]];
    }
  }

  lemma BasenameIdempotent(path: string)
    ensures Basename(Basename(path)) == Basename(path)
  {
    BasenameOfName(Basename(path));
  }

  /** The text of one PDF page: `page.extract_text() or ""`, where a page that
      yields no text object contributes the empty string. */
  function PageText(page: Option<string>): (text: string)
    ensures page.None? ==> text == []
    ensures page.Some? ==> text == page.value
  {
    match page
    case None => []
    case Some(t) => t
  }

  /** The text of a PDF: its page texts concatenated in page order. */
  function PdfText(pages: seq<Option<string>>): (text: string)
  {
    if pages == [] then [] else PageText(pages[0]) + PdfText(pages[1..])
  }

  /** Concatenating PDFs concatenates their texts. */
  lemma {:induction false} PdfTextAppend(a: seq<Option<string>>, b: seq<Option<string>>)
    ensures PdfText(a + b) == PdfText(a) + PdfText(b)
    decreases |a|
  {
    if a == [] {
      assert a + b == b;
    } else {
      assert (a + b)[0] == a[0];
      assert (a + b)[1..] == a[1..] + b;
      PdfTextAppend(a[1..], b);
    }
  }

  /** The PDF text is empty exactly when no page yields any text. */
  lemma {:induction false} PdfTextEmpty(pages: seq<Option<string>>)
    ensures PdfText(pages) == [] <==> forall i :: 0 <= i < |pages| ==> PageText(pages[i]) == []
    decreases |pages|
  {
    if pages != [] {
      var rest := pages[1..];
      assert forall i :: 0 <= i < |rest| ==> rest[i] == pages[i + 1];
      PdfTextEmpty(rest);
    }
  }

  /** Page `i`'s text sits in the PDF text right after the texts of the pages before it. */
  lemma PdfPageAt(pages: seq<Option<string>>, i: nat)
    requires i < |pages|
    ensures var before := |PdfText(pages[..i])|;
      && before + |PageText(pages[i])| <= |PdfText(pages)|
      && PdfText(pages)[before..before + |PageText(pages[i])|] == PageText(pages[i])
  {
    assert pages == pages[..i] + [pages[i]] + pages[i + 1..];
    PdfTextAppend(pages[..i] + [pages[i]], pages[i + 1..]);
    PdfTextAppend(pages[..i], [pages[i]]);
    PdfTextOne(pages[i]);
  }

  /** A page without text leaves the PDF text as if the page were absent. */
  lemma EmptyPageContributesNothing(a: seq<Option<string>>, b: seq<Option<string>>)
    ensures PdfText(a + [None] + b) == PdfText(a + b)
  {
    PdfTextAppend(a + [None], b);
    PdfTextAppend(a, [None]);
    PdfTextAppend(a, b);
    PdfTextOne(None);
  }

  lemma PdfTextOne(page: Option<string>)
    ensures PdfText([page]) == PageText(page)
  {
    assert [page][1..] == [];
    assert PdfText([page]) == PageText(page) + PdfText([]);
  }

  /** `process_pdf`: the page texts, concatenated, split and tagged with the file's basename. */
  function ProcessPdf(splitter: TextSplitter, path: string, pages: seq<Option<string>>): (docs: seq<Document>)
    ensures IsBlank(PdfText(pages)) ==> docs == []
    ensures !IsBlank(PdfText(pages)) ==> Contents(docs) == splitter.Chunks(PdfText(pages))
    ensures AllTagged(docs, Basename(path))
  {
    SplitText(splitter, PdfText(pages), Basename(path))
  }

  /** One CSV row as text: the cells joined by single spaces, so that no two
      cells run together and nothing visible is added. */
  function RowText(row: seq<string>): (text: string)
    ensures Words(text) == WordsAll(row)
    ensures RemoveSpace(text) == RemoveSpaceAll(row)
  {
    assert IsBlank(" ");
    JoinKeepsWords(" ", row);
    JoinKeepsContent(" ", row);
    Join(" ", row)
  }

  /** The text of a CSV file: each row's text followed by "\n", in row order. */
  function CsvText(rows: seq<seq<string>>): (text: string)
    ensures rows == [] <==> text == []
  {
    if rows == [] then [] else RowText(rows[0]) + "\n" + CsvText(rows[1..])
  }

  /** When no cell holds a line boundary, the lines of the CSV text are exactly the row texts. */
  lemma {:induction false} CsvTextLines(rows: seq<seq<string>>)
    requires forall r, c :: 0 <= r < |rows| && 0 <= c < |rows[r]| ==> HasNoLineBreak(rows[r][c])
    ensures SplitLines(CsvText(rows)) == seq(|rows|, i requires 0 <= i < |rows| => RowText(rows[i]))
  {
    if rows != [] {
      JoinHasNoLineBreak(rows[0]);
      SplitLinesCons(RowText(rows[0]), CsvText(rows[1..]));
      CsvTextLines(rows[1..]);
      RowTextsCons(rows);
    }
  }

  lemma RowTextsCons(rows: seq<seq<string>>)
    requires rows != []
    ensures seq(|rows|, i requires 0 <= i < |rows| => RowText(rows[i]))
         == [RowText(rows[0])] + seq(|rows| - 1, i requires 0 <= i < |rows| - 1 => RowText(rows[1..][i]))
  {
  }

  lemma {:induction false} JoinHasNoLineBreak(cells: seq<string>)
    requires forall c :: 0 <= c < |cells| ==> HasNoLineBreak(cells[c])
    ensures HasNoLineBreak(Join(" ", cells))
  {
    if |cells| > 1 {
      JoinHasNoLineBreak(cells[1..]);
      var rest := Join(" ", cells[1..]);
      var j := cells[0] + " " + rest;
      forall i | 0 <= i < |j|
        ensures !IsLineBreak(j[i])
      {
        if i < |cells[0]| {
          assert j[i] == cells[0][i];
        } else if i > |cells[0]| {
          assert j[i] == rest[i - |cells[0]| - 1];
        }
      }
    }
  }

  /** A CSV file whose cells are all blank gives blank text, hence no documents. */
  lemma {:induction false} BlankCsvText(rows: seq<seq<string>>)
    requires forall r, c :: 0 <= r < |rows| && 0 <= c < |rows[r]| ==> IsBlank(rows[r][c])
    ensures IsBlank(CsvText(rows))
  {
    if rows != [] {
      BlankJoin(rows[0]);
      BlankCsvText(rows[1..]);
      assert IsBlank("\n");
      BlankAppend(RowText(rows[0]), "\n");
      BlankAppend(RowText(rows[0]) + "\n", CsvText(rows[1..]));
    }
  }

  lemma {:induction false} BlankJoin(cells: seq<string>)
    requires forall c :: 0 <= c < |cells| ==> IsBlank(cells[c])
    ensures IsBlank(Join(" ", cells))
  {
    if |cells| > 1 {
      BlankJoin(cells[1..]);
      assert IsBlank(" ");
      BlankAppend(cells[0], " ");
      BlankAppend(cells[0] + " ", Join(" ", cells[1..]));
    }
  }

  /** `process_csv`: the row texts, split and tagged with the file's basename. */
  function ProcessCsv(splitter: TextSplitter, path: string, rows: seq<seq<string>>): (docs: seq<Document>)
    ensures IsBlank(CsvText(rows)) ==> docs == []
    ensures !IsBlank(CsvText(rows)) ==> Contents(docs) == splitter.Chunks(CsvText(rows))
    ensures AllTagged(docs, Basename(path))
  {
    SplitText(splitter, CsvText(rows), Basename(path))
  }

  /** A CSV file with only blank cells produces no documents, whatever the splitter. */
  lemma BlankCsvYieldsNothing(splitter: TextSplitter, path: string, rows: seq<seq<string>>)
    requires forall r, c :: 0 <= r < |rows| && 0 <= c < |rows[r]| ==> IsBlank(rows[r][c])
    ensures ProcessCsv(splitter, path, rows) == []
  {
    BlankCsvText(rows);
  }

  /** Documents read from a file are tagged with a name free of directory separators. */
  lemma FileSourcesHaveNoSeparator(splitter: TextSplitter, path: string, pages: seq<Option<string>>, rows: seq<seq<string>>)
    ensures forall d :: d in ProcessPdf(splitter, path, pages) + ProcessCsv(splitter, path, rows) ==>
      "source" in d.metadata && forall i :: 0 <= i < |d.metadata["source"]| ==> d.metadata["source"][i] != '/'
  {
    var name := Basename(path);
    TaggedSources(ProcessPdf(splitter, path, pages) + ProcessCsv(splitter, path, rows), name);
  }

  /** Every document of a tagged list has the tag as its source. */
  lemma TaggedSources(docs: seq<Document>, source: string)
    requires AllTagged(docs, source)
    ensures forall d :: d in docs ==> "source" in d.metadata && d.metadata["source"] == source
  {
    forall d | d in docs
      ensures "source" in d.metadata && d.metadata["source"] == source
    {
      var i :| 0 <= i < |docs| && docs[i] == d;
    }
  }
}
