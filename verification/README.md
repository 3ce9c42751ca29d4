# Market research analyzer: document ingestion, question answering and text tidying

This project models the core of a small retrieval-augmented "market research
analyzer" in Dafny. It covers three parts:

- **Document processing** (`DocumentProcessor`). Plain text, the page texts
  of a PDF and the rows of a CSV file become source-tagged documents:
  - text that is blank after stripping gives no documents;
  - any other text is cut into chunks by a recursive character splitter
    (chunk size 1000, overlap 200);
  - each chunk becomes a document whose metadata is exactly
    `{"source": source}`;
  - a file's documents are tagged with its base name, and web text is
    tagged `"web"` unless the caller names a source;
  - a PDF's text is its page texts concatenated, a page without text
    counting as `""`;
  - a CSV's text is each row's cells joined by single spaces, each row
    followed by a newline.
- **Question answering** (`ChatEngine`). `AskQuestion` asks the vector store
  for the four documents most similar to the question. It then answers in
  one of three ways:
  - a fixed "couldn't find" message when nothing comes back;
  - an answer that quotes every document under a `**From <source>:**`
    heading, followed by the sorted, repeat-free list of sources;
  - `Error: <message>` when the store fails.
- **Text tidying** (`Utils`).
  - `ScrapeUrl` reduces a fetched page's text to single-spaced phrases. It
    falls back to a fixed message when the page has no visible text, and
    reports a failed fetch behind `Error scraping URL: `.
  - `CleanText` collapses whitespace runs to one space, deletes every
    character other than word characters, whitespace and `. , ! ? ; : -`,
    and strips the result.

Two supporting modules model the Python built-ins the code relies on:

- `PyStr` covers `str.isspace` (which is also `\s`), `strip`, `splitlines`,
  `split("  ")` and `join`, and defines the "visible characters" yardstick
  `RemoveSpace`. It deletes every whitespace character, so it can state
  that an operation loses no content.
- `PyWords` defines `Words`, Python's `str.split()` with no argument: the
  maximal runs of non-whitespace characters, in order. It states that an
  operation keeps every word boundary, so that no two words run together
  and no word is cut in two.
- `StrOrder` covers Python's code-point order on strings and `sorted(set)`.
  `Wrappers` holds `Option` and `Result`.

Outside calls become parameters. The splitting algorithm is a function inside
`TextSplitter`, which passes it the configured chunk size and overlap
(`Config.CHUNK_SIZE` 1000 and `Config.CHUNK_OVERLAP` 200). The similarity search is a `SimilaritySearch` function, and
fetching plus HTML stripping is a `PageFetch` function. Each yields either a
value or the message of the exception it raised.

Some of the proved facts go beyond single operations:

- The scraper's tidying is idempotent and keeps every visible character and every word.
- A page with no visible text produces a fallback message that passes the
  caller's "does not start with Error" test, so that message is indexed as
  if it were page content (`BlankPageIsIndexed`).
- A page whose visible text begins with "Error" is rejected like a failure, whatever whitespace surrounds it (`ErrorPageIsRejected`).
- `clean_text` is not idempotent: `"a @ b"` cleans to `"a  b"`, which
  cleans again to `"a b"`.

## Model

| member | source | states |
|---|---|---|
| DocumentProcessor.SourceOf | market_research_analyzer/src/chat_engine.py:25 | The lookup finds a value exactly when the metadata has a "source" key, and the value is that key's entry. |
| DocumentProcessor.DefaultSplitter | market_research_analyzer/src/document_processor.py:9-14 | The processor's splitter runs the splitting algorithm on every text with chunk size 1000 and overlap 200. |
| DocumentProcessor.SplitText | market_research_analyzer/src/document_processor.py:35-39 | Blank text (all of it whitespace) gives no documents. Otherwise the documents' contents are exactly the splitter's chunks in order, and every document's metadata is exactly the one entry source. |
| DocumentProcessor.BlankTextIgnoresSplitter | market_research_analyzer/src/document_processor.py:36-37 | For blank text the splitter is never consulted: any two splitters give the same empty result. |
| DocumentProcessor.SplitTextSource | market_research_analyzer/src/document_processor.py:39 | Every document produced reports the given source when its metadata is asked for "source". |
| DocumentProcessor.ProcessText | market_research_analyzer/src/document_processor.py:32-33 | Text with an explicit source is split and tagged exactly as the private splitter does it. |
| DocumentProcessor.DefaultProcessText | market_research_analyzer/src/document_processor.py:32-39 | With the splitter the processor is built with, non-blank text becomes one document per chunk of size 1000 and overlap 200, in order, each tagged {"source": source}. Blank text becomes no documents. |
| DocumentProcessor.ProcessTextDefaultsToWeb | market_research_analyzer/src/document_processor.py:32-33 | Without a source argument every document is tagged "web". |
| DocumentProcessor.Basename | market_research_analyzer/src/document_processor.py:22 | The base name is a suffix of the path, holds no '/', and is either the whole path or preceded by a '/'. |
| DocumentProcessor.BasenameIdempotent | market_research_analyzer/src/document_processor.py:22 | Taking the base name of a base name changes nothing. |
| DocumentProcessor.PageText | market_research_analyzer/src/document_processor.py:21 | A page that yields no text contributes the empty string. A page that yields text contributes that text unchanged. |
| DocumentProcessor.PdfTextEmpty | market_research_analyzer/src/document_processor.py:17-21 | The PDF text is empty exactly when no page contributes any text. |
| DocumentProcessor.PdfTextAppend | market_research_analyzer/src/document_processor.py:17-21 | The accumulated PDF text of two page runs is the concatenation of their texts. |
| DocumentProcessor.PdfPageAt | market_research_analyzer/src/document_processor.py:20-21 | Page i's text appears verbatim in the PDF text, right after the texts of the pages before it. |
| DocumentProcessor.EmptyPageContributesNothing | market_research_analyzer/src/document_processor.py:21 | A page that yields no text leaves the PDF text as if the page were absent. |
| DocumentProcessor.ProcessPdf | market_research_analyzer/src/document_processor.py:16-22 | A PDF whose pages are all blank gives no documents. Otherwise its documents hold the splitter's chunks of the concatenated page text, tagged with the file's base name. |
| DocumentProcessor.RowText | market_research_analyzer/src/document_processor.py:29 | A row's text holds exactly the words of its cells, cell by cell and in order, so no two cells run together. It also holds exactly their visible characters. |
| DocumentProcessor.CsvText | market_research_analyzer/src/document_processor.py:25-29 | The CSV text is empty exactly when the file has no rows. |
| DocumentProcessor.CsvTextLines | market_research_analyzer/src/document_processor.py:28-29 | When no cell holds a line boundary, the lines of the CSV text are exactly the rows' cells joined by spaces, one line per row in order. |
| DocumentProcessor.ProcessCsv | market_research_analyzer/src/document_processor.py:24-30 | The documents hold the splitter's chunks of the row text, tagged with the file's base name, or nothing when that text is blank. |
| DocumentProcessor.BlankCsvYieldsNothing | market_research_analyzer/src/document_processor.py:24-37 | A CSV file whose cells are all blank produces no documents, whatever the splitter. |
| DocumentProcessor.FileSourcesHaveNoSeparator | market_research_analyzer/src/document_processor.py:16-30 | Every document read from a PDF or CSV file has a source free of '/'. |
| ChatEngine.Label | market_research_analyzer/src/chat_engine.py:25 | A document's label is its "source" metadata when present, and "Unknown" otherwise. |
| ChatEngine.LabelSet | market_research_analyzer/src/chat_engine.py:22-26 | A string is in the set of sources exactly when it labels one of the documents. |
| ChatEngine.ContextBlock | market_research_analyzer/src/chat_engine.py:27 | A block opens with the bold heading "**From <label>:**" and a newline, and ends with the document's text unchanged. |
| ChatEngine.Blocks | market_research_analyzer/src/chat_engine.py:24-27 | There is one block per document, and block i quotes document i. |
| ChatEngine.Gather | market_research_analyzer/src/chat_engine.py:21-27 | The loop collects one quoted block per document, in retrieval order, together with the set of their labels. |
| ChatEngine.Compose | market_research_analyzer/src/chat_engine.py:15-40 | A failed search gives an error reply carrying its message. An empty result gives the not-found reply. Otherwise the reply quotes every document in order and lists the labels ascending, without repeats. Each condition holds in both directions. |
| ChatEngine.Render | market_research_analyzer/src/chat_engine.py:17-40 | The rendered answer is never empty. The not-found and error replies have their exact texts, and a grounded answer opens with the preamble and ends with the sources line. A reply reads as an error exactly when it is one. |
| ChatEngine.GroundedText | market_research_analyzer/src/chat_engine.py:29-35 | The answer is the preamble, then the blocks separated by blank lines, then "**Sources:**" and the sources joined by ", ". It opens with the preamble and ends with the sources line. |
| ChatEngine.AskQuestion | market_research_analyzer/src/chat_engine.py:11-40 | The store is asked for four documents. The answer is the error text if the store fails and the not-found message if it returns nothing. Otherwise it is the preamble, the blocks separated by blank lines, then "**Sources:**" and the sorted labels joined by ", ". It starts with "Error: " exactly when the store failed. |
| ChatEngine.GroundedAnswer | market_research_analyzer/src/chat_engine.py:29-37 | For a non-empty search result the rendered reply is the full answer text, built from the blocks and the sorted label set. |
| ChatEngine.SourcesAreSortedLabels | market_research_analyzer/src/chat_engine.py:35 | Any ascending, repeat-free listing of the documents' labels is exactly the sources list of the reply. |
| ChatEngine.SourcesMatchBlocks | market_research_analyzer/src/chat_engine.py:22-35 | No source is listed twice. Every document's label is listed, and every listed source labels some quoted document. |
| ChatEngine.AtMostFourBlocks | market_research_analyzer/src/chat_engine.py:15 | With a store that returns at most k documents, an answer quotes at most four. |
| StrOrder.SortSet | market_research_analyzer/src/chat_engine.py:35 | The sorted listing of a set is strictly ascending in code-point order, holds exactly the set's elements and has the set's size. |
| StrOrder.SortedListingUnique | market_research_analyzer/src/chat_engine.py:35 | Two strictly ascending listings of the same elements are equal. |
| StrOrder.LessTotal | market_research_analyzer/src/chat_engine.py:35 | Any two distinct strings are ordered one way or the other by Python's comparison. |
| StrOrder.LessTransitive | market_research_analyzer/src/chat_engine.py:35 | Python's string comparison is transitive. |
| PyStr.Strip | market_research_analyzer/src/utils.py:23 | The result has no whitespace at either end and is a contiguous slice of the input. All characters outside that slice are whitespace, and the result is empty exactly when the input is blank. |
| PyStr.StripKeepsContent | market_research_analyzer/src/utils.py:23 | Stripping removes no visible character. |
| PyStr.SplitLines | market_research_analyzer/src/utils.py:23 | No line holds a line boundary, and there are no lines exactly when the text is empty. |
| PyStr.SplitLinesKeepsContent | market_research_analyzer/src/utils.py:23 | The lines together hold exactly the visible characters of the text. |
| PyStr.SplitDoubleSpace | market_research_analyzer/src/utils.py:24 | There is at least one piece and no piece holds two adjacent spaces. A text without line boundaries gives pieces without them. |
| PyStr.JoinSplitDoubleSpace | market_research_analyzer/src/utils.py:24 | Joining the pieces back with two spaces gives the original text. |
| PyStr.Join | market_research_analyzer/src/utils.py:25 | Joining nothing gives the empty string. Otherwise the result starts with the first part and ends with the last. |
| PyStr.JoinKeepsContent | market_research_analyzer/src/utils.py:25 | Joining with a whitespace separator adds no visible characters. |
| PyWords.WordsAppend | market_research_analyzer/src/utils.py:23-25 | Two texts that meet at whitespace have the words of the first followed by the words of the second. |
| PyWords.StripKeepsWords | market_research_analyzer/src/utils.py:23 | Stripping keeps every word. |
| PyWords.SplitLinesKeepsWords | market_research_analyzer/src/utils.py:23 | The lines of a text hold its words, line by line and in order: no word spans a line boundary. |
| PyWords.SplitDoubleSpaceKeepsWords | market_research_analyzer/src/utils.py:24 | The pieces of a split at double spaces hold the text's words, piece by piece and in order. |
| PyWords.JoinKeepsWords | market_research_analyzer/src/utils.py:25 | Joining with a non-empty whitespace separator gives the words of the parts, part by part, so no two parts run together. |
| Utils.StripEach | market_research_analyzer/src/utils.py:24 | There is one stripped phrase per piece, and phrase k is piece k stripped. |
| Utils.StripEachKeepsWords | market_research_analyzer/src/utils.py:24 | Stripping every piece keeps the pieces' words, in order. |
| Utils.LinePhrases | market_research_analyzer/src/utils.py:23-24 | Every phrase of a line is trimmed and holds no double space, and none holds a line boundary if the line held none. Together the phrases hold exactly the words of the line, in order. |
| Utils.Phrases | market_research_analyzer/src/utils.py:23-24 | Every phrase of every line is trimmed and holds no double space, and none holds a line boundary if no line does. The phrases hold exactly the words of the lines, line by line and in order. |
| Utils.LinePhrasesKeepContent | market_research_analyzer/src/utils.py:23-24 | The phrases of a line hold exactly its visible characters. |
| Utils.NonEmpty | market_research_analyzer/src/utils.py:25 | Every kept chunk is non-empty and one of the chunks. |
| Utils.NonEmptyCons | market_research_analyzer/src/utils.py:25 | Filtering a chunk in front of others keeps that chunk exactly when it is non-empty, followed by the filtered rest. |
| Utils.NonEmptyAppend | market_research_analyzer/src/utils.py:25 | Filtering two runs of chunks is filtering each, in order, so the kept chunks keep their order. |
| Utils.NonEmptyKeepsEveryPart | market_research_analyzer/src/utils.py:25 | Every non-empty chunk is kept. |
| Utils.NonEmptyKeepsWords | market_research_analyzer/src/utils.py:25 | Dropping the empty chunks loses no word. |
| Utils.NonEmptyKeepsContent | market_research_analyzer/src/utils.py:25 | Dropping the empty chunks loses no visible character. |
| Utils.JoinNormalized | market_research_analyzer/src/utils.py:25 | Non-empty normalised phrases joined by single spaces form a normalised text: no line boundary, no surrounding whitespace and no double space. |
| Utils.NormalizeWhitespace | market_research_analyzer/src/utils.py:22-25 | The tidied text is normalised and holds exactly the visible characters of the page text, in order. It has exactly the page text's words, so words stay apart and none is cut. It is empty exactly when the page text is blank. |
| Utils.NormalizeFixesNormalized | market_research_analyzer/src/utils.py:22-25 | Tidying leaves already normalised text unchanged, so tidying twice is tidying once. |
| Utils.ScrapeUrl | market_research_analyzer/src/utils.py:7-29 | A failed fetch gives "Error scraping URL: " and the message. A blank page gives the fixed fallback message. Any other page gives non-empty normalised text with exactly the page's visible characters and exactly its words. |
| Utils.FailuresAreRejected | market_research_analyzer/app.py:56 | Every scrape failure starts with the error prefix and fails the caller's content test. |
| Utils.LooksLikeContent | market_research_analyzer/app.py:56 | Accepted text is non-empty, and text starting with "Error" is never accepted. Non-empty text whose first character is not 'E' is always accepted. |
| Utils.ErrorPageIsRejected | market_research_analyzer/app.py:56 | A page whose stripped text starts with "Error" gives a scrape result that starts with "Error" and fails the caller's content test, whatever whitespace the page holds. |
| Utils.ErrorLikePageIsRejected | market_research_analyzer/app.py:56 | A page whose text is already normalised and starts with "Error" comes back unchanged and is rejected like a failure. |
| Utils.BlankPageIsIndexed | market_research_analyzer/src/utils.py:27 | The fallback message for a blank page passes the caller's content test. |
| Utils.CollapseSpace | market_research_analyzer/src/utils.py:34 | After collapsing, the only whitespace is ' ', no two spaces are adjacent, and the visible characters and the words are unchanged. The result is empty exactly when the input is, and starts with whitespace exactly when the input does. |
| Utils.CollapseKeepsTrailingSpace | market_research_analyzer/src/utils.py:34 | The collapsed text ends with whitespace exactly when the input does: a trailing run leaves one ' ' behind. |
| Utils.DeleteDisallowed | market_research_analyzer/src/utils.py:35 | Every remaining character is allowed, and the result is a subsequence of the input. |
| Utils.DeleteDisallowedCounts | market_research_analyzer/src/utils.py:35 | Each allowed character occurs as often after the deletion as before, and each other character not at all. |
| Utils.DeleteWords | market_research_analyzer/src/utils.py:35 | Deleting disallowed characters never joins or splits words: the words of the result are the input's words with their disallowed characters deleted, minus those that become empty, in order. |
| Utils.CleanText | market_research_analyzer/src/utils.py:33-36 | The cleaned text is trimmed and holds only word characters, plain spaces and the kept punctuation. It is a subsequence of the whitespace-collapsed input, and its visible characters are exactly the input's allowed visible characters. Its words are the input's words with their disallowed characters deleted, minus those that become empty, in order. |
| Utils.CleanTextNotIdempotent | market_research_analyzer/src/utils.py:33-36 | Cleaning "a @ b" gives "a  b", and cleaning that again gives "a b". |

## Left out

- PDF parsing is not modelled: a PDF is the list of what `extract_text()` returned for each page (`None` as `Option.None`).
- CSV parsing is not modelled: a CSV file is its rows of already-parsed cells, so quoting and dialects are out of scope.
- Opening and reading files is not modelled, nor are the exceptions this raises, which propagate to the caller.
- DocumentProcessor.SplitText: says nothing about chunk lengths or overlap, because the recursive character splitting algorithm is a parameter. The configured sizes 1000 and 200 are handed to it, but nothing here constrains what it does with them.
- DocumentProcessor.Basename: models the POSIX `os.path.basename` ('/' only); the Windows variant also splits at '\\' and drive letters.
- DocumentProcessor.CsvText: is defined row-first by recursion rather than as the source's accumulating loop; both build the same string.
- The vector store is a `SimilaritySearch` parameter, so embedding, ranking and persistence are left out, along with `vector_store.py`.
- The `ChatEngine` constructor and its retriever wiring are left out.
- ChatEngine.Compose: metadata values are strings, so exceptions raised while rendering or sorting non-string sources are not modelled. Only the search's own failure reaches the error path.
- The HTTP request is left out: its headers, its 10-second timeout and `raise_for_status`.
- BeautifulSoup parsing and the removal of `script` and `style` elements are left out. `PageFetch` yields the resulting text or an exception message.
- PyStr.IsWordChar: `\w` is restricted to ASCII letters, digits and '_'. Python's Unicode-aware `\w` also keeps non-ASCII letters and digits, which `Utils.CleanText` here deletes.
- Python strings may hold lone surrogates and Dafny characters cannot, so such strings are outside the model.
- DocumentProcessor.PdfText: carries no contract of its own. Its emptiness, concatenation and page placement are stated by `PdfTextEmpty`, `PdfTextAppend` and `PdfPageAt`, which keeps the recursive definition cheap to use.
- The Streamlit interface in `app.py`, the Hands-on backend and the remaining configuration are not part of this model. The only exception is the scrape-result test at app.py line 56, modelled as `Utils.LooksLikeContent`.
