/**
 * The two text normalisers of `utils.py`: the whitespace tidying that
 * `WebScraper.scrape_url` applies to the text of a fetched page, and
 * `TextCleaner.clean_text`. Fetching the page and stripping its HTML are a
 * parameter that yields the page text or the message of the exception.
 */
module Utils {
  import opened Wrappers
  import opened PyStr
  import opened PyWords

  // ---------------------------------------------------------------------------
  // WebScraper.scrape_url
  // ---------------------------------------------------------------------------

  const NoTextMessage: string := "No readable text content " + "found on this page."
  const ScrapeErrorPrefix: string := "Error scraping URL: "

  /** `requests.get(url)` followed by BeautifulSoup's removal of scripts and
      styles and `soup.get_text()`: the raw page text, or the message of the
      exception raised on the way (network error, timeout, HTTP error status). */
  type PageFetch = string -> Result<string, string>

  /** Text in the shape the scraper promises: no line boundaries, no leading
      or trailing whitespace, and never two spaces in a row. */
  predicate IsNormalized(s: string) {
    HasNoLineBreak(s) && IsTrimmed(s) && HasNoDoubleSpace(s)
  }

  /** Stripping keeps the characters of a slice, so it keeps the absence of
      line boundaries and of double spaces. */
  lemma StripKeepsShape(s: string)
    ensures HasNoLineBreak(s) ==> HasNoLineBreak(Strip(s))
    ensures HasNoDoubleSpace(s) ==> HasNoDoubleSpace(Strip(s))
  {
    var k := LeadingSpace(s);
    var r := Strip(s);
    forall i | 0 <= i < |r|
      ensures r[i] == s[k + i]
    {
    }
  }

  /** `phrase.strip()` for each phrase. */
  function StripEach(parts: seq<string>): (stripped: seq<string>)
    ensures |stripped| == |parts|
    ensures forall k :: 0 <= k < |parts| ==> stripped[k] == Strip(parts[k])
  {
    seq(|parts|, k requires 0 <= k < |parts| => Strip(parts[k]))
  }

  lemma {:induction false} StripEachKeepsContent(parts: seq<string>)
    ensures RemoveSpaceAll(StripEach(parts)) == RemoveSpaceAll(parts)
  {
    if parts != [] {
      assert StripEach(parts)[1..] == StripEach(parts[1..]);
      StripKeepsContent(parts[0]);
      StripEachKeepsContent(parts[1..]);
    }
  }

  lemma {:induction false} StripEachKeepsWords(parts: seq<string>)
    ensures WordsAll(StripEach(parts)) == WordsAll(parts)
  {
    if parts != [] {
      assert StripEach(parts)[1..] == StripEach(parts[1..]);
      StripKeepsWords(parts[0]);
      StripEachKeepsWords(parts[1..]);
    }
  }

  /** The phrases of one line: `phrase.strip() for phrase in line.strip().split("  ")`.
      Together they hold the words of the line, in order. */
  function LinePhrases(line: string): (phrases: seq<string>)
    ensures forall k :: 0 <= k < |phrases| ==> IsTrimmed(phrases[k]) && HasNoDoubleSpace(phrases[k])
    ensures HasNoLineBreak(line) ==> forall k :: 0 <= k < |phrases| ==> HasNoLineBreak(phrases[k])
    ensures WordsAll(phrases) == Words(line)
  {
    StripKeepsShape(line);
    StripEachShape(SplitDoubleSpace(Strip(line)));
    PhraseWords(line);
    StripEach(SplitDoubleSpace(Strip(line)))
  }

  lemma PhraseWords(line: string)
    ensures WordsAll(StripEach(SplitDoubleSpace(Strip(line)))) == Words(line)
  {
    StripEachKeepsWords(SplitDoubleSpace(Strip(line)));
    SplitDoubleSpaceKeepsWords(Strip(line));
    StripKeepsWords(line);
  }

  lemma StripEachShape(parts: seq<string>)
    requires forall k :: 0 <= k < |parts| ==> HasNoDoubleSpace(parts[k])
    ensures forall k :: 0 <= k < |parts| ==>
      IsTrimmed(StripEach(parts)[k]) && HasNoDoubleSpace(StripEach(parts)[k])
    ensures (forall k :: 0 <= k < |parts| ==> HasNoLineBreak(parts[k])) ==>
      forall k :: 0 <= k < |parts| ==> HasNoLineBreak(StripEach(parts)[k])
  {
    forall k | 0 <= k < |parts|
      ensures HasNoDoubleSpace(Strip(parts[k]))
      ensures HasNoLineBreak(parts[k]) ==> HasNoLineBreak(Strip(parts[k]))
    {
      StripKeepsShape(parts[k]);
    }
  }

  lemma LinePhrasesKeepContent(line: string)
    ensures RemoveSpaceAll(LinePhrases(line)) == RemoveSpace(line)
  {
    StripEachKeepsContent(SplitDoubleSpace(Strip(line)));
    SplitDoubleSpaceKeepsContent(Strip(line));
    StripKeepsContent(line);
  }

  /** The phrases of all lines, line by line. */
  function Phrases(lines: seq<string>): (phrases: seq<string>)
    ensures forall k :: 0 <= k < |phrases| ==> IsTrimmed(phrases[k]) && HasNoDoubleSpace(phrases[k])
    ensures (forall j :: 0 <= j < |lines| ==> HasNoLineBreak(lines[j])) ==>
      forall k :: 0 <= k < |phrases| ==> HasNoLineBreak(phrases[k])
    ensures WordsAll(phrases) == WordsAll(lines)
  {
    if lines == [] then []
    else
      var tail := Phrases(lines[1..]);
      PhrasesStep(lines, tail);
      LinePhrases(lines[0]) + tail
  }

  /** The first line's phrases in front of the phrases of the other lines. */
  lemma PhrasesStep(lines: seq<string>, tail: seq<string>)
    requires lines != []
    requires forall k :: 0 <= k < |tail| ==> IsTrimmed(tail[k]) && HasNoDoubleSpace(tail[k])
    requires (forall j :: 0 <= j < |lines[1..]| ==> HasNoLineBreak(lines[1..][j])) ==>
      forall k :: 0 <= k < |tail| ==> HasNoLineBreak(tail[k])
    requires WordsAll(tail) == WordsAll(lines[1..])
    ensures var phrases := LinePhrases(lines[0]) + tail;
      && (forall k :: 0 <= k < |phrases| ==> IsTrimmed(phrases[k]) && HasNoDoubleSpace(phrases[k]))
      && ((forall j :: 0 <= j < |lines| ==> HasNoLineBreak(lines[j])) ==>
            forall k :: 0 <= k < |phrases| ==> HasNoLineBreak(phrases[k]))
      && WordsAll(phrases) == WordsAll(lines)
  {
    var head := LinePhrases(lines[0]);
    ConcatShapes(head, tail);
    WordsAllAppend(head, tail);
    LineBreaksStep(lines, head, tail);
  }

  lemma LineBreaksStep(lines: seq<string>, head: seq<string>, tail: seq<string>)
    requires lines != []
    requires HasNoLineBreak(lines[0]) ==> forall k :: 0 <= k < |head| ==> HasNoLineBreak(head[k])
    requires (forall j :: 0 <= j < |lines[1..]| ==> HasNoLineBreak(lines[1..][j])) ==>
      forall k :: 0 <= k < |tail| ==> HasNoLineBreak(tail[k])
    ensures (forall j :: 0 <= j < |lines| ==> HasNoLineBreak(lines[j])) ==>
      forall k :: 0 <= k < |head + tail| ==> HasNoLineBreak((head + tail)[k])
  {
    if forall j :: 0 <= j < |lines| ==> HasNoLineBreak(lines[j]) {
      assert HasNoLineBreak(lines[0]);
      assert forall j :: 0 <= j < |lines[1..]| ==> lines[1..][j] == lines[j + 1];
      ConcatLineBreaks(head, tail);
    }
  }

  lemma ConcatLineBreaks(a: seq<string>, b: seq<string>)
    requires forall k :: 0 <= k < |a| ==> HasNoLineBreak(a[k])
    requires forall k :: 0 <= k < |b| ==> HasNoLineBreak(b[k])
    ensures forall k :: 0 <= k < |a + b| ==> HasNoLineBreak((a + b)[k])
  {
    forall k | 0 <= k < |a + b|
      ensures HasNoLineBreak((a + b)[k])
    {
      if k >= |a| {
        assert (a + b)[k] == b[k - |a|];
      }
    }
  }

  lemma ConcatShapes(a: seq<string>, b: seq<string>)
    requires forall k :: 0 <= k < |a| ==> IsTrimmed(a[k]) && HasNoDoubleSpace(a[k])
    requires forall k :: 0 <= k < |b| ==> IsTrimmed(b[k]) && HasNoDoubleSpace(b[k])
    ensures forall k :: 0 <= k < |a + b| ==> IsTrimmed((a + b)[k]) && HasNoDoubleSpace((a + b)[k])
  {
    forall k | 0 <= k < |a + b|
      ensures IsTrimmed((a + b)[k]) && HasNoDoubleSpace((a + b)[k])
    {
      if k >= |a| {
        assert (a + b)[k] == b[k - |a|];
      }
    }
  }

  lemma {:induction false} PhrasesKeepContent(lines: seq<string>)
    ensures RemoveSpaceAll(Phrases(lines)) == RemoveSpaceAll(lines)
  {
    if lines != [] {
      RemoveSpaceAllAppend(LinePhrases(lines[0]), Phrases(lines[1..]));
      LinePhrasesKeepContent(lines[0]);
      PhrasesKeepContent(lines[1..]);
    }
  }

  /** `chunk for chunk in chunks if chunk`: the non-empty parts, and only they. */
  function NonEmpty(parts: seq<string>): (kept: seq<string>)
    ensures forall k :: 0 <= k < |kept| ==> kept[k] != [] && kept[k] in parts
  {
    if parts == [] then []
    else if parts[0] == [] then NonEmpty(parts[1..])
    else [parts[0]] + NonEmpty(parts[1..])
  }

  lemma {:induction false} NonEmptyKeepsContent(parts: seq<string>)
    ensures RemoveSpaceAll(NonEmpty(parts)) == RemoveSpaceAll(parts)
  {
    if parts != [] {
      NonEmptyKeepsContent(parts[1..]);
      if parts[0] != [] {
        assert ([parts[0]] + NonEmpty(parts[1..]))[1..] == NonEmpty(parts[1..]);
      }
    }
  }

  /** Filtering one part keeps it exactly when it is non-empty. */
  lemma NonEmptyCons(part: string, rest: seq<string>)
    ensures NonEmpty([part] + rest) == (if part == [] then [] else [part]) + NonEmpty(rest)
  {
    assert ([part] + rest)[1..] == rest;
  }

  /** Every non-empty part is kept. */
  lemma {:induction false} NonEmptyKeepsEveryPart(parts: seq<string>)
    ensures forall k :: 0 <= k < |parts| && parts[k] != [] ==> parts[k] in NonEmpty(parts)
  {
    if parts != [] {
      var rest := parts[1..];
      NonEmptyKeepsEveryPart(rest);
      NonEmptyCons(parts[0], rest);
      assert parts == [parts[0]] + rest;
      forall k | 0 <= k < |parts| && parts[k] != []
        ensures parts[k] in NonEmpty(parts)
      {
        if k > 0 {
          assert parts[k] == rest[k - 1];
        }
      }
    }
  }

  /** Filtering distributes over concatenation: the kept parts stay in their order. */
  lemma {:induction false} NonEmptyAppend(a: seq<string>, b: seq<string>)
    ensures NonEmpty(a + b) == NonEmpty(a) + NonEmpty(b)
    decreases |a|
  {
    if a == [] {
      assert a + b == b;
    } else {
      var x, rest := a[0], a[1..];
      ConsAppend(a, b);
      NonEmptyCons(x, rest + b);
      NonEmptyCons(x, rest);
      NonEmptyAppend(rest, b);
    }
  }

  lemma ConsAppend<T>(a: seq<T>, b: seq<T>)
    requires a != []
    ensures a == [a[0]] + a[1..]
    ensures a + b == [a[0]] + (a[1..] + b)
  {
  }

  /** Empty parts hold no words, so dropping them loses none. */
  lemma {:induction false} NonEmptyKeepsWords(parts: seq<string>)
    ensures WordsAll(NonEmpty(parts)) == WordsAll(parts)
  {
    if parts != [] {
      assert parts == [parts[0]] + parts[1..];
      NonEmptyCons(parts[0], parts[1..]);
      NonEmptyKeepsWords(parts[1..]);
      if parts[0] != [] {
        WordsAllCons(parts[0], NonEmpty(parts[1..]));
      }
    }
  }

  /** Two normalised, non-empty texts glued with one space form a normalised text. */
  lemma GlueNormalized(p: string, q: string)
    requires p != [] && q != [] && IsNormalized(p) && IsNormalized(q)
    ensures IsNormalized(p + " " + q)
  {
    var s := p + " " + q;
    forall i | 0 <= i < |s|
      ensures !IsLineBreak(s[i])
    {
      if i < |p| {
        assert s[i] == p[i];
      } else if i > |p| {
        assert s[i] == q[i - |p| - 1];
      }
    }
    forall i | 0 <= i < |s| - 1
      ensures s[i] != ' ' || s[i + 1] != ' '
    {
      if i + 1 < |p| {
        assert s[i] == p[i] && s[i + 1] == p[i + 1];
      } else if i + 1 == |p| {
        assert s[i] == p[|p| - 1];
      } else if i == |p| {
        assert s[i + 1] == q[0];
      } else {
        assert s[i] == q[i - |p| - 1] && s[i + 1] == q[i - |p|];
      }
    }
    assert s[0] == p[0] && s[|s| - 1] == q[|q| - 1];
  }

  lemma {:induction false} JoinNormalized(parts: seq<string>)
    requires forall k :: 0 <= k < |parts| ==> parts[k] != [] && IsNormalized(parts[k])
    ensures IsNormalized(Join(" ", parts))
    ensures parts != [] ==> Join(" ", parts) != []
  {
    if |parts| > 1 {
      JoinNormalized(parts[1..]);
      GlueNormalized(parts[0], Join(" ", parts[1..]));
    }
  }

  /** The whitespace tidying of `scrape_url`: split into lines, strip each,
      split each on double spaces, strip the phrases, and join the non-empty
      phrases with single spaces. */
  function NormalizeWhitespace(text: string): (tidy: string)
    ensures IsNormalized(tidy)
    ensures RemoveSpace(tidy) == RemoveSpace(text)
    ensures tidy == [] <==> IsBlank(text)
    ensures Words(tidy) == Words(text)
  {
    NormalizedShape(text);
    NormalizedContent(text);
    NormalizedWords(text);
    NormalizedBlank(Join(" ", NonEmpty(Phrases(SplitLines(text)))));
    Join(" ", NonEmpty(Phrases(SplitLines(text))))
  }

  lemma NormalizedShape(text: string)
    ensures IsNormalized(Join(" ", NonEmpty(Phrases(SplitLines(text)))))
  {
    var phrases := NonEmpty(Phrases(SplitLines(text)));
    forall k | 0 <= k < |phrases|
      ensures phrases[k] != [] && IsNormalized(phrases[k])
    {
    }
    JoinNormalized(phrases);
  }

  lemma NormalizedContent(text: string)
    ensures RemoveSpace(Join(" ", NonEmpty(Phrases(SplitLines(text))))) == RemoveSpace(text)
  {
    var lines := SplitLines(text);
    var phrases := NonEmpty(Phrases(lines));
    SplitLinesKeepsContent(text);
    PhrasesKeepContent(lines);
    NonEmptyKeepsContent(Phrases(lines));
    SingleSpaceBlank();
    JoinKeepsContent(" ", phrases);
  }

  lemma NormalizedWords(text: string)
    ensures Words(Join(" ", NonEmpty(Phrases(SplitLines(text))))) == Words(text)
  {
    var lines := SplitLines(text);
    SplitLinesKeepsWords(text);
    NonEmptyKeepsWords(Phrases(lines));
    SingleSpaceBlank();
    JoinKeepsWords(" ", NonEmpty(Phrases(lines)));
  }

  lemma SingleSpaceBlank()
    ensures IsBlank(" ")
  {
    assert IsSpace(' ');
  }

  /** A normalised text is blank only when it is empty. */
  lemma NormalizedBlank(s: string)
    requires IsNormalized(s)
    ensures IsBlank(s) <==> s == []
  {
  }

  /** Tidying is idempotent: normalised text comes back unchanged. */
  lemma NormalizeFixesNormalized(s: string)
    requires IsNormalized(s)
    ensures NormalizeWhitespace(s) == s
  {
    if s != [] {
      assert FindLineBreak(s) == |s|;
      assert SplitLines(s) == [s];
      NormalizedLinePhrases(s);
      PhrasesOne(s);
      NonEmptyCons(s, []);
    }
  }

  lemma PhrasesOne(line: string)
    ensures Phrases([line]) == LinePhrases(line)
  {
    assert [line][1..] == [];
    assert Phrases([line]) == LinePhrases(line) + Phrases([]);
  }

  /** A normalised line is a single phrase. */
  lemma NormalizedLinePhrases(s: string)
    requires s != [] && IsNormalized(s)
    ensures LinePhrases(s) == [s]
  {
    StripOfTrimmed(s);
    assert FindDoubleSpace(s) == |s| by {
      NoDoubleSpaceFound(s);
    }
    assert SplitDoubleSpace(s) == [s];
  }

  lemma StripOfTrimmed(s: string)
    requires IsTrimmed(s)
    ensures Strip(s) == s
  {
    if s != [] {
      assert LeadingSpace(s) == 0;
      assert TrailingSpaceStart(s) == |s|;
    }
  }

  lemma {:induction false} NoDoubleSpaceFound(s: string)
    requires HasNoDoubleSpace(s)
    ensures FindDoubleSpace(s) == |s|
  {
    if |s| >= 2 {
      assert HasNoDoubleSpace(s[1..]);
      NoDoubleSpaceFound(s[1..]);
    }
  }

  /** `WebScraper.scrape_url`: the tidied page text, a fixed message when the
      page has no visible text, or the exception message behind a fixed prefix. */
  function ScrapeUrl(url: string, fetch: PageFetch): (result: string)
    ensures fetch(url).Failure? ==> result == ScrapeErrorPrefix + fetch(url).error
    ensures fetch(url).Success? && IsBlank(fetch(url).value) ==> result == NoTextMessage
    ensures fetch(url).Success? && !IsBlank(fetch(url).value) ==>
      && result != []
      && IsNormalized(result)
      && RemoveSpace(result) == RemoveSpace(fetch(url).value)
      && Words(result) == Words(fetch(url).value)
  {
    match fetch(url)
    case Failure(e) => ScrapeErrorPrefix + e
    case Success(raw) =>
      var text := NormalizeWhitespace(raw);
      if Strip(text) == [] then NoTextMessage else text
  }

  /** The test `app.py` applies to a scrape result before indexing it:
      non-empty and not starting with "Error". */
  function LooksLikeContent(result: string): (accepted: bool)
    ensures accepted ==> result != []
    ensures StartsWith(result, "Error") ==> !accepted
    ensures result != [] && result[0] != 'E' ==> accepted
  {
    result != [] && !StartsWith(result, "Error")
  }

  /** Every failure reads as an error to the caller. */
  lemma FailuresAreRejected(url: string, fetch: PageFetch)
    requires fetch(url).Failure?
    ensures StartsWith(ScrapeUrl(url, fetch), ScrapeErrorPrefix)
    ensures !LooksLikeContent(ScrapeUrl(url, fetch))
  {
    var result := ScrapeUrl(url, fetch);
    ConcatEnds(ScrapeErrorPrefix, fetch(url).error);
    assert result[..5] == ScrapeErrorPrefix[..5] == "Error";
  }

  /** A page whose visible text itself begins with "Error" is also rejected:
      the caller cannot tell it from a failure. */
  lemma ErrorLikePageIsRejected(url: string, fetch: PageFetch)
    requires fetch(url).Success?
    requires IsNormalized(fetch(url).value) && StartsWith(fetch(url).value, "Error")
    ensures ScrapeUrl(url, fetch) == fetch(url).value
    ensures !LooksLikeContent(ScrapeUrl(url, fetch))
  {
    NormalizeFixesNormalized(fetch(url).value);
  }

  /** A page whose visible text begins with "Error" is rejected like a
      failure, whatever whitespace surrounds or splits its words: tidying
      keeps the first word in front. */
  lemma ErrorPageIsRejected(url: string, fetch: PageFetch)
    requires fetch(url).Success? && StartsWith(Strip(fetch(url).value), "Error")
    ensures StartsWith(ScrapeUrl(url, fetch), "Error")
    ensures !LooksLikeContent(ScrapeUrl(url, fetch))
  {
    var page := fetch(url).value;
    StripKeepsWords(page);
    ErrorStaysInFront(Strip(page), ScrapeUrl(url, fetch));
  }

  /** Text with the same words as one starting with "Error", and no leading
      whitespace, starts with "Error" too. */
  lemma ErrorStaysInFront(page: string, text: string)
    requires StartsWith(page, "Error")
    requires text != [] && IsTrimmed(text) && Words(text) == Words(page)
    ensures StartsWith(text, "Error")
  {
    ErrorIsVisible();
    VisiblePrefixInFirstWord(page, "Error");
    PrefixOfFirstWord(text, "Error");
  }

  lemma ErrorIsVisible()
    ensures forall i :: 0 <= i < |"Error"| ==> !IsSpace("Error"[i])
  {
    assert "Error" == ['E', 'r', 'r', 'o', 'r'];
  }

  /** A page with no visible text passes the caller's test: the fallback
      message is what gets indexed. */
  lemma BlankPageIsIndexed(url: string, fetch: PageFetch)
    requires fetch(url).Success? && IsBlank(fetch(url).value)
    ensures LooksLikeContent(ScrapeUrl(url, fetch))
  {
    assert NoTextMessage[0] == 'N' && "Error"[0] == 'E';
  }

  // ---------------------------------------------------------------------------
  // TextCleaner.clean_text
  // ---------------------------------------------------------------------------

  /** The punctuation `clean_text` keeps: `. , ! ? ; : -`. */
  predicate IsKeptPunctuation(c: char) {
    c == '.' || c == ',' || c == '!' || c == '?' || c == ';' || c == ':' || c == '-'
  }

  /** The characters the class `[\w\s.,!?;:-]` matches, which `clean_text` keeps. */
  predicate IsAllowed(c: char) {
    IsWordChar(c) || IsSpace(c) || IsKeptPunctuation(c)
  }

  /** `re.sub(r'\s+', ' ', s)`: every maximal run of whitespace becomes one ' '. */
  function CollapseSpace(s: string): (r: string)
    ensures forall i :: 0 <= i < |r| ==> IsSpace(r[i]) ==> r[i] == ' '
    ensures HasNoDoubleSpace(r)
    ensures RemoveSpace(r) == RemoveSpace(s)
    ensures Words(r) == Words(s)
    ensures r == [] <==> s == []
    ensures s != [] ==> (IsSpace(s[0]) <==> IsSpace(r[0]))
    ensures s != [] && !IsSpace(s[0]) ==> r[0] == s[0]
    decreases |s|
  {
    if s == [] then []
    else if IsSpace(s[0]) then
      var tail := CollapseSpace(s[LeadingSpace(s)..]);
      CollapseSpaceHead(s, tail);
      " " + tail
    else
      var tail := CollapseSpace(s[1..]);
      CollapseVisibleStep(s, tail);
      [s[0]] + tail
  }

  /** What collapsing promises about `r` as the image of `s`: the only
      whitespace left is ' ' and no two spaces touch; the visible characters
      and the words are unchanged; `r` is empty exactly when `s` is; and `r`
      begins with whitespace exactly when `s` does, a visible first character
      being kept as it is. `CollapseKeepsTrailingSpace` adds the trailing end. */
  predicate CollapsedFrom(r: string, s: string) {
    && OnlyPlainSpaces(r)
    && HasNoDoubleSpace(r)
    && RemoveSpace(r) == RemoveSpace(s)
    && Words(r) == Words(s)
    && (r == [] <==> s == [])
    && (s != [] ==> (IsSpace(s[0]) <==> IsSpace(r[0])))
    && (s != [] && !IsSpace(s[0]) ==> r[0] == s[0])
  }

  /** A leading whitespace run becomes one space in front of the collapsed rest. */
  lemma CollapseSpaceHead(s: string, tail: string)
    requires s != [] && IsSpace(s[0])
    requires CollapsedFrom(tail, s[LeadingSpace(s)..])
    ensures CollapsedFrom(" " + tail, s)
  {
    CollapseRun(s);
    WordsSpaceCons(' ', tail);
    RemoveSpaceCons(' ', tail);
    PlainInFront(' ', tail);
  }

  /** `r` ends with whitespace exactly when `s` does: a trailing run of
      whitespace leaves one ' ' behind, a visible last character is kept. */
  lemma {:induction false} CollapseKeepsTrailingSpace(s: string)
    ensures s != [] ==> CollapseSpace(s) != []
    ensures s != [] ==> (IsSpace(s[|s| - 1]) <==> IsSpace(CollapseSpace(s)[|CollapseSpace(s)| - 1]))
    decreases |s|
  {
    if s == [] {
    } else if IsSpace(s[0]) {
      var k := LeadingSpace(s);
      var tail := CollapseSpace(s[k..]);
      CollapseRun(s);
      CollapseSpaceRunHead(s);
      if k < |s| {
        CollapseKeepsTrailingSpace(s[k..]);
        SameLast(s, k);
        LastBehindFront(' ', tail);
      } else {
        assert IsSpace(s[|s| - 1]);
        assert tail == [];
      }
    } else {
      var tail := CollapseSpace(s[1..]);
      CollapseVisibleHead(s);
      if |s| > 1 {
        CollapseKeepsTrailingSpace(s[1..]);
        SameLast(s, 1);
        LastBehindFront(s[0], tail);
      } else {
        assert tail == [];
      }
    }
  }

  /** A suffix of `s` ends where `s` ends. */
  lemma SameLast(s: string, k: nat)
    requires k < |s|
    ensures s[k..][|s[k..]| - 1] == s[|s| - 1]
  {
  }

  /** A character in front of a non-empty text leaves its last character in place. */
  lemma LastBehindFront(c: char, tail: string)
    requires tail != []
    ensures ([c] + tail)[|[c] + tail| - 1] == tail[|tail| - 1]
  {
  }

  /** A character in front of a text of plain spaces and no double space keeps
      both properties when it is visible, or a plain space before a visible character. */
  lemma PlainInFront(c: char, tail: string)
    requires OnlyPlainSpaces(tail) && HasNoDoubleSpace(tail)
    requires IsSpace(c) ==> c == ' ' && (tail == [] || !IsSpace(tail[0]))
    ensures OnlyPlainSpaces([c] + tail) && HasNoDoubleSpace([c] + tail)
  {
    var r := [c] + tail;
    forall i | 0 < i < |r|
      ensures r[i] == tail[i - 1]
    {
    }
  }

  /** A visible first character is copied in front of the collapsed rest. */
  lemma CollapseVisibleStep(s: string, tail: string)
    requires s != [] && !IsSpace(s[0])
    requires CollapsedFrom(tail, s[1..])
    ensures CollapsedFrom([s[0]] + tail, s)
  {
    KeepVisibleHead(s, tail);
    KeepVisibleWords(s, tail);
    PlainInFront(s[0], tail);
  }

  /** A visible first character in front of a text with the same words,
      the same emptiness and the same leading whitespace as `s[1..]`. */
  lemma KeepVisibleWords(s: string, tail: string)
    requires s != [] && !IsSpace(s[0])
    requires Words(tail) == Words(s[1..])
    requires tail == [] <==> s[1..] == []
    requires s[1..] != [] ==> (IsSpace(s[1]) <==> IsSpace(tail[0]))
    ensures Words([s[0]] + tail) == Words(s)
  {
    assert s == [s[0]] + s[1..];
    if tail == [] || IsSpace(tail[0]) {
      WordsSplitOff(s[0], tail);
      WordsSplitOff(s[0], s[1..]);
    } else {
      WordsGlue(s[0], tail);
      WordsGlue(s[0], s[1..]);
    }
  }

  /** A visible first character is copied and the rest collapsed. */
  lemma CollapseVisibleHead(s: string)
    requires s != [] && !IsSpace(s[0])
    ensures CollapseSpace(s) == [s[0]] + CollapseSpace(s[1..])
  {
  }

  /** A leading whitespace run becomes one space before the collapsed rest. */
  lemma CollapseSpaceRunHead(s: string)
    requires s != [] && IsSpace(s[0])
    ensures CollapseSpace(s) == " " + CollapseSpace(s[LeadingSpace(s)..])
  {
  }

  /** A visible first character stays in front of the collapsed rest. */
  lemma KeepVisibleHead(s: string, tail: string)
    requires s != [] && !IsSpace(s[0])
    requires RemoveSpace(tail) == RemoveSpace(s[1..])
    ensures RemoveSpace([s[0]] + tail) == RemoveSpace(s)
  {
    RemoveSpaceCons(s[0], tail);
  }

  /** Dropping a leading run of whitespace keeps the visible characters. */
  lemma CollapseRun(s: string)
    requires s != [] && IsSpace(s[0])
    ensures var k := LeadingSpace(s); 0 < k && (k < |s| ==> !IsSpace(s[k]))
    ensures RemoveSpace(s[LeadingSpace(s)..]) == RemoveSpace(s)
    ensures Words(s[LeadingSpace(s)..]) == Words(s)
    ensures RemoveSpace(" ") == []
  {
    var k := LeadingSpace(s);
    CutAround(s, 0, k);
    RemoveSpaceAroundBlank([], s[..k], s[k..]);
    assert s == s[..k] + s[k..];
    WordsAppend(s[..k], s[k..]);
    SingleSpaceVanishes();
  }

  lemma SingleSpaceVanishes()
    ensures RemoveSpace(" ") == []
  {
    assert IsSpace(' ');
  }

  /** `re.sub(r'[^\w\s.,!?;:-]', '', s)`: the allowed characters of `s`, in order. */
  function DeleteDisallowed(s: string): (r: string)
    ensures forall i :: 0 <= i < |r| ==> IsAllowed(r[i])
    ensures IsSubsequence(r, s)
  {
    if s == [] then []
    else
      var tail := DeleteDisallowed(s[1..]);
      if IsAllowed(s[0]) then [s[0]] + tail else tail
  }

  /** Each allowed character occurs as often after the deletion as before; the others not at all. */
  lemma {:induction false} DeleteDisallowedCounts(s: string)
    ensures forall c :: multiset(DeleteDisallowed(s))[c] == if IsAllowed(c) then multiset(s)[c] else 0
  {
    if s != [] {
      DeleteDisallowedCounts(s[1..]);
      assert s == [s[0]] + s[1..];
    }
  }

  /** The only whitespace in `s` is the plain space. */
  predicate OnlyPlainSpaces(s: string) {
    forall i :: 0 <= i < |s| ==> IsSpace(s[i]) ==> s[i] == ' '
  }

  lemma {:induction false} DeleteDisallowedPlainSpaces(s: string)
    requires OnlyPlainSpaces(s)
    ensures OnlyPlainSpaces(DeleteDisallowed(s))
  {
    if s != [] {
      assert OnlyPlainSpaces(s[1..]);
      DeleteDisallowedPlainSpaces(s[1..]);
    }
  }

  lemma {:induction false} DeleteDisallowedAppend(a: string, b: string)
    ensures DeleteDisallowed(a + b) == DeleteDisallowed(a) + DeleteDisallowed(b)
    decreases |a|
  {
    if a == [] {
      assert a + b == b;
    } else {
      assert (a + b)[0] == a[0];
      assert (a + b)[1..] == a[1..] + b;
      DeleteDisallowedAppend(a[1..], b);
    }
  }

  lemma CommuteOnOne(c: char)
    ensures RemoveSpace(DeleteDisallowed([c])) == DeleteDisallowed(RemoveSpace([c]))
  {
    assert [c][1..] == [];
  }

  /** Deleting whitespace and deleting disallowed characters commute. */
  lemma {:induction false} DeleteDisallowedRemoveSpace(s: string)
    ensures RemoveSpace(DeleteDisallowed(s)) == DeleteDisallowed(RemoveSpace(s))
  {
    if s != [] {
      var head := [s[0]];
      var tail := s[1..];
      assert s == head + tail;
      DeleteDisallowedRemoveSpace(tail);
      CommuteOnOne(s[0]);
      DeleteDisallowedAppend(head, tail);
      RemoveSpaceAppend(DeleteDisallowed(head), DeleteDisallowed(tail));
      RemoveSpaceAppend(head, tail);
      DeleteDisallowedAppend(RemoveSpace(head), RemoveSpace(tail));
    }
  }

  /** `DeleteDisallowed` applied to each of several words. */
  function DeleteEach(words: seq<string>): (cleaned: seq<string>)
    ensures |cleaned| == |words|
    ensures forall k :: 0 <= k < |words| ==> cleaned[k] == DeleteDisallowed(words[k])
  {
    seq(|words|, k requires 0 <= k < |words| => DeleteDisallowed(words[k]))
  }

  lemma DeleteEachCons(w: string, ws: seq<string>)
    ensures DeleteEach([w] + ws) == [DeleteDisallowed(w)] + DeleteEach(ws)
  {
    assert DeleteEach([w] + ws)[1..] == DeleteEach(ws);
  }

  /** Deleting characters from a whitespace-free text leaves it whitespace-free. */
  lemma {:induction false} DeleteKeepsVisible(w: string)
    requires forall j :: 0 <= j < |w| ==> !IsSpace(w[j])
    ensures forall j :: 0 <= j < |DeleteDisallowed(w)| ==> !IsSpace(DeleteDisallowed(w)[j])
  {
    if w != [] {
      assert forall j :: 0 <= j < |w[1..]| ==> w[1..][j] == w[j + 1];
      DeleteKeepsVisible(w[1..]);
    }
  }

  /** A word with its disallowed characters deleted is one word, or none. */
  lemma DeletedWordWords(w: string)
    requires IsWord(w)
    ensures Words(DeleteDisallowed(w)) == NonEmpty([DeleteDisallowed(w)])
  {
    var d := DeleteDisallowed(w);
    DeleteKeepsVisible(w);
    NonEmptyCons(d, []);
    if d != [] {
      WordsOfWord(d);
    }
  }

  /** Deleting characters never joins or splits words, since whitespace is
      allowed: each word loses its disallowed characters, and a word that
      loses all of them disappears. */
  lemma {:induction false} DeleteWords(x: string)
    ensures Words(DeleteDisallowed(x)) == NonEmpty(DeleteEach(Words(x)))
    decreases |x|
  {
    if x != [] {
      if IsSpace(x[0]) {
        assert x == [x[0]] + x[1..];
        assert DeleteDisallowed(x) == [x[0]] + DeleteDisallowed(x[1..]);
        WordsSpaceCons(x[0], x[1..]);
        WordsSpaceCons(x[0], DeleteDisallowed(x[1..]));
        DeleteWords(x[1..]);
      } else {
        WordsLead(x);
        var k := WordEnd(x);
        var w, rest := x[..k], x[k..];
        assert x == w + rest;
        DeleteDisallowedAppend(w, rest);
        if rest != [] {
          assert rest == [rest[0]] + rest[1..];
          assert DeleteDisallowed(rest)[0] == rest[0];
        }
        WordsAppend(DeleteDisallowed(w), DeleteDisallowed(rest));
        DeleteWords(rest);
        assert IsWord(w);
        DeletedWordWords(w);
        DeleteEachCons(w, Words(rest));
        NonEmptyAppend([DeleteDisallowed(w)], DeleteEach(Words(rest)));
      }
    }
  }

  /** `TextCleaner.clean_text`: collapse whitespace runs, delete disallowed
      characters, strip. What remains is word characters, single spaces and
      the kept punctuation, picked in order out of the collapsed text, and its
      visible characters are exactly the input's allowed visible characters. */
  function CleanText(s: string): (r: string)
    ensures IsTrimmed(r)
    ensures forall i :: 0 <= i < |r| ==> IsWordChar(r[i]) || r[i] == ' ' || IsKeptPunctuation(r[i])
    ensures IsSubsequence(r, CollapseSpace(s))
    ensures RemoveSpace(r) == DeleteDisallowed(RemoveSpace(s))
    ensures Words(r) == NonEmpty(DeleteEach(Words(s)))
  {
    CleanedChars(s);
    CleanedSubsequence(s);
    CleanedContent(s);
    CleanedWords(s);
    Strip(DeleteDisallowed(CollapseSpace(s)))
  }

  lemma CleanedChars(s: string)
    ensures var r := Strip(DeleteDisallowed(CollapseSpace(s)));
      forall i :: 0 <= i < |r| ==> IsWordChar(r[i]) || r[i] == ' ' || IsKeptPunctuation(r[i])
  {
    var kept := DeleteDisallowed(CollapseSpace(s));
    DeleteDisallowedPlainSpaces(CollapseSpace(s));
    AllowedPlainChars(kept);
  }

  lemma AllowedPlainChars(kept: string)
    requires OnlyPlainSpaces(kept)
    requires forall i :: 0 <= i < |kept| ==> IsAllowed(kept[i])
    ensures var r := Strip(kept);
      forall i :: 0 <= i < |r| ==> IsWordChar(r[i]) || r[i] == ' ' || IsKeptPunctuation(r[i])
  {
    var r := Strip(kept);
    var k := LeadingSpace(kept);
    forall i | 0 <= i < |r|
      ensures IsWordChar(r[i]) || r[i] == ' ' || IsKeptPunctuation(r[i])
    {
      assert r[i] == kept[k + i];
    }
  }

  lemma CleanedSubsequence(s: string)
    ensures IsSubsequence(Strip(DeleteDisallowed(CollapseSpace(s))), CollapseSpace(s))
  {
    var collapsed := CollapseSpace(s);
    var kept := DeleteDisallowed(collapsed);
    StripIsSubsequence(kept);
    SubsequenceTransitive(Strip(kept), kept, collapsed);
  }

  lemma CleanedContent(s: string)
    ensures RemoveSpace(Strip(DeleteDisallowed(CollapseSpace(s)))) == DeleteDisallowed(RemoveSpace(s))
  {
    var collapsed := CollapseSpace(s);
    StripKeepsContent(DeleteDisallowed(collapsed));
    DeleteDisallowedRemoveSpace(collapsed);
  }

  lemma CleanedWords(s: string)
    ensures Words(Strip(DeleteDisallowed(CollapseSpace(s)))) == NonEmpty(DeleteEach(Words(s)))
  {
    StripKeepsWords(DeleteDisallowed(CollapseSpace(s)));
    DeleteWords(CollapseSpace(s));
  }

  /** `clean_text` is not idempotent: deleting '@' leaves two spaces side by
      side, which a second pass collapses. */
  lemma CleanTextNotIdempotent()
    ensures CleanText("a @ b") == "a  b"
    ensures CleanText(CleanText("a @ b")) == "a b"
  {
    FirstPass();
    SecondPass();
  }

  lemma FirstPass()
    ensures CleanText("a @ b") == "a  b"
  {
    CollapseExample();
    DeleteExample();
    StripExample("a  b");
  }

  lemma SecondPass()
    ensures CleanText("a  b") == "a b"
  {
    CollapseDoubleExample();
    DeleteKeepsExample();
    StripExample("a b");
  }

  lemma CollapseExample()
    ensures CollapseSpace("a @ b") == "a @ b"
  {
    CollapseSpaceAtSpaceB();
    var s := "a @ b";
    assert s[0] == 'a' && !IsSpace('a');
    assert s[1..] == " @ b";
    CollapseVisibleHead(s);
  }

  lemma CollapseB()
    ensures CollapseSpace("b") == "b"
  {
  }

  lemma CollapseSpaceB()
    ensures CollapseSpace(" b") == " b"
  {
    assert " b"[1..] == "b";
    assert LeadingSpace(" b") == 1;
    CollapseB();
  }

  lemma CollapseAtSpaceB()
    ensures CollapseSpace("@ b") == "@ b"
  {
    assert "@ b"[1..] == " b";
    assert !IsSpace('@');
    CollapseVisibleHead("@ b");
    CollapseSpaceB();
  }

  lemma CollapseSpaceAtSpaceB()
    ensures CollapseSpace(" @ b") == " @ b"
  {
    assert " @ b"[1..] == "@ b";
    assert !IsSpace('@');
    assert LeadingSpace(" @ b") == 1;
    CollapseAtSpaceB();
  }

  lemma DeleteExample()
    ensures DeleteDisallowed("a @ b") == "a  b"
  {
    assert !IsAllowed('@');
    assert DeleteDisallowed("b") == "b";
    assert DeleteDisallowed(" b") == " b" by {
      assert " b"[1..] == "b";
    }
    assert DeleteDisallowed("@ b") == " b" by {
      assert "@ b"[1..] == " b";
    }
    assert DeleteDisallowed(" @ b") == "  b" by {
      assert " @ b"[1..] == "@ b";
    }
    assert "a @ b"[1..] == " @ b";
  }

  lemma CollapseDoubleExample()
    ensures CollapseSpace("a  b") == "a b"
  {
    CollapseDoubleSpaceB();
    var s := "a  b";
    assert s[0] == 'a' && !IsSpace('a');
    assert s[1..] == "  b";
    CollapseVisibleHead(s);
  }

  lemma CollapseDoubleSpaceB()
    ensures CollapseSpace("  b") == " b"
  {
    assert LeadingSpace("  b") == 2 by {
      assert "  b"[1..] == " b";
      assert " b"[1..] == "b";
    }
    assert "  b"[2..] == "b";
    CollapseB();
  }

  lemma DeleteKeepsExample()
    ensures DeleteDisallowed("a b") == "a b"
  {
    assert DeleteDisallowed("b") == "b";
    assert DeleteDisallowed(" b") == " b" by {
      assert " b"[1..] == "b";
    }
    assert "a b"[1..] == " b";
  }

  /** A text starting with 'a' and ending with 'b' is its own strip. */
  lemma StripExample(s: string)
    requires |s| >= 2 && s[0] == 'a' && s[|s| - 1] == 'b'
    ensures Strip(s) == s
  {
    StripOfTrimmed(s);
  }
}
