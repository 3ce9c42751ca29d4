/**
 * The Python `str` primitives the analyzer relies on: the whitespace and
 * line-boundary character classes, `strip`, `splitlines`, `split("  ")` and
 * `join`, together with the facts about them the other modules use.
 */
module PyStr {

  // ---------------------------------------------------------------------------
  // Character classes
  // ---------------------------------------------------------------------------

  /** `str.isspace()`, which is also what `\s` matches in a `str` regular
      expression: the code points CPython classifies as whitespace. */
  predicate IsSpace(c: char) {
    var n := c as int;
    || 0x09 <= n <= 0x0D
    || 0x1C <= n <= 0x20
    || n == 0x85 || n == 0xA0 || n == 0x1680
    || 0x2000 <= n <= 0x200A
    || n == 0x2028 || n == 0x2029 || n == 0x202F || n == 0x205F || n == 0x3000
  }

  /** The line boundaries `str.splitlines()` breaks at (a "\r\n" pair counts once). */
  predicate IsLineBreak(c: char) {
    var n := c as int;
    || 0x0A <= n <= 0x0D
    || 0x1C <= n <= 0x1E
    || n == 0x85 || n == 0x2028 || n == 0x2029
  }

  /** `\w` restricted to ASCII: letters, digits and the underscore. */
  predicate IsWordChar(c: char) {
    || 'a' <= c <= 'z'
    || 'A' <= c <= 'Z'
    || '0' <= c <= '9'
    || c == '_'
  }

  /** Every character of `s` is whitespace; `not s.strip()` in Python. */
  predicate IsBlank(s: string) {
    forall i :: 0 <= i < |s| ==> IsSpace(s[i])
  }

  predicate HasNoLineBreak(s: string) {
    forall i :: 0 <= i < |s| ==> !IsLineBreak(s[i])
  }

  /** No two adjacent ' ' characters. */
  predicate HasNoDoubleSpace(s: string) {
    forall i :: 0 <= i < |s| - 1 ==> s[i] != ' ' || s[i + 1] != ' '
  }

  /** Neither the first nor the last character is whitespace. */
  predicate IsTrimmed(s: string) {
    s == [] || (!IsSpace(s[0]) && !IsSpace(s[|s| - 1]))
  }

  predicate StartsWith(s: string, prefix: string) {
    |prefix| <= |s| && s[..|prefix|] == prefix
  }

  predicate EndsWith(s: string, suffix: string) {
    |suffix| <= |s| && s[|s| - |suffix|..] == suffix
  }

  lemma ConcatEnds(a: string, b: string)
    ensures StartsWith(a + b, a) && EndsWith(a + b, b)
  {
    assert (a + b)[..|a|] == a;
    assert (a + b)[|a + b| - |b|..] == b;
  }

  lemma EndsWithTail(a: string, b: string, c: string)
    ensures a + (b + c) == a + b + c
    ensures EndsWith(a + (b + c), c)
  {
    ConcatEnds(a + b, c);
  }

  // ---------------------------------------------------------------------------
  // Deleting whitespace: the yardstick for "no content was lost"
  // ---------------------------------------------------------------------------

  /** `s` with every whitespace character deleted. */
  function RemoveSpace(s: string): (r: string)
    ensures |r| <= |s|
    ensures forall i :: 0 <= i < |r| ==> !IsSpace(r[i])
    ensures IsBlank(s) <==> r == []
  {
    if s == [] then []
    else (if IsSpace(s[0]) then [] else [s[0]]) + RemoveSpace(s[1..])
  }

  lemma {:induction false} RemoveSpaceAppend(a: string, b: string)
    ensures RemoveSpace(a + b) == RemoveSpace(a) + RemoveSpace(b)
    decreases |a|
  {
    if a == [] {
      assert a + b == b;
    } else {
      assert (a + b)[0] == a[0];
      assert (a + b)[1..] == a[1..] + b;
      RemoveSpaceAppend(a[1..], b);
    }
  }

  lemma RemoveSpaceCons(c: char, s: string)
    ensures RemoveSpace([c] + s) == (if IsSpace(c) then [] else [c]) + RemoveSpace(s)
  {
    assert ([c] + s)[0] == c;
    assert ([c] + s)[1..] == s;
  }

  /** The whitespace-free contents of a list of pieces, concatenated. */
  function RemoveSpaceAll(parts: seq<string>): (r: string)
    ensures forall i :: 0 <= i < |r| ==> !IsSpace(r[i])
  {
    if parts == [] then [] else RemoveSpace(parts[0]) + RemoveSpaceAll(parts[1..])
  }

  lemma {:induction false} RemoveSpaceAllAppend(a: seq<string>, b: seq<string>)
    ensures RemoveSpaceAll(a + b) == RemoveSpaceAll(a) + RemoveSpaceAll(b)
    decreases |a|
  {
    if a == [] {
      assert a + b == b;
    } else {
      assert (a + b)[0] == a[0];
      assert (a + b)[1..] == a[1..] + b;
      RemoveSpaceAllAppend(a[1..], b);
    }
  }

  // ---------------------------------------------------------------------------
  // str.strip()
  // ---------------------------------------------------------------------------

  /** The number of leading whitespace characters of `s`. */
  function LeadingSpace(s: string): (k: nat)
    ensures k <= |s|
    ensures forall i :: 0 <= i < k ==> IsSpace(s[i])
    ensures k < |s| ==> !IsSpace(s[k])
  {
    if s != [] && IsSpace(s[0]) then 1 + LeadingSpace(s[1..]) else 0
  }

  /** The length of `s` without its trailing whitespace. */
  function TrailingSpaceStart(s: string): (j: nat)
    ensures j <= |s|
    ensures forall i :: j <= i < |s| ==> IsSpace(s[i])
    ensures 0 < j ==> !IsSpace(s[j - 1])
  {
    if s != [] && IsSpace(s[|s| - 1]) then TrailingSpaceStart(s[..|s| - 1]) else |s|
  }

  /** `str.strip()`: the slice of `s` between its leading and its trailing
      whitespace; everything outside the slice is whitespace. */
  function Strip(s: string): (r: string)
    ensures IsTrimmed(r)
    ensures r == [] <==> IsBlank(s)
    ensures LeadingSpace(s) + |r| <= |s|
    ensures r == s[LeadingSpace(s)..LeadingSpace(s) + |r|]
    ensures forall i :: 0 <= i < LeadingSpace(s) ==> IsSpace(s[i])
    ensures forall i :: LeadingSpace(s) + |r| <= i < |s| ==> IsSpace(s[i])
  {
    var k := LeadingSpace(s);
    var j := TrailingSpaceStart(s);
    if k == |s| then [] else s[k..j]
  }

  lemma BlankAppend(a: string, b: string)
    requires IsBlank(a) && IsBlank(b)
    ensures IsBlank(a + b)
  {
  }

  lemma BlankRemoveSpace(s: string)
    requires IsBlank(s)
    ensures RemoveSpace(s) == []
  {
  }

  /** Stripping deletes only whitespace. */
  lemma StripKeepsContent(s: string)
    ensures RemoveSpace(Strip(s)) == RemoveSpace(s)
  {
    var k := LeadingSpace(s);
    var r := Strip(s);
    CutAround(s, k, k + |r|);
    RemoveSpaceBetweenBlanks(s[..k], r, s[k + |r|..]);
  }

  lemma RemoveSpaceBetweenBlanks(a: string, middle: string, b: string)
    requires IsBlank(a) && IsBlank(b)
    ensures RemoveSpace(a + middle + b) == RemoveSpace(middle)
  {
    RemoveSpaceAppend(a + middle, b);
    RemoveSpaceAppend(a, middle);
    BlankRemoveSpace(a);
    BlankRemoveSpace(b);
  }

  // ---------------------------------------------------------------------------
  // sep.join(parts)
  // ---------------------------------------------------------------------------

  /** `sep.join(parts)`: the parts in order with `sep` between neighbours. */
  function Join(sep: string, parts: seq<string>): (r: string)
    ensures |parts| == 0 ==> r == []
    ensures |parts| > 0 ==> StartsWith(r, parts[0]) && EndsWith(r, parts[|parts| - 1])
  {
    if |parts| == 0 then []
    else if |parts| == 1 then parts[0]
    else parts[0] + sep + Join(sep, parts[1..])
  }

  /** Joining with a whitespace separator adds no visible characters. */
  lemma {:induction false} JoinKeepsContent(sep: string, parts: seq<string>)
    requires IsBlank(sep)
    ensures RemoveSpace(Join(sep, parts)) == RemoveSpaceAll(parts)
  {
    if |parts| == 1 {
      assert parts[1..] == [];
      assert RemoveSpaceAll(parts) == RemoveSpace(parts[0]) + [];
    } else if |parts| > 1 {
      JoinKeepsContent(sep, parts[1..]);
      RemoveSpaceAppend(parts[0] + sep, Join(sep, parts[1..]));
      RemoveSpaceAppend(parts[0], sep);
      BlankRemoveSpace(sep);
    }
  }

  // ---------------------------------------------------------------------------
  // str.split("  ")
  // ---------------------------------------------------------------------------

  /** The index of the leftmost "  " in `s`, or |s| when there is none. */
  function FindDoubleSpace(s: string): (i: nat)
    ensures i <= |s|
    ensures i < |s| ==> i + 1 < |s| && s[i] == ' ' && s[i + 1] == ' '
    ensures forall k :: 0 <= k < i && k + 1 < |s| ==> s[k] != ' ' || s[k + 1] != ' '
  {
    if |s| < 2 then |s|
    else if s[0] == ' ' && s[1] == ' ' then 0
    else 1 + FindDoubleSpace(s[1..])
  }

  /** `s.split("  ")`: the pieces between the non-overlapping occurrences of
      two spaces, found left to right; there is always at least one piece. */
  function SplitDoubleSpace(s: string): (parts: seq<string>)
    ensures |parts| > 0
    ensures forall k :: 0 <= k < |parts| ==> HasNoDoubleSpace(parts[k])
    ensures HasNoLineBreak(s) ==> forall k :: 0 <= k < |parts| ==> HasNoLineBreak(parts[k])
    decreases |s|
  {
    var i := FindDoubleSpace(s);
    if i == |s| then [s] else [s[..i]] + SplitDoubleSpace(s[i + 2..])
  }

  lemma JoinCons(sep: string, part: string, rest: seq<string>)
    requires rest != []
    ensures Join(sep, [part] + rest) == part + sep + Join(sep, rest)
  {
    assert ([part] + rest)[1..] == rest;
  }

  lemma SplitDoubleSpaceStep(s: string)
    requires FindDoubleSpace(s) < |s|
    ensures var i := FindDoubleSpace(s);
      SplitDoubleSpace(s) == [s[..i]] + SplitDoubleSpace(s[i + 2..])
  {
  }

  lemma CutAround(s: string, i: nat, j: nat)
    requires i <= j <= |s|
    ensures s == s[..i] + s[i..j] + s[j..]
  {
  }

  /** Splitting on two spaces and joining back with two spaces gives the input. */
  lemma {:induction false} JoinSplitDoubleSpace(s: string)
    ensures Join("  ", SplitDoubleSpace(s)) == s
    decreases |s|
  {
    var i := FindDoubleSpace(s);
    if i < |s| {
      JoinSplitStep(s);
      JoinSplitDoubleSpace(s[i + 2..]);
      Reassemble(s, i);
    }
  }

  lemma Reassemble(s: string, i: nat)
    requires i + 1 < |s| && s[i] == ' ' && s[i + 1] == ' '
    ensures s[..i] + "  " + s[i + 2..] == s
  {
    assert s[i..i + 2] == "  ";
    CutAround(s, i, i + 2);
  }

  lemma JoinSplitStep(s: string)
    requires FindDoubleSpace(s) < |s|
    ensures var i := FindDoubleSpace(s);
      Join("  ", SplitDoubleSpace(s)) == s[..i] + "  " + Join("  ", SplitDoubleSpace(s[i + 2..]))
  {
    var i := FindDoubleSpace(s);
    var rest := SplitDoubleSpace(s[i + 2..]);
    SplitDoubleSpaceStep(s);
    assert SplitDoubleSpace(s) == [s[..i]] + rest;
    JoinCons("  ", s[..i], rest);
  }

  /** The pieces of `s.split("  ")` hold exactly the visible characters of `s`. */
  lemma SplitDoubleSpaceKeepsContent(s: string)
    ensures RemoveSpaceAll(SplitDoubleSpace(s)) == RemoveSpace(s)
  {
    JoinSplitDoubleSpace(s);
    DoubleSpaceIsBlank();
    JoinKeepsContent("  ", SplitDoubleSpace(s));
  }

  lemma DoubleSpaceIsBlank()
    ensures IsBlank("  ")
  {
  }

  // ---------------------------------------------------------------------------
  // str.splitlines()
  // ---------------------------------------------------------------------------

  /** The index of the first line boundary in `s`, or |s| when there is none. */
  function FindLineBreak(s: string): (i: nat)
    ensures i <= |s|
    ensures i < |s| ==> IsLineBreak(s[i])
    ensures forall k :: 0 <= k < i ==> !IsLineBreak(s[k])
  {
    if s == [] || IsLineBreak(s[0]) then 0 else 1 + FindLineBreak(s[1..])
  }

  /** `s.splitlines()`: the lines of `s` without their terminators. A "\r\n"
      pair ends one line, a final terminator opens no empty last line, and
      the empty string has no lines at all. */
  function SplitLines(s: string): (lines: seq<string>)
    ensures lines == [] <==> s == []
    ensures forall k :: 0 <= k < |lines| ==> HasNoLineBreak(lines[k])
    decreases |s|
  {
    if s == [] then []
    else
      var i := FindLineBreak(s);
      if i == |s| then [s]
      else
        [s[..i]] + SplitLines(s[NextLineStart(s)..])
  }

  /** Where the line after the first terminator of `s` starts. */
  function NextLineStart(s: string): (next: nat)
    requires FindLineBreak(s) < |s|
    ensures FindLineBreak(s) < next <= |s|
    ensures IsBlank(s[FindLineBreak(s)..next])
  {
    var i := FindLineBreak(s);
    if s[i] == '\r' && i + 1 < |s| && s[i + 1] == '\n' then i + 2 else i + 1
  }

  lemma SplitLinesStep(s: string)
    requires s != [] && FindLineBreak(s) < |s|
    ensures SplitLines(s) == [s[..FindLineBreak(s)]] + SplitLines(s[NextLineStart(s)..])
  {
  }

  lemma RemoveSpaceAroundBlank(a: string, gap: string, b: string)
    requires IsBlank(gap)
    ensures RemoveSpace(a + gap + b) == RemoveSpace(a) + RemoveSpace(b)
  {
    BlankRemoveSpace(gap);
    RemoveSpaceAppend(a + gap, b);
    RemoveSpaceAppend(a, gap);
  }

  /** Splitting into lines deletes only line terminators, which are whitespace. */
  lemma {:induction false} SplitLinesKeepsContent(s: string)
    ensures RemoveSpaceAll(SplitLines(s)) == RemoveSpace(s)
    decreases |s|
  {
    if s != [] {
      var i := FindLineBreak(s);
      if i == |s| {
        assert SplitLines(s) == [s];
        assert RemoveSpaceAll([s]) == RemoveSpace(s) + RemoveSpaceAll([]);
      } else {
        var next := NextLineStart(s);
        var rest := SplitLines(s[next..]);
        SplitLinesStep(s);
        CutAround(s, i, next);
        SplitLinesKeepsContent(s[next..]);
        assert ([s[..i]] + rest)[1..] == rest;
        assert RemoveSpaceAll([s[..i]] + rest) == RemoveSpace(s[..i]) + RemoveSpaceAll(rest);
        RemoveSpaceAroundBlank(s[..i], s[i..next], s[next..]);
      }
    }
  }

  /** A line without terminators followed by "\n" is split off as one line. */
  lemma SplitLinesCons(line: string, rest: string)
    requires HasNoLineBreak(line)
    ensures SplitLines(line + "\n" + rest) == [line] + SplitLines(rest)
  {
    var s := line + "\n" + rest;
    FindLineBreakAt(line, rest);
    assert s[..|line|] == line;
    assert s[|line| + 1..] == rest;
  }

  lemma {:induction false} FindLineBreakAt(line: string, rest: string)
    requires HasNoLineBreak(line)
    ensures FindLineBreak(line + "\n" + rest) == |line|
    decreases |line|
  {
    var s := line + "\n" + rest;
    if line != [] {
      assert s[1..] == line[1..] + "\n" + rest;
      FindLineBreakAt(line[1..], rest);
    }
  }

  // ---------------------------------------------------------------------------
  // Subsequences
  // ---------------------------------------------------------------------------

  /** `a` is obtained from `b` by deleting characters. */
  predicate IsSubsequence(a: string, b: string)
    decreases |b|
  {
    if a == [] then true
    else if b == [] then false
    else (a[0] == b[0] && IsSubsequence(a[1..], b[1..])) || IsSubsequence(a, b[1..])
  }

  lemma {:induction false} SubsequenceTransitive(a: string, b: string, c: string)
    requires IsSubsequence(a, b) && IsSubsequence(b, c)
    ensures IsSubsequence(a, c)
    decreases |c|
  {
    if a != [] {
      assert b != [] && c != [];
      if IsSubsequence(b, c[1..]) {
        SubsequenceTransitive(a, b, c[1..]);
      } else {
        assert b[0] == c[0] && IsSubsequence(b[1..], c[1..]);
        if a[0] == b[0] && IsSubsequence(a[1..], b[1..]) {
          SubsequenceTransitive(a[1..], b[1..], c[1..]);
        } else {
          SubsequenceTransitive(a, b[1..], c[1..]);
        }
      }
    }
  }

  lemma {:induction false} PrefixIsSubsequence(s: string, j: nat)
    requires j <= |s|
    ensures IsSubsequence(s[..j], s)
    decreases |s|
  {
    if j > 0 {
      assert s[..j][1..] == s[1..][..j - 1];
      PrefixIsSubsequence(s[1..], j - 1);
    }
  }

  lemma {:induction false} SuffixIsSubsequence(s: string, i: nat)
    requires i <= |s|
    ensures IsSubsequence(s[i..], s)
    decreases i
  {
    if i == 0 {
      assert s[0..] == s[..|s|];
      PrefixIsSubsequence(s, |s|);
    } else {
      assert s[1..][i - 1..] == s[i..];
      SuffixIsSubsequence(s[1..], i - 1);
    }
  }

  lemma SliceIsSubsequence(s: string, i: nat, j: nat)
    requires i <= j <= |s|
    ensures IsSubsequence(s[i..j], s)
  {
    assert s[i..j] == s[i..][..j - i];
    PrefixIsSubsequence(s[i..], j - i);
    SuffixIsSubsequence(s, i);
    SubsequenceTransitive(s[i..j], s[i..], s);
  }

  lemma StripIsSubsequence(s: string)
    ensures IsSubsequence(Strip(s), s)
  {
    var r := Strip(s);
    var k := LeadingSpace(s);
    SliceIsSubsequence(s, k, k + |r|);
  }
}
