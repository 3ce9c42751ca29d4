/**
 * Python's `s.split()` with no argument: the words of a text, that is its
 * maximal runs of non-whitespace characters, in order. It is the yardstick
 * for "whitespace was rearranged, but every word boundary survived".
 */
module PyWords {
  import opened PyStr

  /** A run of one or more non-whitespace characters. */
  predicate IsWord(w: string) {
    w != [] && forall j :: 0 <= j < |w| ==> !IsSpace(w[j])
  }

  /** `s.split()`: the maximal whitespace-free runs of `s`, left to right. */
  function Words(s: string): (words: seq<string>)
    ensures forall i :: 0 <= i < |words| ==> IsWord(words[i])
    ensures s != [] && !IsSpace(s[0]) ==> words != []
    ensures IsBlank(s) ==> words == []
    decreases |s|
  {
    if s == [] then []
    else
      var rest := Words(s[1..]);
      if IsSpace(s[0]) then rest
      else if |s| > 1 && !IsSpace(s[1]) then [[s[0]] + rest[0]] + rest[1..]
      else [[s[0]]] + rest
  }

  /** The words of several texts, text by text. */
  function WordsAll(parts: seq<string>): (words: seq<string>)
    ensures forall i :: 0 <= i < |words| ==> IsWord(words[i])
  {
    if parts == [] then [] else Words(parts[0]) + WordsAll(parts[1..])
  }

  /** The index of the first whitespace character of `s`, or |s|. */
  function WordEnd(s: string): (k: nat)
    ensures k <= |s|
    ensures forall i :: 0 <= i < k ==> !IsSpace(s[i])
    ensures k < |s| ==> IsSpace(s[k])
  {
    if s != [] && !IsSpace(s[0]) then 1 + WordEnd(s[1..]) else 0
  }

  /** A whitespace character in front of a text adds no word. */
  lemma WordsSpaceCons(c: char, x: string)
    requires IsSpace(c)
    ensures Words([c] + x) == Words(x)
  {
    assert ([c] + x)[1..] == x;
  }

  /** A visible character in front of a visible character joins its word. */
  lemma WordsGlue(c: char, x: string)
    requires !IsSpace(c) && x != [] && !IsSpace(x[0])
    ensures Words([c] + x) == [[c] + Words(x)[0]] + Words(x)[1..]
  {
    assert ([c] + x)[1..] == x;
    assert ([c] + x)[1] == x[0];
  }

  /** A visible character in front of whitespace (or of nothing) is a word of its own. */
  lemma WordsSplitOff(c: char, x: string)
    requires !IsSpace(c) && (x == [] || IsSpace(x[0]))
    ensures Words([c] + x) == [[c]] + Words(x)
  {
    assert ([c] + x)[1..] == x;
    if x != [] {
      assert ([c] + x)[1] == x[0];
    }
  }

  /** Two texts that meet at whitespace have the words of each, in order. */
  lemma {:induction false} WordsAppend(a: string, b: string)
    requires a == [] || b == [] || IsSpace(a[|a| - 1]) || IsSpace(b[0])
    ensures Words(a + b) == Words(a) + Words(b)
    decreases |a|
  {
    if a == [] {
      assert a + b == b;
    } else if b == [] {
      assert a + b == a;
    } else {
      var c, t := a[0], a[1..];
      assert a == [c] + t;
      assert a + b == [c] + (t + b);
      if t != [] {
        assert t[|t| - 1] == a[|a| - 1];
      }
      WordsAppend(t, b);
      WordsAppendStep(c, t, b);
    }
  }

  /** One character in front of `t + b`, given the words of `t + b`. */
  lemma WordsAppendStep(c: char, t: string, b: string)
    requires b != [] && (t != [] || IsSpace(c) || IsSpace(b[0]))
    requires Words(t + b) == Words(t) + Words(b)
    ensures Words([c] + (t + b)) == Words([c] + t) + Words(b)
  {
    if IsSpace(c) {
      WordsSpaceCons(c, t + b);
      WordsSpaceCons(c, t);
    } else if t != [] && !IsSpace(t[0]) {
      WordsAppendGlue(c, t, b);
    } else {
      WordsAppendSplit(c, t, b);
    }
  }

  lemma WordsAppendSplit(c: char, t: string, b: string)
    requires !IsSpace(c) && b != []
    requires t == [] ==> IsSpace(b[0])
    requires t != [] ==> IsSpace(t[0])
    requires Words(t + b) == Words(t) + Words(b)
    ensures Words([c] + (t + b)) == Words([c] + t) + Words(b)
  {
    if t == [] {
      WordsSplitBeforeSpace(c, b);
    } else {
      WordsSplitBeforeText(c, t, b);
    }
  }

  lemma WordsSplitBeforeText(c: char, t: string, b: string)
    requires !IsSpace(c) && t != [] && IsSpace(t[0])
    requires Words(t + b) == Words(t) + Words(b)
    ensures Words([c] + (t + b)) == Words([c] + t) + Words(b)
  {
    assert (t + b)[0] == t[0];
    WordsSplitOff(c, t + b);
    WordsSplitOff(c, t);
  }

  lemma WordsSplitBeforeSpace(c: char, b: string)
    requires !IsSpace(c) && b != [] && IsSpace(b[0])
    ensures Words([c] + ([] + b)) == Words([c] + []) + Words(b)
  {
    assert [] + b == b;
    assert [c] + [] == [c];
    WordsSplitOff(c, b);
    WordsSplitOff(c, []);
  }

  lemma WordsAppendGlue(c: char, t: string, b: string)
    requires !IsSpace(c) && t != [] && !IsSpace(t[0])
    requires Words(t + b) == Words(t) + Words(b)
    ensures Words([c] + (t + b)) == Words([c] + t) + Words(b)
  {
    assert (t + b)[0] == t[0];
    WordsGlue(c, t + b);
    WordsGlue(c, t);
    GlueFront([c], Words(t), Words(b));
  }

  /** Gluing a prefix onto the first of `wt + wb` is gluing it onto the first of `wt`. */
  lemma GlueFront(x: string, wt: seq<string>, wb: seq<string>)
    requires wt != []
    ensures [x + (wt + wb)[0]] + (wt + wb)[1..] == ([x + wt[0]] + wt[1..]) + wb
  {
    assert (wt + wb)[0] == wt[0];
    assert (wt + wb)[1..] == wt[1..] + wb;
  }

  /** A word is its own only word. */
  lemma {:induction false} WordsOfWord(w: string)
    requires IsWord(w)
    ensures Words(w) == [w]
    decreases |w|
  {
    var t := w[1..];
    assert w == [w[0]] + t;
    if t == [] {
      assert w == [w[0]];
      WordsSplitOff(w[0], t);
      assert Words(w) == [[w[0]]] + Words([]);
    } else {
      assert forall j :: 0 <= j < |t| ==> t[j] == w[j + 1];
      WordsOfWord(t);
      WordsGlue(w[0], t);
    }
  }

  /** A text that opens with a visible character opens with the word up to its first whitespace. */
  lemma WordsLead(s: string)
    requires s != [] && !IsSpace(s[0])
    ensures 0 < WordEnd(s)
    ensures Words(s) == [s[..WordEnd(s)]] + Words(s[WordEnd(s)..])
  {
    var k := WordEnd(s);
    assert s == s[..k] + s[k..];
    WordsAppend(s[..k], s[k..]);
    WordsOfWord(s[..k]);
  }

  /** Whitespace around a text adds no words. */
  lemma WordsBetweenBlanks(a: string, middle: string, b: string)
    requires IsBlank(a) && IsBlank(b)
    ensures Words(a + middle + b) == Words(middle)
  {
    assert a + middle + b == a + (middle + b);
    if a != [] {
      WordsAppend(a, middle + b);
    } else {
      assert a + (middle + b) == middle + b;
    }
    if b != [] {
      WordsAppend(middle, b);
    } else {
      assert middle + b == middle;
    }
  }

  /** A non-empty run of whitespace between two texts separates their words. */
  lemma WordsAroundGap(a: string, gap: string, b: string)
    requires gap != [] && IsBlank(gap)
    ensures Words(a + gap + b) == Words(a) + Words(b)
  {
    WordsBeforeGap(a, gap);
    ConcatEnds(a, gap);
    WordsAfterGap(a + gap, gap, b);
  }

  lemma WordsBeforeGap(a: string, gap: string)
    requires gap != [] && IsBlank(gap)
    ensures Words(a + gap) == Words(a)
  {
    assert IsSpace(gap[0]);
    WordsAppend(a, gap);
  }

  lemma WordsAfterGap(front: string, gap: string, b: string)
    requires gap != [] && IsBlank(gap) && EndsWith(front, gap)
    ensures Words(front + b) == Words(front) + Words(b)
  {
    assert front[|front| - 1] == gap[|gap| - 1];
    WordsAppend(front, b);
  }

  lemma {:induction false} WordsAllAppend(a: seq<string>, b: seq<string>)
    ensures WordsAll(a + b) == WordsAll(a) + WordsAll(b)
    decreases |a|
  {
    if a == [] {
      assert a + b == b;
    } else {
      assert (a + b)[0] == a[0];
      assert (a + b)[1..] == a[1..] + b;
      WordsAllAppend(a[1..], b);
    }
  }

  lemma WordsAllCons(part: string, rest: seq<string>)
    ensures WordsAll([part] + rest) == Words(part) + WordsAll(rest)
  {
    assert ([part] + rest)[1..] == rest;
  }

  /** Joining with a non-empty whitespace separator keeps every part's words apart. */
  lemma {:induction false} JoinKeepsWords(sep: string, parts: seq<string>)
    requires sep != [] && IsBlank(sep)
    ensures Words(Join(sep, parts)) == WordsAll(parts)
  {
    if |parts| == 1 {
      assert WordsAll(parts) == Words(parts[0]) + WordsAll([]);
    } else if |parts| > 1 {
      JoinKeepsWords(sep, parts[1..]);
      WordsAroundGap(parts[0], sep, Join(sep, parts[1..]));
    }
  }

  /** Stripping removes no word. */
  lemma StripKeepsWords(s: string)
    ensures Words(Strip(s)) == Words(s)
  {
    var k := LeadingSpace(s);
    var r := Strip(s);
    CutAround(s, k, k + |r|);
    WordsBetweenBlanks(s[..k], r, s[k + |r|..]);
  }

  /** The lines of a text hold its words, line by line: a line boundary is whitespace. */
  lemma {:induction false} SplitLinesKeepsWords(s: string)
    ensures WordsAll(SplitLines(s)) == Words(s)
    decreases |s|
  {
    if s != [] {
      var i := FindLineBreak(s);
      if i == |s| {
        assert SplitLines(s) == [s];
        assert WordsAll([s]) == Words(s) + WordsAll([]);
      } else {
        var next := NextLineStart(s);
        SplitLinesStep(s);
        CutAround(s, i, next);
        SplitLinesKeepsWords(s[next..]);
        WordsAllCons(s[..i], SplitLines(s[next..]));
        WordsAroundGap(s[..i], s[i..next], s[next..]);
      }
    }
  }

  /** The pieces of `s.split("  ")` hold the words of `s`, piece by piece. */
  lemma SplitDoubleSpaceKeepsWords(s: string)
    ensures WordsAll(SplitDoubleSpace(s)) == Words(s)
  {
    JoinSplitDoubleSpace(s);
    DoubleSpaceIsBlank();
    JoinKeepsWords("  ", SplitDoubleSpace(s));
  }

  /** A text opening with a visible character starts with its first word. */
  lemma FirstWordIsPrefix(s: string)
    requires s != [] && !IsSpace(s[0])
    ensures Words(s) != [] && StartsWith(s, Words(s)[0])
  {
    WordsLead(s);
  }

  /** A visible prefix of a text lies inside the text's first word. */
  lemma VisiblePrefixInFirstWord(s: string, p: string)
    requires p != [] && StartsWith(s, p)
    requires forall i :: 0 <= i < |p| ==> !IsSpace(p[i])
    ensures Words(s) != [] && StartsWith(Words(s)[0], p)
  {
    assert s[0] == p[0];
    WordsLead(s);
    assert forall i :: 0 <= i < |p| ==> s[i] == p[i];
    var k := WordEnd(s);
    assert s[..k][..|p|] == s[..|p|];
  }

  /** A text opening with a visible character opens with every prefix of its first word. */
  lemma PrefixOfFirstWord(s: string, p: string)
    requires s != [] && !IsSpace(s[0])
    requires Words(s) != [] && StartsWith(Words(s)[0], p)
    ensures StartsWith(s, p)
  {
    FirstWordIsPrefix(s);
    var w := Words(s)[0];
    assert s[..|w|][..|p|] == s[..|p|];
  }
}
