/** The text processor of scripts/ml_functions.py: text statistics, the
    merged-file layout and the backup name. The processor reads from an
    input directory, modelled as a map from file name to content; what it
    writes is returned instead of written. */
module MlFunctions {
  import opened Seqs
  import opened PyStr
  import opened PosixPath
  import opened WordCounter
  import opened Common

  // ------------------------------------------------------------ reading

  /** `read_text_file`: the content of `filename` in the input directory,
      or the error `open` raises when there is no such file. */
  function ReadTextFile(inputFiles: map<string, string>, filename: string): (r: Result<string>)
    ensures r.Ok? <==> filename in inputFiles
    ensures r.Ok? ==> r.value == inputFiles[filename]
    ensures r.Err? ==> r.error == NotFound(filename)
  {
    if filename in inputFiles then Ok(inputFiles[filename]) else Err(NotFound(filename))
  }

  // --------------------------------------------------------- sentences

  /** A character of the class `[.!?]`. */
  predicate IsSentenceDelimiter(c: char) {
    c == '.' || c == '!' || c == '?'
  }

  predicate IsSentenceChar(c: char) {
    !IsSentenceDelimiter(c)
  }

  /** A piece of `re.split(r'[.!?]+', text)`: no delimiter inside. */
  predicate IsFragment(f: string) {
    forall i :: 0 <= i < |f| ==> IsSentenceChar(f[i])
  }

  /** A run of delimiters. */
  predicate IsDelimiterRun(r: string) {
    forall i :: 0 <= i < |r| ==> IsSentenceDelimiter(r[i])
  }

  /** `re.split(r'[.!?]+', s)`: the text between maximal runs of `.`, `!`
      and `?`, in order. The text before the first run and after the last
      one are pieces too, even when empty, so there is always one piece
      more than there are runs. */
  function SplitSentences(s: string): (pieces: seq<string>)
    ensures pieces != []
    ensures forall i :: 0 <= i < |pieces| ==> IsFragment(pieces[i])
    decreases |s|
  {
    var k := Span(s, IsSentenceChar);
    if k == |s| then [s]
    else
      var t := s[k..];
      var d := Span(t, IsSentenceDelimiter);
      assert d > 0;
      [s[..k]] + SplitSentences(t[d..])
  }

  /** A text that starts with a delimiter starts with a maximal run of them. */
  lemma DelimiterRun(t: string)
    requires t != [] && IsSentenceDelimiter(t[0])
    ensures var d := Span(t, IsSentenceDelimiter);
      && 0 < d
      && IsDelimiterRun(t[..d])
      && (t[d..] == [] || IsSentenceChar(t[d..][0]))
      && t == t[..d] + t[d..]
  {
    var d := Span(t, IsSentenceDelimiter);
    assert forall i :: 0 <= i < d ==> t[..d][i] == t[i];
    assert d < |t| ==> t[d..][0] == t[d];
  }

  /** The number of sentences is one more than the number of delimiter runs. */
  lemma {:induction false} SentenceCount(s: string)
    ensures |SplitSentences(s)| == 1 + RunCount(s, IsSentenceDelimiter)
    decreases |s|
  {
    var k := Span(s, IsSentenceChar);
    if k == |s| {
      assert s + [] == s;
      RunCountSkip(s, [], IsSentenceDelimiter);
    } else {
      var t := s[k..];
      var d := Span(t, IsSentenceDelimiter);
      DelimiterRun(t);
      assert s == s[..k] + t;
      RunCountSkip(s[..k], t, IsSentenceDelimiter);
      RunCountRun(t[..d], t[d..], IsSentenceDelimiter);
      SentenceCount(t[d..]);
    }
  }

  /** Read one after the other, the sentences are exactly the characters of
      `s` other than delimiters: only the delimiter runs are dropped. */
  lemma {:induction false} SentencesConcat(s: string)
    ensures Concat(SplitSentences(s)) == Filter(s, IsSentenceChar)
    decreases |s|
  {
    var k := Span(s, IsSentenceChar);
    if k == |s| {
      FilterAll(s, IsSentenceChar);
      assert SplitSentences(s) == [s];
      assert Concat([s]) == s + Concat([]);
    } else {
      var t := s[k..];
      var d := Span(t, IsSentenceDelimiter);
      DelimiterRun(t);
      assert SplitSentences(s) == [s[..k]] + SplitSentences(t[d..]);
      SentencesConcat(t[d..]);
      SentencesConcatStep(s, k, t, d);
    }
  }

  /** The step of `SentencesConcat`: a fragment, a delimiter run, the rest. */
  lemma SentencesConcatStep(s: string, k: nat, t: string, d: nat)
    requires k < |s| && t == s[k..]
    requires forall i :: 0 <= i < k ==> IsSentenceChar(s[i])
    requires d <= |t| && IsDelimiterRun(t[..d]) && t == t[..d] + t[d..]
    ensures s[..k] + Filter(t[d..], IsSentenceChar) == Filter(s, IsSentenceChar)
  {
    var a, run, rest := s[..k], t[..d], t[d..];
    assert s == a + (run + rest);
    assert forall i :: 0 <= i < |a| ==> a[i] == s[i];
    FilterAll(a, IsSentenceChar);
    FilterNone(run, IsSentenceChar);
    FilterAppend(run, rest, IsSentenceChar);
    assert Filter(run + rest, IsSentenceChar) == Filter(rest, IsSentenceChar);
    FilterAppend(a, run + rest, IsSentenceChar);
  }

  /** Fragments that can be told apart once joined: only the first and the
      last may be empty. */
  predicate Separable(pieces: seq<string>) {
    && (forall i :: 0 <= i < |pieces| ==> IsFragment(pieces[i]))
    && (forall i :: 0 < i < |pieces| - 1 ==> pieces[i] != [])
  }

  /** Splitting fragments joined by a single delimiter gives them back. */
  lemma {:induction false} SplitSentencesJoin(pieces: seq<string>, delim: char)
    requires pieces != [] && Separable(pieces)
    requires IsSentenceDelimiter(delim)
    ensures SplitSentences(Join(pieces, [delim])) == pieces
    decreases |pieces|
  {
    var p := pieces[0];
    var s := Join(pieces, [delim]);
    if |pieces| == 1 {
      assert s == p;
      assert p + [] == p;
      SpanOfRun(p, [], IsSentenceChar);
    } else {
      var rest := Join(pieces[1..], [delim]);
      var t := [delim] + rest;
      assert s == p + t;
      SpanOfRun(p, t, IsSentenceChar);
      assert s[|p|..] == t;
      assert Separable(pieces[1..]) by {
        forall i | 0 <= i < |pieces[1..]| ensures IsFragment(pieces[1..][i]) {
          assert pieces[1..][i] == pieces[i + 1];
        }
      }
      assert |pieces[1..]| > 1 ==> pieces[1..][0] != [] by {
        if |pieces| > 2 { assert pieces[1..][0] == pieces[1]; }
      }
      JoinHead(pieces[1..], delim);
      assert t[..1] + t[1..] == t && t[1..] == rest;
      SpanOfRun(t[..1], rest, IsSentenceDelimiter);
      assert Span(t, IsSentenceDelimiter) == 1;
      assert s[..|p|] == p;
      SplitSentencesJoin(pieces[1..], delim);
      assert pieces == [p] + pieces[1..];
    }
  }

  /** Separable fragments joined by a delimiter, the first of them not
      empty unless it is the only one, do not start with a delimiter. */
  lemma JoinHead(pieces: seq<string>, delim: char)
    requires pieces != [] && Separable(pieces)
    requires |pieces| > 1 ==> pieces[0] != []
    ensures var s := Join(pieces, [delim]);
      s == [] || IsSentenceChar(s[0])
  {
    if |pieces| > 1 {
      assert Join(pieces, [delim]) == pieces[0] + [delim] + Join(pieces[1..], [delim]);
    }
  }

  /** A delimiter added to a text that does not end in one adds an empty
      last sentence, which is counted: `"Hi."` has two sentences and
      `"A. B."` three, the last of them empty. */
  lemma {:induction false} TrailingDelimiter(s: string, delim: char)
    requires IsSentenceDelimiter(delim)
    requires s == [] || IsSentenceChar(s[|s| - 1])
    ensures SplitSentences(s + [delim]) == SplitSentences(s) + [""]
    ensures IsFragment(s) ==> SplitSentences(s + [delim]) == [s, ""]
    decreases |s|
  {
    if IsFragment(s) {
      TrailingFragment(s, delim);
    } else {
      var k := Span(s, IsSentenceChar);
      var t := s[k..];
      var d := Span(t, IsSentenceDelimiter);
      TrailingRest(s, k, t, d);
      var u := t[d..];
      TrailingStep(s, delim, k, t, d);
      TrailingDelimiter(u, delim);
      TrailingCombine(SplitSentences(s), SplitSentences(s + [delim]), s[..k], SplitSentences(u));
    }
  }

  /** The sentences of the longer text are those of the shorter and `""`. */
  lemma TrailingCombine(before: seq<string>, after: seq<string>, first: string, rest: seq<string>)
    requires before == [first] + rest
    requires after == [first] + (rest + [""])
    ensures after == before + [""]
  {
  }

  /** In a text that holds a delimiter but does not end with one, the
      first delimiter run is followed by a rest that does not end with one
      either. */
  lemma TrailingRest(s: string, k: nat, t: string, d: nat)
    requires !IsFragment(s) && IsSentenceChar(s[|s| - 1])
    requires k == Span(s, IsSentenceChar) && t == s[k..]
    requires d == Span(t, IsSentenceDelimiter)
    ensures k < |s| && d < |t|
    ensures IsSentenceChar(t[d..][|t[d..]| - 1])
  {
    assert t[|t| - 1] == s[|s| - 1];
  }

  /** `TrailingDelimiter` for a single fragment. */
  lemma TrailingFragment(s: string, delim: char)
    requires IsFragment(s) && IsSentenceDelimiter(delim)
    ensures SplitSentences(s) == [s]
    ensures SplitSentences(s + [delim]) == [s, ""]
  {
    assert s + [] == s;
    SpanOfRun(s, [], IsSentenceChar);
    SpanOfRun(s, [delim], IsSentenceChar);
    assert (s + [delim])[..|s|] == s && (s + [delim])[|s|..] == [delim];
    assert [delim] + [] == [delim];
    SpanOfRun([delim], [], IsSentenceDelimiter);
    assert [delim][1..] == [];
  }

  /** The step of `TrailingDelimiter`: the first fragment and delimiter run
      of `s` are those of `s + [delim]`. */
  lemma TrailingStep(s: string, delim: char, k: nat, t: string, d: nat)
    requires k == Span(s, IsSentenceChar) && k < |s| && t == s[k..]
    requires d == Span(t, IsSentenceDelimiter) && d < |t|
    ensures SplitSentences(s) == [s[..k]] + SplitSentences(t[d..])
    ensures SplitSentences(s + [delim]) == [s[..k]] + SplitSentences(t[d..] + [delim])
  {
    SpanOfPrefix(s, [delim], IsSentenceChar);
    var s' := s + [delim];
    assert s'[..k] == s[..k];
    assert s'[k..] == t + [delim];
    SpanOfPrefix(t, [delim], IsSentenceDelimiter);
    assert (t + [delim])[d..] == t[d..] + [delim];
  }

  /** Fragments with a delimiter run between each two of them. */
  function Punctuated(pieces: seq<string>, runs: seq<string>): string
    requires |pieces| == |runs| + 1
    decreases |runs|
  {
    if runs == [] then pieces[0]
    else pieces[0] + runs[0] + Punctuated(pieces[1..], runs[1..])
  }

  /** Separable fragments and non-empty delimiter runs of any length and
      any mix of `.`, `!` and `?`. */
  predicate IsPunctuation(pieces: seq<string>, runs: seq<string>) {
    && |pieces| == |runs| + 1
    && Separable(pieces)
    && (forall i :: 0 <= i < |runs| ==> runs[i] != [] && IsDelimiterRun(runs[i]))
  }

  /** Text punctuated this way that has a second fragment starts with a
      character that is no delimiter. */
  lemma PunctuatedHead(pieces: seq<string>, runs: seq<string>)
    requires IsPunctuation(pieces, runs)
    requires runs != [] ==> pieces[0] != []
    ensures var s := Punctuated(pieces, runs);
      s == [] || IsSentenceChar(s[0])
  {
    if runs != [] {
      assert Punctuated(pieces, runs)[0] == pieces[0][0];
    }
  }

  /** The tail of a punctuation layout is one too. */
  lemma PunctuationTail(pieces: seq<string>, runs: seq<string>)
    requires IsPunctuation(pieces, runs) && runs != []
    ensures IsPunctuation(pieces[1..], runs[1..])
    ensures |runs| > 1 ==> pieces[1..][0] != []
  {
    forall i | 0 <= i < |pieces[1..]| ensures IsFragment(pieces[1..][i]) {
      assert pieces[1..][i] == pieces[i + 1];
    }
    forall i | 0 <= i < |runs[1..]| ensures runs[1..][i] != [] && IsDelimiterRun(runs[1..][i]) {
      assert runs[1..][i] == runs[i + 1];
    }
    if |runs| > 1 {
      assert pieces[1..][0] == pieces[1];
    }
  }

  /** `re.split(r'[.!?]+', …)` of fragments separated by delimiter runs of
      any length and mix gives back exactly the fragments, so the sentence
      boundaries are the maximal delimiter runs: `"a?!b"` is `["a", "b"]`. */
  lemma {:induction false} SplitSentencesOfPunctuated(pieces: seq<string>, runs: seq<string>)
    requires IsPunctuation(pieces, runs)
    ensures SplitSentences(Punctuated(pieces, runs)) == pieces
    decreases |runs|
  {
    var p := pieces[0];
    var s := Punctuated(pieces, runs);
    if runs == [] {
      assert p + [] == p;
      SpanOfRun(p, [], IsSentenceChar);
    } else {
      var r := runs[0];
      var rest := Punctuated(pieces[1..], runs[1..]);
      PunctuationTail(pieces, runs);
      PunctuatedHead(pieces[1..], runs[1..]);
      PunctuatedStep(p, r, rest);
      SplitSentencesOfPunctuated(pieces[1..], runs[1..]);
      assert pieces == [p] + pieces[1..];
    }
  }

  /** The step of `SplitSentencesOfPunctuated`: a fragment, a delimiter run
      and a text that does not start with a delimiter. */
  lemma PunctuatedStep(p: string, r: string, rest: string)
    requires IsFragment(p)
    requires r != [] && IsDelimiterRun(r)
    requires rest == [] || IsSentenceChar(rest[0])
    ensures SplitSentences(p + r + rest) == [p] + SplitSentences(rest)
  {
    var s := p + r + rest;
    var t := r + rest;
    assert s == p + t;
    assert t != [] && !IsSentenceChar(t[0]);
    SpanOfRun(p, t, IsSentenceChar);
    assert s[|p|..] == t && s[..|p|] == p;
    SpanOfRun(r, rest, IsSentenceDelimiter);
    assert t[|r|..] == rest;
  }

  /** `"a?!b. c"` splits into `["a", "b", " c"]`. */
  lemma MixedDelimiters()
    ensures SplitSentences("a?!b. c") == ["a", "b", " c"]
  {
    assert "a?!b. c" == Punctuated(["a", "b", " c"], ["?!", "."]);
    SplitSentencesOfPunctuated(["a", "b", " c"], ["?!", "."]);
  }

  // ---------------------------------------------------------- analysis

  /** The dictionary `analyze_text` returns. */
  datatype Analysis = Analysis(
    wordCount: nat,
    characterCount: nat,
    sentenceCount: nat,
    averageWordLength: Average,
    mostCommonWords: seq<Entry>)

  /** `analyze_text(text)`: words are the maximal non-whitespace runs, every
      character counts, sentences are one more than the delimiter runs, the
      average word length has the non-whitespace characters over the words
      (or is 0 without words), and the five most common words are ranked by
      count, ties in first-occurrence order. */
  function AnalyzeText(text: string): (a: Analysis)
    ensures a.wordCount == RunCount(text, IsWordChar)
    ensures a.characterCount == |text|
    ensures a.sentenceCount == 1 + RunCount(text, IsSentenceDelimiter)
    ensures a.averageWordLength ==
      if a.wordCount == 0 then Zero else Ratio(|Filter(text, IsWordChar)|, a.wordCount)
    ensures IsMostCommon(Words(text), 5, a.mostCommonWords)
  {
    var words := Words(text);
    var sentences := SplitSentences(text);
    WordCount(text);
    SentenceCount(text);
    WordLengths(text);
    Analysis(
      |words|,
      |text|,
      |sentences|,
      if words != [] then Ratio(TotalLength(words), |words|) else Zero,
      MostCommon(words, 5))
  }

  /** Every word has at least one character and no count exceeds the text's
      length; there is always at least one sentence; the ranking has at
      most five entries and no more than there are distinct words. */
  lemma AnalyzeTextBounds(text: string)
    ensures var a := AnalyzeText(text);
      && a.wordCount <= a.characterCount
      && (a.averageWordLength.Ratio? ==>
            0 < a.averageWordLength.denominator <= a.averageWordLength.numerator <= a.characterCount)
      && a.sentenceCount >= 1
      && |a.mostCommonWords| <= 5
      && |a.mostCommonWords| <= |set w | w in Words(text)|
      && NoDup(Keys(a.mostCommonWords))
  {
    var a := AnalyzeText(text);
    WordCount(text);
    WordLengths(text);
    RankingSize(Words(text), 5, a.mostCommonWords);
  }

  /** Text of whitespace only has no words, average 0 and an empty ranking. */
  lemma AnalyzeBlankText(text: string)
    requires AllWhitespace(text)
    ensures var a := AnalyzeText(text);
      a.wordCount == 0 && a.averageWordLength == Zero && a.mostCommonWords == []
  {
    assert text + [] == text;
    WordsSkipLeading(text, []);
    assert Words(text) == [];
  }

  /** `analyze_text("")`. */
  lemma AnalyzeEmptyText()
    ensures AnalyzeText("") == Analysis(0, 0, 1, Zero, [])
  {
    AnalyzeBlankText("");
  }

  /** `analyze_text("a a b")` counts three words, one sentence, and ranks
      `a` twice before `b` once. */
  lemma AnalyzeSmallText()
    ensures var a := AnalyzeText("a a b");
      a.wordCount == 3 && a.sentenceCount == 1 && a.averageWordLength == Ratio(3, 3)
      && a.mostCommonWords == [("a", 2), ("b", 1)]
  {
    var words := ["a", "a", "b"];
    var a := AnalyzeText("a a b");
    SmallTextWords();
    WordCount("a a b");
    assert a.wordCount == 3;
    WordLengths("a a b");
    assert TotalLength(words) == 3;
    assert a.averageWordLength == Ratio(3, 3);
    SmallTextSentences();
    SmallTextRanking();
    MostCommonUnique(words, 5, a.mostCommonWords, [("a", 2), ("b", 1)]);
  }

  lemma SmallTextSentences()
    ensures RunCount("a a b", IsSentenceDelimiter) == 0
  {
    RunCountSkip("a a b", [], IsSentenceDelimiter);
    assert "a a b" + [] == "a a b";
  }

  lemma SmallTextWords()
    ensures Words("a a b") == ["a", "a", "b"]
  {
    WordsOfJoin(["a", "a", "b"], " ");
    assert Join(["a", "a", "b"], " ") == "a a b";
  }

  lemma SmallTextRanking()
    ensures IsMostCommon(["a", "a", "b"], 5, [("a", 2), ("b", 1)])
  {
    var words := ["a", "a", "b"];
    var expected: seq<Entry> := [("a", 2), ("b", 1)];
    assert Count(words, "a") == 2 && Count(words, "b") == 1;
    assert FirstIndex(words, "a") == 0 && FirstIndex(words, "b") == 2;
    assert Keys(expected) == ["a", "b"];
    assert forall w :: w in words ==> w == "a" || w == "b";
  }

  // ------------------------------------------------------------- merge

  /** The block `merge_text_files` writes for one file. */
  function Section(filename: string, content: string): string {
    "--- " + filename + " ---\n" + content + "\n"
  }

  /** The position of the first file of `fileList` missing from the input
      directory, or `|fileList|` when all are there. */
  function MissingIndex(inputFiles: map<string, string>, fileList: seq<string>): (k: nat)
    ensures k <= |fileList|
    ensures forall j :: 0 <= j < k ==> fileList[j] in inputFiles
    ensures k < |fileList| ==> fileList[k] !in inputFiles
  {
    if fileList == [] || fileList[0] !in inputFiles then 0
    else 1 + MissingIndex(inputFiles, fileList[1..])
  }

  /** One section per file, in `fileList` order. */
  function Sections(inputFiles: map<string, string>, fileList: seq<string>): (r: seq<string>)
    requires forall j :: 0 <= j < |fileList| ==> fileList[j] in inputFiles
    ensures |r| == |fileList|
    ensures forall j :: 0 <= j < |r| ==> r[j] == Section(fileList[j], inputFiles[fileList[j]])
  {
    if fileList == [] then []
    else [Section(fileList[0], inputFiles[fileList[0]])] + Sections(inputFiles, fileList[1..])
  }

  /** What `merge_text_files` writes when every file can be read. */
  function MergedContent(inputFiles: map<string, string>, fileList: seq<string>): string
    requires forall j :: 0 <= j < |fileList| ==> fileList[j] in inputFiles
  {
    Join(Sections(inputFiles, fileList), "\n")
  }

  /** `merge_text_files(file_list, output_filename)`: reads the files in
      order, appending one section each, and gives the sections joined by
      a newline as the content of the output file; the first file that
      cannot be read aborts the merge with its error and nothing is
      written. */
  method MergeTextFiles(inputFiles: map<string, string>, fileList: seq<string>) returns (r: Result<string>)
    ensures r.Ok? <==> MissingIndex(inputFiles, fileList) == |fileList|
    ensures r.Err? ==> r.error == NotFound(fileList[MissingIndex(inputFiles, fileList)])
    ensures r.Ok? ==> r.value == MergedContent(inputFiles, fileList)
  {
    var mergedContent: seq<string> := [];
    for i := 0 to |fileList|
      invariant forall j :: 0 <= j < i ==> fileList[j] in inputFiles
      invariant mergedContent == Sections(inputFiles, fileList[..i])
    {
      var filename := fileList[i];
      var content := ReadTextFile(inputFiles, filename);
      if content.Err? {
        return Err(content.error);
      }
      mergedContent := mergedContent + [Section(filename, content.value)];
    }
    assert fileList[..|fileList|] == fileList;
    return Ok(Join(mergedContent, "\n"));
  }

  /** Merging no files gives the empty text; merging one gives its section. */
  lemma MergeFew(inputFiles: map<string, string>, name: string)
    requires name in inputFiles
    ensures MergedContent(inputFiles, []) == ""
    ensures MergedContent(inputFiles, [name]) == "--- " + name + " ---\n" + inputFiles[name] + "\n"
  {
  }

  /** Where the section of file `i` begins in the merged text. */
  function SectionOffset(inputFiles: map<string, string>, fileList: seq<string>, i: nat): nat
    requires forall j :: 0 <= j < |fileList| ==> fileList[j] in inputFiles
    requires i <= |fileList|
  {
    PartOffset(Sections(inputFiles, fileList), "\n", i)
  }

  /** A slice made of three parts holds each part at its place. */
  lemma SliceOfThree(m: string, o: nat, x: string, y: string, z: string)
    requires o + |x| + |y| + |z| <= |m|
    requires m[o..o + |x| + |y| + |z|] == x + y + z
    ensures m[o..o + |x|] == x
    ensures m[o + |x|..o + |x| + |y|] == y
    ensures m[o + |x| + |y|..o + |x| + |y| + |z|] == z
  {
    var w := m[o..o + |x| + |y| + |z|];
    forall k | 0 <= k < |w| ensures m[o + k] == w[k] { }
    assert m[o..o + |x|] == w[..|x|] == x;
    assert m[o + |x|..o + |x| + |y|] == w[|x|..|x| + |y|] == y;
    assert m[o + |x| + |y|..o + |x| + |y| + |z|] == w[|x| + |y|..] == z;
  }

  /** In the merged text, file `i` has its header line followed by its
      content and a newline, all at `SectionOffset(i)`; a blank line
      separates it from the next file, whose section begins right after,
      and the newline after the last file's content ends the text. */
  lemma MergedLayout(inputFiles: map<string, string>, fileList: seq<string>, i: nat)
    requires forall j :: 0 <= j < |fileList| ==> fileList[j] in inputFiles
    requires i < |fileList|
    ensures var m := MergedContent(inputFiles, fileList);
      var o := SectionOffset(inputFiles, fileList, i);
      var header := "--- " + fileList[i] + " ---\n";
      var content := inputFiles[fileList[i]];
      && o + |header| + |content| + 1 <= |m|
      && m[o..o + |header|] == header
      && m[o + |header|..o + |header| + |content|] == content
      && m[o + |header| + |content|] == '\n'
      && (i + 1 < |fileList| ==>
            && SectionOffset(inputFiles, fileList, i + 1) == o + |header| + |content| + 2
            && SectionOffset(inputFiles, fileList, i + 1) <= |m|
            && m[o + |header| + |content| + 1] == '\n')
      && (i + 1 == |fileList| ==> |m| == o + |header| + |content| + 1)
  {
    var parts := Sections(inputFiles, fileList);
    var m := MergedContent(inputFiles, fileList);
    var o := SectionOffset(inputFiles, fileList, i);
    var header := "--- " + fileList[i] + " ---\n";
    var content := inputFiles[fileList[i]];
    JoinLayout(parts, "\n", i);
    assert parts[i] == header + content + "\n";
    SliceOfThree(m, o, header, content, "\n");
    assert m[o + |header| + |content|] == m[o + |header| + |content|..o + |parts[i]|][0];
    if i + 1 < |fileList| {
      assert m[o + |parts[i]|] == m[o + |parts[i]|..o + |parts[i]| + 1][0];
    }
  }

  // ------------------------------------------------------------ backup

  /** A `%Y%m%d_%H%M%S` time stamp: eight digits, `_`, six digits. */
  predicate IsTimestamp(t: string) {
    |t| == 15 && t[8] == '_'
    && forall i :: 0 <= i < 15 && i != 8 ==> '0' <= t[i] <= '9'
  }

  /** The name `create_backup` gives the copy: the file name without its
      last extension, `_`, the time stamp and `.bak`. */
  function BackupName(filename: string, timestamp: string): (name: string)
    ensures |name| == |Stem(filename)| + |timestamp| + 5
    ensures name[..|Stem(filename)|] == Stem(filename)
    ensures name[|name| - 4..] == ".bak"
  {
    Stem(filename) + "_" + timestamp + ".bak"
  }

  /** `.bak` is the one extension of a backup name, and the name without it
      is the original stem followed by `_` and the time stamp. */
  lemma BackupNameSplitExt(filename: string, timestamp: string)
    requires '/' !in timestamp
    ensures SplitExt(BackupName(filename, timestamp)) == (Stem(filename) + "_" + timestamp, ".bak")
  {
    var stem := Stem(filename);
    var x := stem + "_" + timestamp;
    assert BackupName(filename, timestamp) == x + ".bak";
    var sep := RFind(x, '/');
    assert x[|stem|] == '_';
    forall i | |stem| < i < |x| ensures x[i] != '/' {
      assert x[i] == timestamp[i - |stem| - 1];
    }
    assert sep < |stem|;
    assert HasNonDot(x, sep + 1, |x|);
    SplitExtAppend(x, ".bak");
  }

  /** With a `%Y%m%d_%H%M%S` time stamp the backup name is the stem, `_`,
      eight digits, `_`, six digits and the extension `.bak`. */
  lemma BackupNameShape(filename: string, timestamp: string)
    requires IsTimestamp(timestamp)
    ensures var n, k := BackupName(filename, timestamp), |Stem(filename)|;
      && |n| == k + 20
      && n[..k] == Stem(filename)
      && n[k] == '_' && n[k + 9] == '_'
      && (forall i :: k + 1 <= i < k + 16 && i != k + 9 ==> '0' <= n[i] <= '9')
      && n[k + 16..] == ".bak"
      && SplitExt(n).1 == ".bak"
  {
    var n, k := BackupName(filename, timestamp), |Stem(filename)|;
    assert n == Stem(filename) + "_" + timestamp + ".bak";
    forall i | k + 1 <= i < k + 16 ensures n[i] == timestamp[i - k - 1] { }
    assert '/' !in timestamp by {
      forall i | 0 <= i < 15 ensures timestamp[i] != '/' { }
    }
    BackupNameSplitExt(filename, timestamp);
  }

  /** `create_backup("a.txt")` names the copy `a_<time stamp>.bak`. */
  lemma BackupOfTxt(timestamp: string)
    ensures BackupName("a.txt", timestamp) == "a_" + timestamp + ".bak"
  {
    assert "a.txt" == "a" + ".txt";
    assert HasNonDot("a", RFind("a", '/') + 1, 1);
    SplitExtAppend("a", ".txt");
  }

  /** A dot file keeps its whole name as the stem: `create_backup(".bashrc")`
      names the copy `.bashrc_<time stamp>.bak`. */
  lemma BackupOfDotFile(timestamp: string)
    ensures BackupName(".bashrc", timestamp) == ".bashrc_" + timestamp + ".bak"
  {
    SplitExtDotFile();
  }

  /** `create_backup(filename)` at `timestamp`: the backup's name and the
      content written to it, which is the content read from `filename`; a
      file that cannot be read is reported and nothing is written. */
  function CreateBackup(inputFiles: map<string, string>, filename: string, timestamp: string)
    : (r: Result<(string, string)>)
    ensures r.Ok? <==> filename in inputFiles
    ensures r.Err? ==> r.error == NotFound(filename)
    ensures r.Ok? ==> r.value.1 == inputFiles[filename]
    ensures r.Ok? ==> r.value.0 == BackupName(filename, timestamp)
  {
    match ReadTextFile(inputFiles, filename)
    case Err(e) => Err(e)
    case Ok(content) => Ok((BackupName(filename, timestamp), content))
  }
}
