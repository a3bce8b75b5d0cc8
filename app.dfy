/** The text profile of the upload dashboard in scripts/app.py: line, word
    and character counts of an uploaded text file, and the word frequencies
    it charts. */
module App {
  import opened Seqs
  import opened PyStr
  import opened WordCounter
  import opened Common
  import MlFunctions

  /** The dictionary `analyze_text_file` returns. */
  datatype TextFileAnalysis = TextFileAnalysis(
    totalLines: nat,
    totalWords: nat,
    totalCharacters: nat,
    averageWordsPerLine: Average)

  /** `analyze_text_file(content)`: one line more than there are newlines,
      the maximal non-whitespace runs as words, every character counted;
      `split('\n')` never gives an empty list, so the average always
      divides the words by a positive number of lines and its `else 0`
      fallback is never taken. */
  function AnalyzeTextFile(content: string): (a: TextFileAnalysis)
    ensures a.totalLines == Count(content, '\n') + 1
    ensures a.totalWords == RunCount(content, IsWordChar)
    ensures a.totalCharacters == |content|
    ensures a.totalWords <= a.totalCharacters
    ensures a.averageWordsPerLine == Ratio(a.totalWords, a.totalLines)
  {
    var lines := SplitOn(content, '\n');
    var words := Words(content);
    SplitOnCount(content, '\n');
    WordCount(content);
    WordLengths(content);
    TextFileAnalysis(
      |lines|,
      |words|,
      |content|,
      if lines != [] then Ratio(|words|, |lines|) else Zero)
  }

  /** An empty upload has one (empty) line, no words and no characters. */
  lemma AnalyzeEmptyFile()
    ensures AnalyzeTextFile("") == TextFileAnalysis(1, 0, 0, Ratio(0, 1))
  {
    assert Count("", '\n') == 0;
    assert RunCount("", IsWordChar) == 0;
  }

  /** The dashboard and the text processor agree on the number of words and
      of characters of the same text. */
  lemma AgreesWithAnalyzeText(content: string)
    ensures AnalyzeTextFile(content).totalWords == MlFunctions.AnalyzeText(content).wordCount
    ensures AnalyzeTextFile(content).totalCharacters == MlFunctions.AnalyzeText(content).characterCount
  {
  }

  /** The lines `analyze_text_file` counts put back together with newlines
      are the content, so none is lost or invented. */
  lemma LinesRebuildContent(content: string)
    ensures Join(SplitOn(content, '\n'), "\n") == content
    ensures |SplitOn(content, '\n')| == AnalyzeTextFile(content).totalLines
  {
    JoinSplitOn(content, '\n');
    SplitOnCount(content, '\n');
  }

  /** The bar chart of the dashboard: `pd.Series(words).value_counts().head(10)`
      when the text has words, nothing otherwise. Highest counts first,
      equal counts in first-occurrence order. */
  function WordFrequency(content: string): (r: seq<Entry>)
    ensures r == [] <==> Words(content) == []
    ensures IsMostCommon(Words(content), 10, r)
  {
    var words := Words(content);
    if words != [] then
      var r := MostCommon(words, 10);
      assert words[0] in Keys(r) || r != [];
      r
    else []
  }

  /** The chart has at most ten bars, each bar is a different word with its
      number of occurrences, and the bars never grow from left to right. */
  lemma WordFrequencyShape(content: string)
    ensures var r := WordFrequency(content);
      && |r| <= 10
      && (forall i :: 0 <= i < |r| ==> r[i].1 == Count(Words(content), r[i].0))
      && (forall i, j :: 0 <= i < j < |r| ==> r[i].0 != r[j].0 && r[i].1 >= r[j].1)
  {
    var r := WordFrequency(content);
    forall i, j | 0 <= i < j < |r| ensures r[i].0 != r[j].0 && r[i].1 >= r[j].1 {
      assert RanksBefore(Words(content), r[i].0, r[j].0);
    }
  }
}
