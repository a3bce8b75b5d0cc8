/** The string and column checks of scripts/helper_functions.py. */
module HelperFunctions {
  import opened Seqs
  import opened PyStr

  // ----------------------------------------------------------- clean_text

  /** `clean_text(text)`, which is `str(text).strip()`: the text without the
      whitespace at either end. */
  function CleanText(text: string): (r: string)
    ensures NoEdgeWhitespace(r)
    ensures exists i, j ::
              0 <= i <= j <= |text| && r == text[i..j]
              && AllWhitespace(text[..i]) && AllWhitespace(text[j..])
  {
    var r := Strip(text);
    var i := |LeadingWhitespace(text)|;
    var j := i + |r|;
    assert text == LeadingWhitespace(text) + r + TrailingWhitespace(text);
    assert text[..i] == LeadingWhitespace(text);
    assert text[i..j] == r;
    assert text[j..] == TrailingWhitespace(text);
    r
  }

  /** Cleaning twice is cleaning once. */
  lemma CleanTextIdempotent(text: string)
    ensures CleanText(CleanText(text)) == CleanText(text)
  {
    var r := CleanText(text);
    assert r == [] + r + [];
    StripUnique(r, [], r, []);
  }

  /** Text without whitespace at its ends is returned unchanged. */
  lemma CleanTextKeeps(text: string)
    requires NoEdgeWhitespace(text)
    ensures CleanText(text) == text
  {
    assert text == [] + text + [];
    StripUnique(text, [], text, []);
  }

  /** Text of whitespace only is cleaned to the empty text. */
  lemma CleanTextBlank(text: string)
    requires AllWhitespace(text)
    ensures CleanText(text) == ""
  {
    assert text == text + [] + [];
    StripUnique(text, text, [], []);
  }

  /** Cleaning does not change the words of the text. */
  lemma CleanTextKeepsWords(text: string)
    ensures Words(CleanText(text)) == Words(text)
  {
    var lead, r, trail := LeadingWhitespace(text), Strip(text), TrailingWhitespace(text);
    assert text == lead + (r + trail);
    WordsSkipLeading(lead, r + trail);
    WordsSkipTrailing(r, trail);
  }

  // --------------------------------------------------- validate_dataframe

  /** `[col for col in required_columns if col not in df.columns]`. */
  function MissingColumns(columns: seq<string>, required: seq<string>): (missing: seq<string>)
    ensures forall c :: Count(missing, c) == if c in columns then 0 else Count(required, c)
    ensures IsSubsequence(missing, required)
  {
    if required == [] then []
    else
      var rest := MissingColumns(columns, required[1..]);
      if required[0] !in columns then
        assert ([required[0]] + rest)[1..] == rest;
        [required[0]] + rest
      else
        rest
  }

  /** `validate_dataframe(df, required_columns)`: valid exactly when every
      required column is among the frame's columns (so always when none is
      required). */
  function ValidateDataframe(columns: seq<string>, required: seq<string>): (valid: bool)
    ensures valid <==> forall i :: 0 <= i < |required| ==> required[i] in columns
  {
    var missing := MissingColumns(columns, required);
    if missing != [] then
      assert Count(missing, missing[0]) > 0;
      false
    else
      assert forall i :: 0 <= i < |required| ==> Count(required, required[i]) > 0;
      true
  }

  /** The missing columns are the required names that are absent, in the
      order `required_columns` gives them, repeated as often as it repeats
      them; no other list has these two properties. */
  lemma MissingColumnsUnique(columns: seq<string>, required: seq<string>, other: seq<string>)
    requires forall c :: Count(other, c) == if c in columns then 0 else Count(required, c)
    requires IsSubsequence(other, required)
    ensures other == MissingColumns(columns, required)
  {
    var missing := MissingColumns(columns, required);
    forall c ensures Count(other, c) == Count(missing, c) { }
    SubsequenceSameCounts(other, missing, required);
  }
}
