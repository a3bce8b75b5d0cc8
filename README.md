# Text statistics and string building of the mlops_aat scripts, in Dafny

This project models the parts of the data-analysis scripts that hold logic of
their own rather than library glue:

- the text processor of `scripts/ml_functions.py`:
  - `analyze_text`, which gives the word count (`split()`), the character count,
    the sentence count (`re.split(r'[.!?]+', …)`), the average word length and
    the five most common words (`Counter.most_common(5)`);
  - `merge_text_files`, which builds one `--- name ---` section per file and
    joins the sections with newlines;
  - `create_backup`, which names the copy `<stem>_<timestamp>.bak`;
- `analyze_text_file` of the upload dashboard in `scripts/app.py` (lines, words,
  characters, words per line), and its word-frequency chart
  (`value_counts().head(10)`);
- `clean_text` and `validate_dataframe` of `scripts/helper_functions.py`.

The modules follow the scripts. `Seqs` holds generic facts about sequences.
`PyStr` models Python's `str.split()`, `str.split(c)` and `str.strip()`.
`PosixPath` models `os.path.splitext`. `WordCounter` models the word-frequency
ranking. `Common` holds the error and average types. `MlFunctions`, `App` and
`HelperFunctions` model the three scripts.

The text processor's input directory is modelled as a map from file name to
content, and `read_text_file` (`MlFunctions.ReadTextFile`) is a lookup in
that map. A file that is not there makes `read_text_file` fail. That failure
ends `merge_text_files` and `create_backup` before anything is written. What
those two operations would write is returned as a value. Whitespace is the set
of code points for which Python's `str.isspace()` holds. That set is what
`split()` and `strip()` use when they are given no argument.

Two consequences of the code are worth stating on their own:

- `read_text_file` reads from `input_dir` (scripts/ml_functions.py:44) and
  `write_text_file` writes to `output_dir` (scripts/ml_functions.py:62), so
  `read_text_file` can read back a backup it named from a relative name
  without `..` only when the two directories are the same. `os.path.join`
  ignores the directory when the name is absolute, so `create_backup("/tmp/a.txt")`
  writes `/tmp/a_<timestamp>.bak` (scripts/ml_functions.py:150-151) and
  `read_text_file` reads that name back whatever the directories are; a
  relative name with `..` can also lead from one directory into the other;
- `re.split` leaves an empty piece after a final delimiter (and before a
  leading one), and it is counted: `"Hi."` has two sentences, `"A. B."` has
  three, the last of them empty, and `""` has one.

## Model

| member | source | states |
|---|---|---|
| `PyStr.Words` | scripts/ml_functions.py:81 | every word of `split()` is non-empty and holds no whitespace |
| `PyStr.WordCount` | scripts/ml_functions.py:81-85 | the number of words is the number of maximal runs of non-whitespace characters |
| `PyStr.WordsConcat` | scripts/ml_functions.py:81 | the words, read one after the other, are exactly the non-whitespace characters of the text in order |
| `PyStr.WordLengths` | scripts/ml_functions.py:88 | the sum of the word lengths (`TotalLength`, the generator `sum`) is the number of non-whitespace characters; it is at least the number of words and at most the length of the text |
| `PyStr.WordsOfJoin` | scripts/ml_functions.py:81 | splitting words joined by one whitespace separator gives the same words back |
| `PyStr.WordsCons` | scripts/ml_functions.py:81 | a word followed by the end or by whitespace is the first word, and the rest of the text gives the rest of the words |
| `PyStr.WordsOfLayout` | scripts/ml_functions.py:81 | for any text written as words separated by whitespace gaps of any kind and length (non-empty between words, possibly empty at the ends), the words are exactly those words in order |
| `PyStr.WordsMixedGaps` | scripts/ml_functions.py:81 | `"ab c\td".split()` is `["ab", "c", "d"]` |
| `PyStr.WordsSkipLeading` | scripts/ml_functions.py:81 | leading whitespace does not change the words |
| `PyStr.WordsSkipTrailing` | scripts/ml_functions.py:81 | trailing whitespace does not change the words |
| `PyStr.SplitOn` | scripts/app.py:20 | `split('\n')` gives at least one piece, and no piece holds a newline |
| `PyStr.SplitOnCount` | scripts/app.py:20-25 | `split('\n')` gives one piece more than there are newlines |
| `PyStr.JoinSplitOn` | scripts/app.py:20 | joining the pieces of `split(c)` with `c` gives back the text |
| `PyStr.SplitOnJoin` | scripts/app.py:20 | splitting pieces without `c` that are joined by `c` gives back the pieces |
| `PyStr.Strip` | scripts/helper_functions.py:83 | `strip()` leaves neither leading nor trailing whitespace, and the text is the result padded with whitespace on both sides |
| `PyStr.StripUnique` | scripts/helper_functions.py:83 | any split of a text into whitespace, a core without whitespace at its ends, and whitespace has `strip()` as that core |
| `PosixPath.SplitExt` | scripts/ml_functions.py:150 | `splitext` cuts the path in two parts that concatenate back to it; the extension is empty or a dot followed by no dot and no `/` |
| `PosixPath.Stem` | scripts/ml_functions.py:150 | the stem is a prefix of the file name; which prefix is fixed by `SplitExtHasExtension` and `SplitExtAppend` |
| `PosixPath.SplitExtNoDot` | scripts/ml_functions.py:150 | a name without a dot has no extension |
| `PosixPath.SplitExtAppend` | scripts/ml_functions.py:150 | adding an extension to a name whose last component holds something besides dots makes `splitext` return that name and that extension |
| `PosixPath.SplitExtHasExtension` | scripts/ml_functions.py:150 | `splitext` finds an extension exactly when the path is a name whose last component holds something other than dots, followed by a dot and no further dot or `/`; so a last component that is only dots before its last dot (`.bashrc`, `..`) has none |
| `PosixPath.SplitExtDotFile` | scripts/ml_functions.py:150 | `splitext(".bashrc")` is `(".bashrc", "")` |
| `WordCounter.Distinct` | scripts/ml_functions.py:89 | the distinct words of the text (the keys of the `Counter`), each once; the ranking does not depend on their order |
| `WordCounter.MostCommon` | scripts/ml_functions.py:89 | `most_common(n)` has at most `n` entries. Each entry is a word of the text with its number of occurrences. The entries are in rank order: higher count first, equal counts in first-occurrence order. Every word left out ranks after every entry, and a list shorter than `n` leaves out no word |
| `WordCounter.MostCommonOrder` | scripts/ml_functions.py:89 | counts never increase along the list, and equal counts appear in first-occurrence order |
| `WordCounter.MostCommonDistinct` | scripts/ml_functions.py:89 | no word appears twice, so there are no more entries than distinct words |
| `WordCounter.RankingSize` | scripts/ml_functions.py:89 | any list with the `most_common` properties has distinct words and at most as many entries as there are distinct words |
| `WordCounter.MostCommonUnique` | scripts/ml_functions.py:89 | the `most_common` properties determine the list: two lists that have them are equal |
| `MlFunctions.SplitSentences` | scripts/ml_functions.py:82 | `re.split(r'[.!?]+', s)` gives at least one piece, and no piece holds a delimiter |
| `MlFunctions.DelimiterRun` | scripts/ml_functions.py:82 | a text that starts with a delimiter starts with a maximal non-empty run of delimiters |
| `MlFunctions.SentenceCount` | scripts/ml_functions.py:82-87 | the sentence count is one more than the number of maximal runs of `.`, `!` or `?` |
| `MlFunctions.SentencesConcat` | scripts/ml_functions.py:82 | the pieces, read one after the other, are exactly the characters of the text that are not delimiters |
| `MlFunctions.SplitSentencesJoin` | scripts/ml_functions.py:82 | splitting delimiter-free pieces that are joined by one delimiter gives the pieces back, when only the first and the last piece may be empty |
| `MlFunctions.TrailingDelimiter` | scripts/ml_functions.py:82-87 | a delimiter added to any text that does not already end in one keeps its sentences and adds an empty last one, which is counted; for a text without delimiters the sentences are the text and `""` |
| `MlFunctions.SplitSentencesOfPunctuated` | scripts/ml_functions.py:82 | delimiter-free pieces separated by non-empty runs of `.`, `!` and `?` of any length and mix (only the first and last piece may be empty) split back into exactly those pieces, so the sentence boundaries are the maximal delimiter runs |
| `MlFunctions.MixedDelimiters` | scripts/ml_functions.py:82 | `re.split(r'[.!?]+', "a?!b. c")` is `["a", "b", " c"]` |
| `MlFunctions.AnalyzeText` | scripts/ml_functions.py:70-96 | word count is the number of non-whitespace runs; character count is the length; sentence count is one more than the delimiter runs; the average has the non-whitespace characters over the words, or is 0 without words; the ranking has the `most_common(5)` properties |
| `MlFunctions.AnalyzeTextBounds` | scripts/ml_functions.py:85-89 | words are at most characters; the average's numerator lies between the word count and the character count; there is at least one sentence; the ranking has at most 5 distinct words and no more than there are distinct words |
| `MlFunctions.AnalyzeBlankText` | scripts/ml_functions.py:81-89 | whitespace-only text has no words, average 0 and an empty ranking |
| `MlFunctions.AnalyzeEmptyText` | scripts/ml_functions.py:70-96 | `""` gives 0 words, 0 characters, 1 sentence, average 0 and no common words |
| `MlFunctions.AnalyzeSmallText` | scripts/ml_functions.py:70-96 | `"a a b"` gives 3 words, 1 sentence, average 3/3, and the ranking `[("a", 2), ("b", 1)]` |
| `MlFunctions.MissingIndex` | scripts/ml_functions.py:107-109 | the position of the first file of the list that cannot be read, every file before it readable |
| `MlFunctions.Sections` | scripts/ml_functions.py:107-110 | one section per file, in list order, each `Section(name, content)`, the f-string `"--- name ---\n" + content + "\n"` of line 110 |
| `MlFunctions.MergeTextFiles` | scripts/ml_functions.py:98-116 | the merge fails exactly when some file is missing, with the error of the first missing file; otherwise it writes `MergedContent`, the sections joined by `"\n"` (`Seqs.Join`, the `'\n'.join` of line 112) |
| `MlFunctions.MergeFew` | scripts/ml_functions.py:107-112 | merging no files writes `""`; merging one writes its single section |
| `MlFunctions.MergedLayout` | scripts/ml_functions.py:107-112 | each file's header line, its content and a newline stand at that file's offset, in list order, a blank line separates consecutive sections, and the newline after the last file's content ends the merged text |
| `Seqs.JoinLayout` | scripts/ml_functions.py:112 | in `sep.join(parts)` (`Seqs.Join`) every part stands unchanged at its offset, and exactly one separator follows each part but the last, and the last part ends the joined text |
| `Seqs.JoinEnd` | scripts/ml_functions.py:112 | nothing follows the last part of `sep.join(parts)`: its length is the last part's offset plus the last part's length |
| `MlFunctions.BackupName` | scripts/ml_functions.py:149-150 | the backup name starts with the stem of the file name, ends in `.bak`, and is 5 characters longer than the stem and the time stamp together |
| `MlFunctions.BackupNameSplitExt` | scripts/ml_functions.py:150 | `.bak` is the extension of the backup name, and the rest is the stem, `_` and the time stamp |
| `MlFunctions.BackupOfTxt` | scripts/ml_functions.py:149-150 | the backup of `a.txt` is named `a_<timestamp>.bak`, whatever the time stamp |
| `MlFunctions.BackupOfDotFile` | scripts/ml_functions.py:149-150 | a dot file keeps its whole name as stem: the backup of `.bashrc` is `.bashrc_<timestamp>.bak` |
| `MlFunctions.BackupNameShape` | scripts/ml_functions.py:149-150 | with a time stamp of the `%Y%m%d_%H%M%S` shape (`IsTimestamp`), the backup name is the stem, `_`, eight digits, `_`, six digits and `.bak`, and `.bak` is its extension |
| `MlFunctions.CreateBackup` | scripts/ml_functions.py:137-156 | the backup fails with not-found exactly when the file is missing; otherwise it writes the content read, under the backup name |
| `App.AnalyzeTextFile` | scripts/app.py:18-29 | lines are newlines plus one; words are the non-whitespace runs, and there are no more of them than characters; characters are the length; the average is always words over a positive line count, so the `else 0` fallback is never taken |
| `App.AnalyzeEmptyFile` | scripts/app.py:18-29 | empty content gives 1 line, 0 words, 0 characters and the average 0/1 |
| `App.AgreesWithAnalyzeText` | scripts/app.py:21-27 | the dashboard's word and character counts are the text processor's word and character counts |
| `App.LinesRebuildContent` | scripts/app.py:20-25 | the counted lines, joined with newlines, are the content |
| `App.WordFrequency` | scripts/app.py:83-85 | no chart entries exactly when there are no words; otherwise the entries have the ranking properties with at most 10 entries |
| `App.WordFrequencyShape` | scripts/app.py:83-85 | at most 10 bars, each a different word with its number of occurrences, and counts that never increase |
| `HelperFunctions.CleanText` | scripts/helper_functions.py:83 | the result has no whitespace at its ends, and it is a contiguous slice of the input with only whitespace cut away on either side |
| `HelperFunctions.CleanTextIdempotent` | scripts/helper_functions.py:83 | cleaning twice is cleaning once |
| `HelperFunctions.CleanTextKeeps` | scripts/helper_functions.py:83 | text without whitespace at its ends comes back unchanged |
| `HelperFunctions.CleanTextBlank` | scripts/helper_functions.py:83 | whitespace-only text becomes `""` |
| `HelperFunctions.CleanTextKeepsWords` | scripts/helper_functions.py:83 | cleaning does not change the words of the text |
| `HelperFunctions.MissingColumns` | scripts/helper_functions.py:119 | each absent required name occurs as often as in the required list, present names not at all, and in the required list's order |
| `HelperFunctions.MissingColumnsUnique` | scripts/helper_functions.py:119 | those two properties determine the missing-column list |
| `HelperFunctions.ValidateDataframe` | scripts/helper_functions.py:105-123 | valid exactly when every required column is among the columns, so always when none is required |

## Left out

- `search_text` (`re.findall` with an arbitrary pattern) is not modelled: it needs a general regular-expression engine, including the rule that `findall` returns group tuples for patterns with groups.
- File I/O is not modelled: `open`, `os.makedirs`, `os.path.join`, `write_text_file` and `save_uploaded_file`. The `TextProcessor` constructor and its `input_dir`/`output_dir` fields matter only for these. The input directory is a map parameter, and what would be written is returned.
- Errors other than a missing input file are not modelled, for example unreadable files, bad encodings and failed writes.
- Logging is not modelled (`logging.basicConfig`, the logger calls, `log_info`/`log_error`), nor are `load_dotenv` and environment lookups.
- `datetime.now().strftime(...)` is replaced by a time-stamp parameter. `IsTimestamp` describes its `%Y%m%d_%H%M%S` shape, but the clock is not modelled.
- The floating-point divisions (`average_word_length`, `Average Words per Line`) are not computed: the model keeps their exact numerator and denominator, or the integer 0 of the fallback branch.
- The Streamlit page in `scripts/app.py` (`main`) is not modelled: rendering, uploads, plotting and the CSV/Excel branch (`analyze_csv_file`).
- scripts/main.py (the summarization UI) and scripts/data_processing.py are not part of this model.
- The pandas and sklearn helpers of scripts/helper_functions.py are not modelled: `load_and_process_data`, the train/test split, `evaluate_metrics` and `save_processed_data`.
- The demonstration `main` of scripts/ml_functions.py is not modelled.
- `clean_text` calls `str(text)` first; the model takes a string, so conversions of other types are not modelled.
- `validate_dataframe` takes the column labels as a list of strings; pandas labels of other types are not modelled.
- App.WordFrequency: pandas does not document the order that `value_counts` gives to equal counts; the model assumes first-occurrence order, the same as `Counter.most_common`.
- PosixPath.SplitExt: follows the POSIX `os.path` (separator `/` only); on Windows `ntpath.splitext` also treats `\` and drive letters as separators, which is not modelled.
- MlFunctions.MergeTextFiles: the `output_filename` parameter only names the file written, so it is dropped; the merged content is returned instead.
