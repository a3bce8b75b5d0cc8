/** The parts of Python's `str` that the scripts rely on: `split()` with no
    separator, `split(c)` with a one-character separator, and `strip()`. */
module PyStr {
  import opened Seqs

  /** The code points for which Python's `str.isspace()` holds (CPython's
      whitespace table): the separators `split()` and `strip()` use when
      given no argument. */
  const Whitespace: set<char> := {
    '\t', '\n', '\U{0B}', '\U{0C}', '\r', '\U{1C}', '\U{1D}', '\U{1E}', '\U{1F}', ' ',
    '\U{85}', '\U{A0}', '\U{1680}',
    '\U{2000}', '\U{2001}', '\U{2002}', '\U{2003}', '\U{2004}', '\U{2005}',
    '\U{2006}', '\U{2007}', '\U{2008}', '\U{2009}', '\U{200A}',
    '\U{2028}', '\U{2029}', '\U{202F}', '\U{205F}', '\U{3000}'
  }

  predicate IsWhitespace(c: char) {
    c in Whitespace
  }

  predicate IsWordChar(c: char) {
    !IsWhitespace(c)
  }

  /** A token of `split()`: non-empty, without whitespace. */
  predicate IsWord(w: string) {
    w != [] && forall i :: 0 <= i < |w| ==> IsWordChar(w[i])
  }

  predicate AllWhitespace(s: string) {
    forall i :: 0 <= i < |s| ==> IsWhitespace(s[i])
  }

  // ---------------------------------------------------------------- split()

  /** `s.split()`: the maximal runs of non-whitespace characters, in order. */
  function Words(s: string): (words: seq<string>)
    ensures forall i :: 0 <= i < |words| ==> IsWord(words[i])
    decreases |s|
  {
    if s == [] then []
    else if IsWhitespace(s[0]) then Words(s[1..])
    else
      var k := Span(s, IsWordChar);
      [s[..k]] + Words(s[k..])
  }

  /** The number of words is the number of maximal non-whitespace runs. */
  lemma {:induction false} WordCount(s: string)
    ensures |Words(s)| == RunCount(s, IsWordChar)
    decreases |s|
  {
    if s != [] {
      if IsWhitespace(s[0]) {
        WordCount(s[1..]);
      } else {
        var k := Span(s, IsWordChar);
        assert s[..k] + s[k..] == s;
        RunCountRun(s[..k], s[k..], IsWordChar);
        WordCount(s[k..]);
      }
    }
  }

  /** Read one after the other, the words are exactly the non-whitespace
      characters of `s`: nothing is lost, nothing reordered. */
  lemma {:induction false} WordsConcat(s: string)
    ensures Concat(Words(s)) == Filter(s, IsWordChar)
    decreases |s|
  {
    if s != [] {
      if IsWhitespace(s[0]) {
        WordsConcat(s[1..]);
      } else {
        var k := Span(s, IsWordChar);
        assert s[..k] + s[k..] == s;
        FilterAppend(s[..k], s[k..], IsWordChar);
        FilterAll(s[..k], IsWordChar);
        WordsConcat(s[k..]);
      }
    }
  }

  /** The word lengths add up to the number of non-whitespace characters,
      which bounds the number of words; neither exceeds `|s|`. */
  lemma WordLengths(s: string)
    ensures TotalLength(Words(s)) == |Filter(s, IsWordChar)| <= |s|
    ensures |Words(s)| <= TotalLength(Words(s))
  {
    WordsConcat(s);
    ConcatLength(Words(s));
    PartsAtMostTotalLength(Words(s));
  }

  /** Leading whitespace is ignored. */
  lemma {:induction false} WordsSkipLeading(g: string, s: string)
    requires AllWhitespace(g)
    ensures Words(g + s) == Words(s)
    decreases |g|
  {
    if g != [] {
      assert (g + s)[1..] == g[1..] + s;
      WordsSkipLeading(g[1..], s);
    } else {
      assert g + s == s;
    }
  }

  /** Trailing whitespace is ignored. */
  lemma {:induction false} WordsSkipTrailing(s: string, g: string)
    requires AllWhitespace(g)
    ensures Words(s + g) == Words(s)
    decreases |s|
  {
    if s == [] {
      assert s + g == g;
      assert g + [] == g;
      WordsSkipLeading(g, []);
    } else {
      assert (s + g)[0] == s[0];
      if IsWhitespace(s[0]) {
        assert (s + g)[1..] == s[1..] + g;
        WordsSkipTrailing(s[1..], g);
      } else {
        var k := Span(s, IsWordChar);
        assert s[..k] + s[k..] == s;
        assert s + g == s[..k] + (s[k..] + g);
        SpanOfRun(s[..k], s[k..] + g, IsWordChar);
        assert (s + g)[..k] == s[..k];
        assert (s + g)[k..] == s[k..] + g;
        WordsSkipTrailing(s[k..], g);
      }
    }
  }

  /** Splitting words joined by a whitespace separator gives them back:
      the words are exactly the maximal non-whitespace runs. */
  lemma {:induction false} WordsOfJoin(words: seq<string>, sep: string)
    requires forall i :: 0 <= i < |words| ==> IsWord(words[i])
    requires sep != [] && AllWhitespace(sep)
    ensures Words(Join(words, sep)) == words
    decreases |words|
  {
    if |words| == 1 {
      var w := words[0];
      assert w + [] == w;
      SpanOfRun(w, [], IsWordChar);
      assert w[|w|..] == [];
    } else if |words| > 1 {
      var w := words[0];
      var rest := sep + Join(words[1..], sep);
      var s := w + rest;
      assert Join(words, sep) == s;
      assert rest[0] == sep[0];
      SpanOfRun(w, rest, IsWordChar);
      assert s[0] == w[0];
      assert s[..|w|] == w && s[|w|..] == rest;
      WordsSkipLeading(sep, Join(words[1..], sep));
      WordsOfJoin(words[1..], sep);
      assert words == [w] + words[1..];
    }
  }

  /** A word followed by the end or by whitespace is the first word. */
  lemma WordsCons(w: string, rest: string)
    requires IsWord(w)
    requires rest == [] || IsWhitespace(rest[0])
    ensures Words(w + rest) == [w] + Words(rest)
  {
    var s := w + rest;
    SpanOfRun(w, rest, IsWordChar);
    assert s[0] == w[0];
    assert s[..|w|] == w && s[|w|..] == rest;
  }

  /** `gaps[0] + words[0] + gaps[1] + ... + words[n-1] + gaps[n]`. */
  function Interleave(gaps: seq<string>, words: seq<string>): string
    requires |gaps| == |words| + 1
    decreases |words|
  {
    if words == [] then gaps[0]
    else gaps[0] + words[0] + Interleave(gaps[1..], words[1..])
  }

  /** Gaps of whitespace between words, which must not be empty between
      two words but may be at either end. */
  predicate IsLayout(gaps: seq<string>, words: seq<string>) {
    && |gaps| == |words| + 1
    && (forall i :: 0 <= i < |words| ==> IsWord(words[i]))
    && (forall i :: 0 <= i < |gaps| ==> AllWhitespace(gaps[i]))
    && (forall i :: 0 < i < |words| ==> gaps[i] != [])
  }

  /** A layout that does not start with a gap begins with its first word,
      or with whitespace. */
  lemma InterleaveHead(gaps: seq<string>, words: seq<string>)
    requires IsLayout(gaps, words)
    requires gaps[0] != [] || |words| == 0
    ensures var s := Interleave(gaps, words); s == [] || IsWhitespace(s[0])
  {
    if words != [] {
      assert Interleave(gaps, words) == gaps[0] + (words[0] + Interleave(gaps[1..], words[1..]));
    }
  }

  /** Whatever whitespace stands between, around or after the words, the
      words of the text are exactly those words, in order: `split()` cuts at
      every maximal run of whitespace and nowhere else. */
  lemma {:induction false} WordsOfLayout(gaps: seq<string>, words: seq<string>)
    requires IsLayout(gaps, words)
    ensures Words(Interleave(gaps, words)) == words
    decreases |words|
  {
    if words == [] {
      assert gaps[0] + [] == gaps[0];
      WordsSkipLeading(gaps[0], []);
    } else {
      var g, w := gaps[0], words[0];
      var gs, ws := gaps[1..], words[1..];
      var rest := Interleave(gs, ws);
      assert IsLayout(gs, ws) by {
        forall i | 0 <= i < |ws| ensures IsWord(ws[i]) { assert ws[i] == words[i + 1]; }
        forall i | 0 <= i < |gs| ensures AllWhitespace(gs[i]) { assert gs[i] == gaps[i + 1]; }
        forall i | 0 < i < |ws| ensures gs[i] != [] { assert gs[i] == gaps[i + 1]; }
      }
      assert gs[0] != [] || |ws| == 0 by {
        if |ws| > 0 { assert gs[0] == gaps[1]; }
      }
      InterleaveHead(gs, ws);
      assert Interleave(gaps, words) == g + (w + rest);
      WordsSkipLeading(g, w + rest);
      WordsCons(w, rest);
      WordsOfLayout(gs, ws);
      assert words == [w] + ws;
    }
  }

  /** Gaps of different whitespace cut the same way: `"ab c\td".split()`. */
  lemma WordsMixedGaps()
    ensures Words("ab c\td") == ["ab", "c", "d"]
  {
    var gaps, words := ["", " ", "\t", ""], ["ab", "c", "d"];
    assert IsLayout(gaps, words);
    WordsOfLayout(gaps, words);
    assert Interleave(gaps, words) == "ab c\td";
  }

  // --------------------------------------------------------------- split(c)

  /** Index of the first `c` in `s`, or `|s|` when there is none. */
  function IndexOf(s: string, c: char): (k: nat)
    ensures k <= |s|
    ensures forall i :: 0 <= i < k ==> s[i] != c
    ensures k < |s| ==> s[k] == c
  {
    if s == [] || s[0] == c then 0 else 1 + IndexOf(s[1..], c)
  }

  /** `s.split(c)`: the pieces between the occurrences of `c`, empty ones
      included; there is always at least one. */
  function SplitOn(s: string, c: char): (pieces: seq<string>)
    ensures pieces != []
    ensures forall i :: 0 <= i < |pieces| ==> c !in pieces[i]
    decreases |s|
  {
    var k := IndexOf(s, c);
    if k == |s| then [s] else [s[..k]] + SplitOn(s[k + 1..], c)
  }

  /** One piece more than there are separators. */
  lemma {:induction false} SplitOnCount(s: string, c: char)
    ensures |SplitOn(s, c)| == Count(s, c) + 1
    decreases |s|
  {
    var k := IndexOf(s, c);
    assert s == s[..k] + s[k..];
    CountAppend(s[..k], s[k..], c);
    if k == |s| {
      assert s[k..] == [];
    } else {
      assert s[k..] == [c] + s[k + 1..];
      CountAppend([c], s[k + 1..], c);
      SplitOnCount(s[k + 1..], c);
    }
  }

  /** Joining the pieces with `c` restores `s`. */
  lemma {:induction false} JoinSplitOn(s: string, c: char)
    ensures Join(SplitOn(s, c), [c]) == s
    decreases |s|
  {
    var k := IndexOf(s, c);
    if k < |s| {
      JoinSplitOn(s[k + 1..], c);
      var rest := SplitOn(s[k + 1..], c);
      assert SplitOn(s, c) == [s[..k]] + rest;
      assert ([s[..k]] + rest)[1..] == rest;
      assert s == s[..k] + [c] + s[k + 1..];
    }
  }

  /** Splitting pieces without `c` joined by `c` gives the pieces back. */
  lemma {:induction false} SplitOnJoin(pieces: seq<string>, c: char)
    requires pieces != []
    requires forall i :: 0 <= i < |pieces| ==> c !in pieces[i]
    ensures SplitOn(Join(pieces, [c]), c) == pieces
    decreases |pieces|
  {
    var p := pieces[0];
    var s := Join(pieces, [c]);
    assert IndexOf(p, c) == |p|;
    if |pieces| == 1 {
      assert s == p;
    } else {
      var rest := Join(pieces[1..], [c]);
      assert s == p + [c] + rest;
      assert forall i :: 0 <= i < |p| ==> s[i] == p[i];
      assert s[|p|] == c;
      assert IndexOf(s, c) == |p|;
      assert s[..|p|] == p && s[|p| + 1..] == rest;
      SplitOnJoin(pieces[1..], c);
      assert pieces == [p] + pieces[1..];
    }
  }

  // ---------------------------------------------------------------- strip()

  /** Where the result of `strip()` begins: after the leading whitespace. */
  function StripStart(s: string): (i: nat)
    ensures i <= |s|
  {
    Span(s, IsWhitespace)
  }

  /** Where the result of `strip()` ends: before the trailing whitespace of
      what follows `StripStart(s)`. */
  function StripEnd(s: string): (j: nat)
    ensures StripStart(s) <= j <= |s|
  {
    |s| - SpanEnd(s[StripStart(s)..], IsWhitespace)
  }

  /** The whitespace that `strip()` removes at the front. */
  function LeadingWhitespace(s: string): (lead: string)
    ensures AllWhitespace(lead)
  {
    s[..StripStart(s)]
  }

  /** The whitespace that `strip()` removes at the back. */
  function TrailingWhitespace(s: string): (trail: string)
    ensures AllWhitespace(trail)
  {
    var t := s[StripStart(s)..];
    assert forall x :: StripEnd(s) <= x < |s| ==> s[x] == t[x - StripStart(s)];
    s[StripEnd(s)..]
  }

  /** Neither the first nor the last character is whitespace. */
  predicate NoEdgeWhitespace(s: string) {
    s == [] || (IsWordChar(s[0]) && IsWordChar(s[|s| - 1]))
  }

  /** `s.strip()`: `s` is the result padded with whitespace on either side,
      and the result neither starts nor ends with whitespace. */
  function Strip(s: string): (r: string)
    ensures NoEdgeWhitespace(r)
    ensures s == LeadingWhitespace(s) + r + TrailingWhitespace(s)
  {
    var i, j := StripStart(s), StripEnd(s);
    var t := s[i..];
    assert i < j ==> !IsWhitespace(s[i]);
    assert i < j ==> s[j - 1] == t[|t| - 1 - SpanEnd(t, IsWhitespace)];
    assert s == s[..i] + s[i..j] + s[j..];
    s[i..j]
  }

  /** The two properties of `Strip` determine its result: any way of writing
      `s` as whitespace + core + whitespace, with a core that has no
      whitespace at its edges, has the core `Strip(s)`. */
  lemma StripUnique(s: string, lead: string, core: string, trail: string)
    requires AllWhitespace(lead) && AllWhitespace(trail) && NoEdgeWhitespace(core)
    requires s == lead + core + trail
    ensures Strip(s) == core
  {
    if core == [] {
      assert s == lead + trail;
      assert AllWhitespace(s);
      SpanOfRun(s, [], IsWhitespace);
      assert s + [] == s;
    } else {
      SpanOfRun(lead, core + trail, IsWhitespace);
      assert s == lead + (core + trail);
      var t := s[|lead|..];
      assert t == core + trail;
      SpanEndOfRun(core, trail, IsWhitespace);
      assert t[..|core|] == core;
    }
  }
}
