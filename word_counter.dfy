/** The word-frequency ranking both scripts use: `Counter(words).most_common(n)`
    in the text processor and `pd.Series(words).value_counts().head(n)` in the
    dashboard. Words with higher counts come first; equal counts keep the
    order in which the words first occur. For `most_common` this follows from
    a `Counter` remembering insertion order and sorting stably; for
    `value_counts` it is an assumption, since pandas does not document the
    order of equal counts. */
module WordCounter {
  import opened Seqs

  /** One entry of the ranking: a word and its number of occurrences. */
  type Entry = (string, nat)

  /** Position of the first occurrence of `w`, or `|words|` when it is absent. */
  function FirstIndex(words: seq<string>, w: string): (i: nat)
    ensures i <= |words|
    ensures i < |words| <==> w in words
    ensures i < |words| ==> words[i] == w
    ensures forall j :: 0 <= j < i ==> words[j] != w
  {
    if words == [] then 0
    else if words[0] == w then 0
    else 1 + FirstIndex(words[1..], w)
  }

  /** `a` is ranked before `b`: more occurrences, or as many and an earlier
      first occurrence. */
  predicate RanksBefore(words: seq<string>, a: string, b: string) {
    Count(words, a) > Count(words, b)
    || (Count(words, a) == Count(words, b) && FirstIndex(words, a) < FirstIndex(words, b))
  }

  /** Two different words of the text are always ordered one way or the
      other, and never both ways. */
  lemma RanksBeforeTotal(words: seq<string>, a: string, b: string)
    requires a in words && b in words
    ensures a == b || RanksBefore(words, a, b) || RanksBefore(words, b, a)
    ensures !(RanksBefore(words, a, b) && RanksBefore(words, b, a))
  {
    assert a != b ==> words[FirstIndex(words, a)] != words[FirstIndex(words, b)];
  }

  /** The distinct words of the text, each once (in last-occurrence order;
      the ranking does not depend on this order). */
  function Distinct(words: seq<string>): (d: seq<string>)
    ensures NoDup(d)
    ensures forall i :: 0 <= i < |d| ==> d[i] in words
    ensures forall i :: 0 <= i < |words| ==> words[i] in d
  {
    if words == [] then []
    else
      var rest := Distinct(words[1..]);
      if words[0] in rest then rest
      else
        assert forall i :: 0 <= i < |rest| ==> ([words[0]] + rest)[i + 1] == rest[i];
        [words[0]] + rest
  }

  /** The candidate ranked first. */
  function Best(words: seq<string>, candidates: seq<string>): (b: string)
    requires candidates != []
    requires forall i :: 0 <= i < |candidates| ==> candidates[i] in words
    ensures b in candidates
    ensures forall c :: c in candidates && c != b ==> RanksBefore(words, b, c)
  {
    if |candidates| == 1 then candidates[0]
    else
      var r := Best(words, candidates[1..]);
      assert forall c :: c in candidates && c != candidates[0] ==> c in candidates[1..];
      if RanksBefore(words, candidates[0], r) then candidates[0]
      else
        RanksBeforeTotal(words, candidates[0], r);
        r
  }

  /** The words of a ranking, in ranking order. */
  function Keys(r: seq<Entry>): (k: seq<string>)
    ensures |k| == |r|
    ensures forall i :: 0 <= i < |r| ==> k[i] == r[i].0
  {
    if r == [] then [] else [r[0].0] + Keys(r[1..])
  }

  /** The first `n` candidates in ranking order, each with its count. */
  function Ranked(words: seq<string>, candidates: seq<string>, n: nat): (r: seq<Entry>)
    requires forall i :: 0 <= i < |candidates| ==> candidates[i] in words
    requires NoDup(candidates)
    ensures |r| == if n < |candidates| then n else |candidates|
    ensures forall i :: 0 <= i < |r| ==> r[i].0 in candidates && r[i].1 == Count(words, r[i].0)
    ensures forall i, j :: 0 <= i < j < |r| ==> RanksBefore(words, r[i].0, r[j].0)
    ensures forall c, i :: c in candidates && c !in Keys(r) && 0 <= i < |r| ==>
      RanksBefore(words, r[i].0, c)
    decreases n
  {
    if n == 0 || candidates == [] then []
    else
      var b := Best(words, candidates);
      var rest := Remove(candidates, b);
      RemoveNoDup(candidates, b);
      var tail := Ranked(words, rest, n - 1);
      var r := [(b, Count(words, b))] + tail;
      RankedStepEntries(words, candidates, b, rest, tail, r);
      RankedStepOrder(words, candidates, b, rest, tail, r);
      RankedStepRest(words, candidates, b, rest, tail, r);
      r
  }

  /** The step of `Ranked`: the best candidate, then the ranking of the
      others, gives entries of candidates with their counts. */
  lemma RankedStepEntries(words: seq<string>, candidates: seq<string>, b: string,
                          rest: seq<string>, tail: seq<Entry>, r: seq<Entry>)
    requires b in candidates
    requires rest == Remove(candidates, b)
    requires forall i :: 0 <= i < |tail| ==> tail[i].0 in rest && tail[i].1 == Count(words, tail[i].0)
    requires r == [(b, Count(words, b))] + tail
    ensures forall i :: 0 <= i < |r| ==> r[i].0 in candidates && r[i].1 == Count(words, r[i].0)
  {
    forall i | 0 < i < |r| ensures r[i].0 in candidates && r[i].1 == Count(words, r[i].0) {
      assert r[i] == tail[i - 1];
    }
  }

  /** The step of `Ranked` keeps the entries in ranking order. */
  lemma RankedStepOrder(words: seq<string>, candidates: seq<string>, b: string,
                        rest: seq<string>, tail: seq<Entry>, r: seq<Entry>)
    requires forall c :: c in candidates && c != b ==> RanksBefore(words, b, c)
    requires rest == Remove(candidates, b)
    requires forall i :: 0 <= i < |tail| ==> tail[i].0 in rest
    requires forall i, j :: 0 <= i < j < |tail| ==> RanksBefore(words, tail[i].0, tail[j].0)
    requires r == [(b, Count(words, b))] + tail
    ensures forall i, j :: 0 <= i < j < |r| ==> RanksBefore(words, r[i].0, r[j].0)
  {
    forall i, j | 0 <= i < j < |r| ensures RanksBefore(words, r[i].0, r[j].0) {
      assert r[j].0 == tail[j - 1].0;
      if i > 0 {
        assert r[i].0 == tail[i - 1].0;
      }
    }
  }

  /** The step of `Ranked` ranks every entry before every candidate it
      leaves out. */
  lemma RankedStepRest(words: seq<string>, candidates: seq<string>, b: string,
                       rest: seq<string>, tail: seq<Entry>, r: seq<Entry>)
    requires forall c :: c in candidates && c != b ==> RanksBefore(words, b, c)
    requires rest == Remove(candidates, b)
    requires forall c, i :: c in rest && c !in Keys(tail) && 0 <= i < |tail| ==>
      RanksBefore(words, tail[i].0, c)
    requires r == [(b, Count(words, b))] + tail
    ensures forall c, i :: c in candidates && c !in Keys(r) && 0 <= i < |r| ==>
      RanksBefore(words, r[i].0, c)
  {
    assert Keys(r) == [b] + Keys(tail);
    forall c, i | c in candidates && c !in Keys(r) && 0 <= i < |r|
      ensures RanksBefore(words, r[i].0, c)
    {
      assert c != b && c !in Keys(tail);
      var k :| 0 <= k < |candidates| && candidates[k] == c;
      assert c in rest;
      if i > 0 {
        assert r[i].0 == tail[i - 1].0;
      }
    }
  }

  /** What `most_common(n)` returns: at most `n` entries; each pairs a word
      of the text with its number of occurrences; the entries are in
      ranking order, hence with non-increasing counts, equal counts in
      first-occurrence order and no word twice; every word of the text that
      is left out ranks after every entry; and fewer than `n` entries means
      no word was left out. */
  ghost predicate IsMostCommon(words: seq<string>, n: nat, r: seq<Entry>) {
    && |r| <= n
    && (forall i :: 0 <= i < |r| ==> r[i].0 in words && r[i].1 == Count(words, r[i].0))
    && (forall i, j :: 0 <= i < j < |r| ==> RanksBefore(words, r[i].0, r[j].0))
    && (forall w, i :: w in words && w !in Keys(r) && 0 <= i < |r| ==> RanksBefore(words, r[i].0, w))
    && (|r| < n ==> forall w :: w in words ==> w in Keys(r))
  }

  /** `Counter(words).most_common(n)`. */
  function MostCommon(words: seq<string>, n: nat): (r: seq<Entry>)
    ensures IsMostCommon(words, n, r)
  {
    var d := Distinct(words);
    var r := Ranked(words, d, n);
    assert forall w :: w in words ==> w in d;
    RankedShortTakesAll(words, d, n);
    r
  }

  /** A ranking shorter than asked for has taken every candidate. */
  lemma RankedShortTakesAll(words: seq<string>, candidates: seq<string>, n: nat)
    requires forall i :: 0 <= i < |candidates| ==> candidates[i] in words
    requires NoDup(candidates)
    ensures var r := Ranked(words, candidates, n);
      |r| < n ==> forall c :: c in candidates ==> c in Keys(r)
  {
    var r := Ranked(words, candidates, n);
    if |r| < n {
      var keys := Keys(r);
      var taken, all := set x | x in keys, set x | x in candidates;
      assert taken <= all by {
        forall x | x in taken ensures x in all {
          var i :| 0 <= i < |keys| && keys[i] == x;
          assert r[i].0 in candidates;
        }
      }
      RankedKeysNoDup(words, candidates, n);
      NoDupCardinality(keys);
      NoDupCardinality(candidates);
      SubsetSameSize(taken, all);
      forall c | c in candidates ensures c in keys {
        assert c in all;
      }
    }
  }

  /** No word is ranked twice. */
  lemma RankedKeysNoDup(words: seq<string>, candidates: seq<string>, n: nat)
    requires forall i :: 0 <= i < |candidates| ==> candidates[i] in words
    requires NoDup(candidates)
    ensures NoDup(Keys(Ranked(words, candidates, n)))
  {
    var r := Ranked(words, candidates, n);
    forall i, j | 0 <= i < j < |r| ensures Keys(r)[i] != Keys(r)[j] {
      RanksBeforeTotal(words, r[i].0, r[j].0);
    }
  }

  /** In ranking order counts never increase, and words with equal counts
      appear in first-occurrence order. */
  lemma MostCommonOrder(words: seq<string>, n: nat, i: nat, j: nat)
    requires i < j < |MostCommon(words, n)|
    ensures MostCommon(words, n)[i].1 >= MostCommon(words, n)[j].1
    ensures MostCommon(words, n)[i].1 == MostCommon(words, n)[j].1 ==>
      FirstIndex(words, MostCommon(words, n)[i].0) < FirstIndex(words, MostCommon(words, n)[j].0)
  {
    var r := MostCommon(words, n);
    assert RanksBefore(words, r[i].0, r[j].0);
  }

  /** No entry repeats a word, so there are at most as many entries as
      distinct words. */
  lemma MostCommonDistinct(words: seq<string>, n: nat)
    ensures NoDup(Keys(MostCommon(words, n)))
    ensures |MostCommon(words, n)| <= |set w | w in words|
  {
    RankingSize(words, n, MostCommon(words, n));
  }

  /** A ranking has no repeated word, so it has at most as many entries as
      there are distinct words. */
  lemma RankingSize(words: seq<string>, n: nat, r: seq<Entry>)
    requires IsMostCommon(words, n, r)
    ensures NoDup(Keys(r))
    ensures |r| <= |set w | w in words|
  {
    var k := Keys(r);
    forall i, j | 0 <= i < j < |k| ensures k[i] != k[j] {
      assert RanksBefore(words, r[i].0, r[j].0);
    }
    NoDupCardinality(k);
    assert (set x | x in k) <= (set w | w in words) by {
      forall x | x in k ensures x in words {
        var i :| 0 <= i < |k| && k[i] == x;
      }
    }
    SubsetSize(set x | x in k, set w | w in words);
  }

  /** The properties in `IsMostCommon` leave no freedom: two rankings that
      both have them agree entry by entry. */
  lemma {:induction false} MostCommonUniqueAt(words: seq<string>, n: nat, r1: seq<Entry>, r2: seq<Entry>, i: nat)
    requires IsMostCommon(words, n, r1) && IsMostCommon(words, n, r2)
    requires i < |r1| && i < |r2|
    ensures r1[i] == r2[i]
    decreases i
  {
    forall j | 0 <= j < i ensures r1[j] == r2[j] {
      MostCommonUniqueAt(words, n, r1, r2, j);
    }
    var a, b := r1[i].0, r2[i].0;
    RanksBeforeTotal(words, a, b);
    NotOvertaken(words, n, r1, r2, i);
    NotOvertaken(words, n, r2, r1, i);
  }

  /** Helper for `MostCommonUniqueAt`: when two rankings agree before `i`,
      the word the second puts at `i` ranks no later than the word the first
      puts there. */
  lemma NotOvertaken(words: seq<string>, n: nat, r1: seq<Entry>, r2: seq<Entry>, i: nat)
    requires IsMostCommon(words, n, r1) && IsMostCommon(words, n, r2)
    requires i < |r1| && i < |r2|
    requires forall j :: 0 <= j < i ==> r1[j] == r2[j]
    ensures r1[i].0 == r2[i].0 || RanksBefore(words, r2[i].0, r1[i].0)
  {
    var a, b := r1[i].0, r2[i].0;
    // `a` does not stand before `i` in r2, since r2 agrees with r1 there
    forall j | 0 <= j < i ensures Keys(r2)[j] != a {
      assert RanksBefore(words, r1[j].0, r1[i].0);
    }
    if a in Keys(r2) {
      var j :| 0 <= j < |r2| && Keys(r2)[j] == a;
      assert i <= j;
      if i < j {
        assert RanksBefore(words, r2[i].0, r2[j].0);
      }
    }
  }

  lemma MostCommonUnique(words: seq<string>, n: nat, r1: seq<Entry>, r2: seq<Entry>)
    requires IsMostCommon(words, n, r1) && IsMostCommon(words, n, r2)
    ensures r1 == r2
  {
    forall i | 0 <= i < |r1| && i < |r2| ensures r1[i] == r2[i] {
      MostCommonUniqueAt(words, n, r1, r2, i);
    }
    NoLongerRanking(words, n, r1, r2);
    NoLongerRanking(words, n, r2, r1);
  }

  /** Helper for `MostCommonUnique`: when two rankings agree on their common
      length, the second is no longer than the first. */
  lemma NoLongerRanking(words: seq<string>, n: nat, r1: seq<Entry>, r2: seq<Entry>)
    requires IsMostCommon(words, n, r1) && IsMostCommon(words, n, r2)
    requires forall i :: 0 <= i < |r1| && i < |r2| ==> r1[i] == r2[i]
    ensures |r2| <= |r1|
  {
    if |r1| < n {
      // r1 lists every word, so every word r2 lists is in r1
      RankingSize(words, n, r1);
      RankingSize(words, n, r2);
      KeysIncluded(Keys(r2), Keys(r1), words);
    }
  }

  /** A duplicate-free sequence of words, all of which `all` lists, is no
      longer than `all` when `all` has no duplicates. */
  lemma KeysIncluded(k2: seq<string>, k1: seq<string>, words: seq<string>)
    requires NoDup(k1) && NoDup(k2)
    requires forall x :: x in k2 ==> x in words
    requires forall x :: x in words ==> x in k1
    ensures |k2| <= |k1|
  {
    NoDupCardinality(k2);
    NoDupCardinality(k1);
    var s1, s2 := set x | x in k1, set x | x in k2;
    assert s2 <= s1;
    SubsetSize(s2, s1);
  }
}
