/** Generic facts about sequences that the string operations below share:
    counting, filtering, the longest prefix or suffix in a character class,
    runs of a class, concatenation and Python's `sep.join(parts)`. */
module Seqs {

  /** Number of occurrences of `x` in `s` (Python's `list.count`). */
  function Count<T(==)>(s: seq<T>, x: T): (n: nat)
    ensures n <= |s|
    ensures n == 0 <==> x !in s
  {
    if s == [] then 0 else (if s[0] == x then 1 else 0) + Count(s[1..], x)
  }

  lemma {:induction false} CountAppend<T>(a: seq<T>, b: seq<T>, x: T)
    ensures Count(a + b, x) == Count(a, x) + Count(b, x)
  {
    if a == [] {
      assert a + b == b;
    } else {
      assert (a + b)[1..] == a[1..] + b;
      CountAppend(a[1..], b, x);
    }
  }

  /** No element occurs twice. */
  predicate NoDup<T(==)>(s: seq<T>) {
    forall i, j :: 0 <= i < j < |s| ==> s[i] != s[j]
  }

  /** The head of a sequence without duplicates does not recur in its tail. */
  lemma NoDupTail<T>(s: seq<T>)
    requires s != [] && NoDup(s)
    ensures s[0] !in s[1..] && NoDup(s[1..])
  {
    assert forall k :: 0 <= k < |s[1..]| ==> s[1..][k] == s[k + 1] != s[0];
  }

  /** `s` without any occurrence of `x`, order kept. */
  function Remove<T(==)>(s: seq<T>, x: T): (r: seq<T>)
    ensures forall i :: 0 <= i < |r| ==> r[i] in s && r[i] != x
    ensures forall i :: 0 <= i < |s| && s[i] != x ==> s[i] in r
    ensures x !in s ==> r == s
  {
    if s == [] then []
    else if s[0] == x then Remove(s[1..], x)
    else [s[0]] + Remove(s[1..], x)
  }

  /** Removing a present element from a sequence without duplicates drops
      exactly one element and keeps the rest duplicate-free. */
  lemma {:induction false} RemoveNoDup<T>(s: seq<T>, x: T)
    requires NoDup(s)
    ensures NoDup(Remove(s, x))
    ensures x in s ==> |Remove(s, x)| == |s| - 1
  {
    if s != [] {
      NoDupTail(s);
      RemoveNoDup(s[1..], x);
      if s[0] != x {
        var t := Remove(s[1..], x);
        assert Remove(s, x) == [s[0]] + t;
        assert s[0] !in t;
        forall i, j | 0 <= i < j < |[s[0]] + t| ensures ([s[0]] + t)[i] != ([s[0]] + t)[j] {
          if i > 0 {
            assert ([s[0]] + t)[i] == t[i - 1] && ([s[0]] + t)[j] == t[j - 1];
          } else {
            assert ([s[0]] + t)[j] == t[j - 1];
          }
        }
      }
    }
  }

  /** A sequence without duplicates has as many elements as its set. */
  lemma {:induction false} NoDupCardinality<T>(s: seq<T>)
    requires NoDup(s)
    ensures |set x | x in s| == |s|
  {
    if s != [] {
      NoDupCardinality(s[1..]);
      assert (set x | x in s) == (set x | x in s[1..]) + {s[0]};
      NoDupTail(s);
    }
  }

  /** A subset as large as its superset is the whole superset. */
  lemma SubsetSameSize<T>(a: set<T>, b: set<T>)
    requires a <= b && |a| == |b|
    ensures a == b
  {
    assert a * b == a && a + b == b;
    assert |b - a| == 0;
  }

  /** A subset is no larger than its superset. */
  lemma SubsetSize<T>(a: set<T>, b: set<T>)
    requires a <= b
    ensures |a| <= |b|
  {
    assert b == a + (b - a);
    assert a * (b - a) == {};
  }

  /** `a` is `s` with some elements left out, the rest kept in order. */
  predicate IsSubsequence<T(==)>(a: seq<T>, s: seq<T>)
    decreases |s|
  {
    if a == [] then true
    else if s == [] then false
    else (a[0] == s[0] && IsSubsequence(a[1..], s[1..])) || IsSubsequence(a, s[1..])
  }

  /** A subsequence has no more occurrences of anything than its sequence. */
  lemma {:induction false} SubsequenceCount<T>(a: seq<T>, s: seq<T>, x: T)
    requires IsSubsequence(a, s)
    ensures Count(a, x) <= Count(s, x)
    decreases |s|
  {
    if a != [] {
      if a[0] == s[0] && IsSubsequence(a[1..], s[1..]) {
        SubsequenceCount(a[1..], s[1..], x);
      } else {
        SubsequenceCount(a, s[1..], x);
      }
    }
  }

  /** A subsequence that keeps every occurrence of the head of `s` starts
      with it; one that keeps none of them does without it. */
  lemma SubsequenceHead<T>(a: seq<T>, s: seq<T>)
    requires s != [] && IsSubsequence(a, s)
    ensures Count(a, s[0]) == 0 ==> IsSubsequence(a, s[1..])
    ensures Count(a, s[0]) == Count(s, s[0]) ==> a != [] && a[0] == s[0] && IsSubsequence(a[1..], s[1..])
  {
    if a != [] && !(a[0] == s[0] && IsSubsequence(a[1..], s[1..])) {
      SubsequenceCount(a, s[1..], s[0]);
    }
  }

  /** Two subsequences of `s` that keep, of each value, either none or all
      of its occurrences, and as many as each other, are the same. */
  lemma {:induction false} SubsequenceSameCounts<T>(a: seq<T>, b: seq<T>, s: seq<T>)
    requires IsSubsequence(a, s) && IsSubsequence(b, s)
    requires forall c :: Count(a, c) == Count(b, c)
    requires forall c :: Count(a, c) == 0 || Count(a, c) == Count(s, c)
    ensures a == b
    decreases |s|
  {
    if s == [] {
      assert a == [] && b == [];
    } else {
      var x := s[0];
      SubsequenceHead(a, s);
      SubsequenceHead(b, s);
      if Count(a, x) == 0 {
        forall c ensures Count(a, c) == 0 || Count(a, c) == Count(s[1..], c) {
          assert c != x ==> Count(s, c) == Count(s[1..], c);
        }
        SubsequenceSameCounts(a, b, s[1..]);
      } else {
        forall c ensures Count(a[1..], c) == Count(b[1..], c)
          && (Count(a[1..], c) == 0 || Count(a[1..], c) == Count(s[1..], c))
        {
          assert Count(a, c) == (if x == c then 1 else 0) + Count(a[1..], c);
          assert Count(b, c) == (if x == c then 1 else 0) + Count(b[1..], c);
        }
        SubsequenceSameCounts(a[1..], b[1..], s[1..]);
        assert a == [x] + a[1..] && b == [x] + b[1..];
      }
    }
  }

  /** The elements of `s` that satisfy `p`, in order. */
  function Filter<T>(s: seq<T>, p: T -> bool): (r: seq<T>)
    ensures |r| <= |s|
    ensures forall i :: 0 <= i < |r| ==> p(r[i])
  {
    if s == [] then [] else (if p(s[0]) then [s[0]] else []) + Filter(s[1..], p)
  }

  lemma {:induction false} FilterAppend<T>(a: seq<T>, b: seq<T>, p: T -> bool)
    ensures Filter(a + b, p) == Filter(a, p) + Filter(b, p)
  {
    if a == [] {
      assert a + b == b;
    } else {
      assert (a + b)[1..] == a[1..] + b;
      FilterAppend(a[1..], b, p);
    }
  }

  lemma {:induction false} FilterAll<T>(s: seq<T>, p: T -> bool)
    requires forall i :: 0 <= i < |s| ==> p(s[i])
    ensures Filter(s, p) == s
  {
    if s != [] {
      FilterAll(s[1..], p);
    }
  }

  lemma {:induction false} FilterNone<T>(s: seq<T>, p: T -> bool)
    requires forall i :: 0 <= i < |s| ==> !p(s[i])
    ensures Filter(s, p) == []
  {
    if s != [] {
      FilterNone(s[1..], p);
    }
  }

  /** Length of the longest prefix of `s` whose elements all satisfy `p`. */
  function Span<T>(s: seq<T>, p: T -> bool): (k: nat)
    ensures k <= |s|
    ensures forall i :: 0 <= i < k ==> p(s[i])
    ensures k < |s| ==> !p(s[k])
  {
    if s == [] || !p(s[0]) then 0 else 1 + Span(s[1..], p)
  }

  /** The two properties of `Span` determine it: a run of `p` followed by
      the end or by an element outside `p`. */
  lemma SpanOfRun<T>(a: seq<T>, b: seq<T>, p: T -> bool)
    requires forall i :: 0 <= i < |a| ==> p(a[i])
    requires b == [] || !p(b[0])
    ensures Span(a + b, p) == |a|
  {
    forall i | 0 <= i < |a| ensures (a + b)[i] == a[i] { }
    if b != [] {
      assert (a + b)[|a|] == b[0];
    }
  }

  /** Elements appended after the end of a run do not change it. */
  lemma SpanOfPrefix<T>(a: seq<T>, b: seq<T>, p: T -> bool)
    requires Span(a, p) < |a|
    ensures Span(a + b, p) == Span(a, p)
  {
    var k := Span(a, p);
    assert a + b == a[..k] + (a[k..] + b);
    assert (a[k..] + b)[0] == a[k];
    SpanOfRun(a[..k], a[k..] + b, p);
  }

  /** Length of the longest suffix of `s` whose elements all satisfy `p`. */
  function SpanEnd<T>(s: seq<T>, p: T -> bool): (k: nat)
    ensures k <= |s|
    ensures forall i :: |s| - k <= i < |s| ==> p(s[i])
    ensures k < |s| ==> !p(s[|s| - 1 - k])
  {
    if s == [] || !p(s[|s| - 1]) then 0 else 1 + SpanEnd(s[..|s| - 1], p)
  }

  lemma SpanEndOfRun<T>(a: seq<T>, b: seq<T>, p: T -> bool)
    requires forall i :: 0 <= i < |b| ==> p(b[i])
    requires a == [] || !p(a[|a| - 1])
    ensures SpanEnd(a + b, p) == |b|
  {
    var s := a + b;
    forall i | 0 <= i < |b| ensures s[|a| + i] == b[i] { }
    if a != [] {
      assert s[|s| - 1 - |b|] == a[|a| - 1];
    }
  }

  /** Number of maximal runs of elements satisfying `p`, counted by their
      last elements: an element in `p` followed by the end or by an element
      outside `p`. */
  function RunCount<T>(s: seq<T>, p: T -> bool): nat {
    if s == [] then 0
    else (if p(s[0]) && (|s| == 1 || !p(s[1])) then 1 else 0) + RunCount(s[1..], p)
  }

  /** A stretch without `p` adds no run. */
  lemma {:induction false} RunCountSkip<T>(a: seq<T>, b: seq<T>, p: T -> bool)
    requires forall i :: 0 <= i < |a| ==> !p(a[i])
    ensures RunCount(a + b, p) == RunCount(b, p)
  {
    if a == [] {
      assert a + b == b;
    } else {
      assert (a + b)[1..] == a[1..] + b;
      RunCountSkip(a[1..], b, p);
    }
  }

  /** A maximal run of `p` adds exactly one run. */
  lemma {:induction false} RunCountRun<T>(a: seq<T>, b: seq<T>, p: T -> bool)
    requires a != []
    requires forall i :: 0 <= i < |a| ==> p(a[i])
    requires b == [] || !p(b[0])
    ensures RunCount(a + b, p) == 1 + RunCount(b, p)
  {
    assert (a + b)[1..] == a[1..] + b;
    if |a| == 1 {
      assert a[1..] + b == b;
      assert |a + b| == 1 || (a + b)[1] == b[0];
    } else {
      assert (a + b)[1] == a[1];
      RunCountRun(a[1..], b, p);
    }
  }

  /** All the parts one after the other. */
  function Concat<T>(parts: seq<seq<T>>): seq<T> {
    if parts == [] then [] else parts[0] + Concat(parts[1..])
  }

  /** Sum of the lengths of the parts (Python's `sum(len(p) for p in parts)`). */
  function TotalLength<T>(parts: seq<seq<T>>): nat {
    if parts == [] then 0 else |parts[0]| + TotalLength(parts[1..])
  }

  lemma {:induction false} ConcatLength<T>(parts: seq<seq<T>>)
    ensures |Concat(parts)| == TotalLength(parts)
  {
    if parts != [] {
      ConcatLength(parts[1..]);
    }
  }

  /** When no part is empty there are at most as many parts as elements. */
  lemma {:induction false} PartsAtMostTotalLength<T>(parts: seq<seq<T>>)
    requires forall i :: 0 <= i < |parts| ==> parts[i] != []
    ensures |parts| <= TotalLength(parts)
  {
    if parts != [] {
      PartsAtMostTotalLength(parts[1..]);
    }
  }

  /** Python's `sep.join(parts)`. */
  function Join<T>(parts: seq<seq<T>>, sep: seq<T>): seq<T> {
    if |parts| == 0 then []
    else if |parts| == 1 then parts[0]
    else parts[0] + sep + Join(parts[1..], sep)
  }

  /** Where part `i` begins in `Join(parts, sep)`. */
  function PartOffset<T>(parts: seq<seq<T>>, sep: seq<T>, i: nat): nat
    requires i <= |parts|
  {
    if i == 0 then 0 else |parts[0]| + |sep| + PartOffset(parts[1..], sep, i - 1)
  }

  /** A slice of the second half of a concatenation. */
  lemma SliceShift<T>(a: seq<T>, b: seq<T>, x: nat, y: nat)
    requires x <= y <= |b|
    ensures (a + b)[|a| + x..|a| + y] == b[x..y]
  {
  }

  /** The first part and the separator after it open the joined sequence. */
  lemma JoinLayoutFirst<T>(parts: seq<seq<T>>, sep: seq<T>)
    requires parts != []
    ensures |parts[0]| <= |Join(parts, sep)|
    ensures Join(parts, sep)[..|parts[0]|] == parts[0]
    ensures |parts| > 1 ==>
      |parts[0]| + |sep| <= |Join(parts, sep)| &&
      Join(parts, sep)[|parts[0]|..|parts[0]| + |sep|] == sep
  {
    if |parts| > 1 {
      var j := Join(parts, sep);
      assert j == parts[0] + sep + Join(parts[1..], sep);
      assert j[..|parts[0]|] == parts[0];
      assert j[|parts[0]|..|parts[0]| + |sep|] == sep;
    }
  }

  /** The joined sequence ends with its last part: nothing follows it. */
  lemma {:induction false} JoinEnd<T>(parts: seq<seq<T>>, sep: seq<T>)
    requires parts != []
    ensures |Join(parts, sep)| == PartOffset(parts, sep, |parts| - 1) + |parts[|parts| - 1]|
    decreases |parts|
  {
    if |parts| > 1 {
      JoinEnd(parts[1..], sep);
      assert parts[1..][|parts| - 2] == parts[|parts| - 1];
    }
  }

  /** Every part stands, unchanged, at its offset in the joined sequence,
      a separator follows every part but the last, and the last part ends
      the joined sequence. */
  lemma {:induction false} JoinLayout<T>(parts: seq<seq<T>>, sep: seq<T>, i: nat)
    requires i < |parts|
    ensures PartOffset(parts, sep, i) + |parts[i]| <= |Join(parts, sep)|
    ensures Join(parts, sep)[PartOffset(parts, sep, i)..PartOffset(parts, sep, i) + |parts[i]|] == parts[i]
    ensures i + 1 < |parts| ==>
      PartOffset(parts, sep, i + 1) == PartOffset(parts, sep, i) + |parts[i]| + |sep| &&
      PartOffset(parts, sep, i + 1) <= |Join(parts, sep)| &&
      Join(parts, sep)[PartOffset(parts, sep, i) + |parts[i]|..PartOffset(parts, sep, i + 1)] == sep
    ensures i + 1 == |parts| ==> |Join(parts, sep)| == PartOffset(parts, sep, i) + |parts[i]|
    decreases i
  {
    if i + 1 == |parts| {
      JoinEnd(parts, sep);
    }
    if i == 0 {
      JoinLayoutFirst(parts, sep);
    } else {
      var head := parts[0] + sep;
      var tail := parts[1..];
      var rest := Join(tail, sep);
      assert Join(parts, sep) == head + rest;
      assert parts[i] == tail[i - 1];
      JoinLayout(tail, sep, i - 1);
      var o := PartOffset(tail, sep, i - 1);
      assert PartOffset(parts, sep, i) == |head| + o;
      SliceShift(head, rest, o, o + |parts[i]|);
      if i + 1 < |parts| {
        var o' := PartOffset(tail, sep, i);
        assert PartOffset(parts, sep, i + 1) == |head| + o';
        SliceShift(head, rest, o + |parts[i]|, o');
      }
    }
  }
}
