/**
 * The extractive summarizer `summarize_text`: split the text into sentences,
 * score every sentence by the whole-text frequencies of its content words,
 * keep the best `max_sentences` (higher score first, earlier sentence on a
 * tie) and give them back in their original order, joined by single spaces.
 */
module Summarizer {
  import opened Sequences
  import opened Text
  import opened Sentences

  // ---------------------------------------------------------------------------
  // Tokens: `re.findall(r"\w+", s)` and the content words kept from them.

  predicate AllWordChars(s: string)
  {
    forall i :: 0 <= i < |s| ==> IsWordChar(s[i])
  }

  /** `re.findall(r"\w+", s)`: the maximal runs of word characters, left to right. */
  function Words(s: string): (words: seq<string>)
    ensures forall i :: 0 <= i < |words| ==> words[i] != [] && AllWordChars(words[i])
    decreases |s|
  {
    if s == [] then []
    else if !IsWordChar(s[0]) then Words(s[1..])
    else
      var e := RunEnd(s, 0, IsWordChar);
      [s[..e]] + Words(s[e..])
  }

  /** The word characters of `s`, in order. */
  function WordCharsOf(s: string): string
  {
    if s == [] then []
    else (if IsWordChar(s[0]) then [s[0]] else []) + WordCharsOf(s[1..])
  }

  lemma {:induction false} WordCharsOfAppend(a: string, b: string)
    ensures WordCharsOf(a + b) == WordCharsOf(a) + WordCharsOf(b)
  {
    if a == [] {
      assert a + b == b;
    } else {
      var head: string := if IsWordChar(a[0]) then [a[0]] else [];
      assert (a + b)[0] == a[0];
      assert (a + b)[1..] == a[1..] + b;
      WordCharsOfAppend(a[1..], b);
      calc {
        WordCharsOf(a + b);
        head + WordCharsOf(a[1..] + b);
        head + (WordCharsOf(a[1..]) + WordCharsOf(b));
        { assert head + (WordCharsOf(a[1..]) + WordCharsOf(b))
            == (head + WordCharsOf(a[1..])) + WordCharsOf(b); }
        WordCharsOf(a) + WordCharsOf(b);
      }
    }
  }

  lemma {:induction false} WordCharsOfWord(w: string)
    requires AllWordChars(w)
    ensures WordCharsOf(w) == w
  {
    if w != [] {
      WordCharsOfWord(w[1..]);
    }
  }

  /** The tokens found are exactly the word characters of `s`, nothing dropped or added. */
  lemma {:induction false} WordsCoverWordChars(s: string)
    ensures Flatten(Words(s)) == WordCharsOf(s)
    decreases |s|
  {
    if s == [] {
    } else if !IsWordChar(s[0]) {
      WordsCoverWordChars(s[1..]);
    } else {
      var e := RunEnd(s, 0, IsWordChar);
      WordsCoverWordChars(s[e..]);
      assert s == s[..e] + s[e..];
      WordCharsOfAppend(s[..e], s[e..]);
      WordCharsOfWord(s[..e]);
    }
  }

  /**
   * Text that meets at a non-word character is tokenized piecewise: no token
   * straddles the cut.
   */
  lemma {:induction false} WordsAppend(a: string, b: string)
    requires a == [] || b == [] || !IsWordChar(a[|a| - 1]) || !IsWordChar(b[0])
    ensures Words(a + b) == Words(a) + Words(b)
    decreases |a|
  {
    if a == [] {
      assert a + b == b;
    } else if !IsWordChar(a[0]) {
      WordsAppendSkip(a, b);
      WordsAppend(a[1..], b);
    } else {
      var e := RunEnd(a, 0, IsWordChar);
      RunEndPrefix(a, b, 0, e);
      WordsAppendRun(a, b, e);
      if e < |a| {
        assert a[e..][|a[e..]| - 1] == a[|a| - 1];
        WordsAppend(a[e..], b);
        AppendAssoc([a[..e]], Words(a[e..]), Words(b));
      } else {
        assert a[e..] == [] && a[e..] + b == b;
      }
    }
  }

  lemma AppendAssoc(x: seq<string>, y: seq<string>, z: seq<string>)
    ensures x + (y + z) == (x + y) + z
  {
  }

  /** A leading character that is not a word character is skipped in `a` and in `a + b` alike. */
  lemma {:induction false} WordsAppendSkip(a: string, b: string)
    requires a != [] && !IsWordChar(a[0])
    ensures Words(a) == Words(a[1..])
    ensures Words(a + b) == Words(a[1..] + b)
  {
    assert (a + b)[0] == a[0] && (a + b)[1..] == a[1..] + b;
  }

  /** One step of `WordsAppend`: the first token of `a + b` is the first token of `a`. */
  lemma {:induction false} WordsAppendRun(a: string, b: string, e: nat)
    requires a != [] && IsWordChar(a[0])
    requires e == RunEnd(a, 0, IsWordChar) && RunEnd(a + b, 0, IsWordChar) == e
    ensures Words(a) == [a[..e]] + Words(a[e..])
    ensures Words(a + b) == [a[..e]] + Words(a[e..] + b)
  {
    assert (a + b)[0] == a[0];
    assert (a + b)[..e] == a[..e];
    assert (a + b)[e..] == a[e..] + b;
  }

  /** A run that ends inside `a`, or that `b` cannot continue, ends at the same place in `a + b`. */
  lemma {:induction false} RunEndPrefix(a: string, b: string, from: nat, e: nat)
    requires from <= |a| && e == RunEnd(a, from, IsWordChar)
    requires e < |a| || b == [] || !IsWordChar(b[0])
    ensures RunEnd(a + b, from, IsWordChar) == e
    decreases |a| - from
  {
    if from < |a| && IsWordChar(a[from]) {
      RunEndPrefix(a, b, from + 1, e);
    }
  }

  lemma {:induction false} WordsOfBlank(s: string)
    requires AllSpace(s)
    ensures Words(s) == []
  {
    if s != [] {
      WordsOfBlank(s[1..]);
    }
  }

  /** `[w.lower() for w in words if len(w) > 2]` */
  function Significant(words: seq<string>): (r: seq<string>)
    ensures |r| <= |words|
    ensures forall i :: 0 <= i < |r| ==> |r[i]| > 2 && HasNoUpper(r[i])
  {
    if words == [] then []
    else
      var w := words[0];
      assert HasNoUpper(Lower(w));
      (if |w| > 2 then [Lower(w)] else []) + Significant(words[1..])
  }

  lemma {:induction false} SignificantAppend(a: seq<string>, b: seq<string>)
    ensures Significant(a + b) == Significant(a) + Significant(b)
  {
    if a == [] {
      assert a + b == b;
    } else {
      assert (a + b)[1..] == a[1..] + b;
      SignificantAppend(a[1..], b);
    }
  }

  /** The positions, from `from` on, of the words longer than two characters, in increasing order. */
  function LongWordPositions(words: seq<string>, from: nat): (idx: seq<int>)
    requires from <= |words|
    decreases |words| - from
  {
    if from == |words| then []
    else (if |words[from]| > 2 then [from] else []) + LongWordPositions(words, from + 1)
  }

  /**
   * The positions are those of the long words from `from` on, all of them,
   * in strictly increasing order.
   */
  lemma {:induction false} LongWordPositionsExact(words: seq<string>, from: nat)
    requires from <= |words|
    ensures forall j :: 0 <= j < |LongWordPositions(words, from)| ==>
      from <= LongWordPositions(words, from)[j] < |words| && |words[LongWordPositions(words, from)[j]]| > 2
    ensures forall a, b :: 0 <= a < b < |LongWordPositions(words, from)| ==>
      LongWordPositions(words, from)[a] < LongWordPositions(words, from)[b]
    ensures forall i :: from <= i < |words| && |words[i]| > 2 ==> i in LongWordPositions(words, from)
    decreases |words| - from
  {
    if from < |words| {
      LongWordPositionsExact(words, from + 1);
      var tail := LongWordPositions(words, from + 1);
      if |words[from]| > 2 {
        var idx := [from] + tail;
        assert LongWordPositions(words, from) == idx;
        forall a, b | 0 <= a < b < |idx|
          ensures idx[a] < idx[b]
        {
          assert idx[b] == tail[b - 1];
          if a > 0 { assert idx[a] == tail[a - 1]; }
        }
        forall i | from <= i < |words| && |words[i]| > 2
          ensures i in idx
        {
          if i > from { assert i in tail; }
        }
      } else {
        assert LongWordPositions(words, from) == tail;
      }
    }
  }

  /** Entry `j` of what `Significant` keeps is the lower-cased word at the `j`-th long-word position. */
  lemma {:induction false} SignificantAtPositions(words: seq<string>, from: nat)
    requires from <= |words|
    ensures |LongWordPositions(words, from)| == |Significant(words[from..])|
    ensures forall j :: 0 <= j < |LongWordPositions(words, from)| ==>
      0 <= LongWordPositions(words, from)[j] < |words|
      && Significant(words[from..])[j] == Lower(words[LongWordPositions(words, from)[j]])
    decreases |words| - from
  {
    if from < |words| {
      SignificantAtPositions(words, from + 1);
      var w := words[from];
      var rest := Significant(words[from + 1..]);
      var tail := LongWordPositions(words, from + 1);
      assert words[from..][1..] == words[from + 1..];
      assert words[from..][0] == w;
      if |w| > 2 {
        var r := [Lower(w)] + rest;
        var idx := [from] + tail;
        assert Significant(words[from..]) == r;
        assert LongWordPositions(words, from) == idx;
        forall j | 0 <= j < |idx|
          ensures 0 <= idx[j] < |words| && r[j] == Lower(words[idx[j]])
        {
          if j > 0 { assert idx[j] == tail[j - 1] && r[j] == rest[j - 1]; }
        }
      } else {
        assert Significant(words[from..]) == rest;
        assert LongWordPositions(words, from) == tail;
      }
    }
  }

  /**
   * `Significant` keeps, in order, exactly the words longer than two
   * characters, each lower-cased: entry `j` of the result is the lower-cased
   * word at position `idx[j]`, the positions increase strictly, and they are
   * all the positions of words longer than two characters.
   */
  lemma SignificantSelects(words: seq<string>)
    ensures var r := Significant(words);
            var idx := LongWordPositions(words, 0);
      && |idx| == |r|
      && (forall j :: 0 <= j < |idx| ==> 0 <= idx[j] < |words| && |words[idx[j]]| > 2 && r[j] == Lower(words[idx[j]]))
      && (forall a, b :: 0 <= a < b < |idx| ==> idx[a] < idx[b])
      && (forall i :: 0 <= i < |words| && |words[i]| > 2 ==> i in idx)
  {
    LongWordPositionsExact(words, 0);
    SignificantAtPositions(words, 0);
    assert words[0..] == words;
  }

  /** The lower-cased word tokens longer than two characters. */
  function ContentWords(s: string): seq<string>
  {
    Significant(Words(s))
  }

  // ---------------------------------------------------------------------------
  // The frequency table and sentence scores.

  /** Every distinct content word mapped to its number of occurrences. */
  function FrequencyTable(words: seq<string>): map<string, nat>
  {
    map w | w in words :: multiset(words)[w]
  }

  /** The counting loop `for w in words: freq[w] = freq.get(w, 0) + 1`. */
  method CountWords(words: seq<string>) returns (freq: map<string, nat>)
    ensures forall w :: w in freq <==> w in words
    ensures forall w :: w in freq ==> freq[w] == multiset(words)[w] && freq[w] >= 1
    ensures freq == FrequencyTable(words)
  {
    freq := map[];
    var i := 0;
    while i < |words|
      invariant 0 <= i <= |words|
      invariant forall w :: w in freq <==> w in words[..i]
      invariant forall w :: w in freq ==> freq[w] == multiset(words[..i])[w]
    {
      var w := words[i];
      assert words[..i + 1] == words[..i] + [w];
      freq := freq[w := (if w in freq then freq[w] else 0) + 1];
      i := i + 1;
    }
    assert words[..i] == words;
  }

  /** `freq.get(w, 0)` */
  function Count(freq: map<string, nat>, w: string): nat
  {
    if w in freq then freq[w] else 0
  }

  /** `sum(freq.get(w, 0) for w in words)` */
  function SumCounts(words: seq<string>, freq: map<string, nat>): nat
  {
    if words == [] then 0 else Count(freq, words[0]) + SumCounts(words[1..], freq)
  }

  lemma {:induction false} SumCountsAppend(a: seq<string>, b: seq<string>, freq: map<string, nat>)
    ensures SumCounts(a + b, freq) == SumCounts(a, freq) + SumCounts(b, freq)
  {
    if a == [] {
      assert a + b == b;
    } else {
      assert (a + b)[1..] == a[1..] + b;
      SumCountsAppend(a[1..], b, freq);
    }
  }

  /**
   * The sum depends only on the multiset of words: repeats count once per
   * occurrence and their order does not matter.
   */
  lemma {:induction false} SumCountsPermutation(a: seq<string>, b: seq<string>, freq: map<string, nat>)
    requires multiset(a) == multiset(b)
    ensures SumCounts(a, freq) == SumCounts(b, freq)
    decreases |a|
  {
    if a == [] {
      assert |b| == |multiset(b)| == 0;
    } else {
      var x := a[0];
      assert x in multiset(b);
      var i :| 0 <= i < |b| && b[i] == x;
      MultisetRemove(b, i);
      assert multiset(a[1..]) == multiset(a) - multiset{x} by {
        assert a == [x] + a[1..];
      }
      SumCountsPermutation(a[1..], b[..i] + b[i + 1..], freq);
      SumCountsRemove(b, i, freq);
    }
  }

  lemma MultisetRemove(b: seq<string>, i: nat)
    requires i < |b|
    ensures multiset(b[..i] + b[i + 1..]) == multiset(b) - multiset{b[i]}
  {
    assert b == b[..i] + [b[i]] + b[i + 1..];
  }

  lemma SumCountsRemove(b: seq<string>, i: nat, freq: map<string, nat>)
    requires i < |b|
    ensures SumCounts(b, freq) == Count(freq, b[i]) + SumCounts(b[..i] + b[i + 1..], freq)
  {
    assert b == b[..i] + [b[i]] + b[i + 1..];
    SumCountsAppend(b[..i] + [b[i]], b[i + 1..], freq);
    SumCountsAppend(b[..i], [b[i]], freq);
    SumCountsAppend(b[..i], b[i + 1..], freq);
  }

  /** If every word is in the table, each contributes at least one. */
  lemma {:induction false} SumCountsAtLeastLength(words: seq<string>, freq: map<string, nat>)
    requires forall w :: w in words ==> w in freq && freq[w] >= 1
    ensures SumCounts(words, freq) >= |words|
  {
    if words != [] {
      SumCountsAtLeastLength(words[1..], freq);
    }
  }

  /** `score(s)`: the sum of the table counts of the sentence's content words. */
  function Score(sentence: string, freq: map<string, nat>): nat
  {
    SumCounts(ContentWords(sentence), freq)
  }

  // ---------------------------------------------------------------------------
  // Selection of the top sentences.

  /** `(i, s, score(s))` */
  datatype Scored = Scored(index: nat, sentence: string, score: nat)

  /** `[(i, s, score(s)) for i, s in enumerate(sentences)]` */
  function ScoreAll(sentences: seq<string>, freq: map<string, nat>): (scored: seq<Scored>)
    ensures |scored| == |sentences|
    ensures forall i :: 0 <= i < |scored| ==> scored[i] == Scored(i, sentences[i], Score(sentences[i], freq))
  {
    seq(|sentences|, i requires 0 <= i < |sentences| => Scored(i, sentences[i], Score(sentences[i], freq)))
  }

  /** The sort key `(-t[2], t[0])`: higher score first, then lower index. */
  function RankKey(t: Scored): (int, int)
  {
    (-(t.score as int), t.index as int)
  }

  /** The sort key `t[0]`, the original position. */
  function PositionKey(t: Scored): (int, int)
  {
    (t.index as int, 0)
  }

  /** `a` is preferred to `b`: a higher score, or the same score and an earlier sentence. */
  predicate RankBefore(a: Scored, b: Scored)
  {
    a.score > b.score || (a.score == b.score && a.index < b.index)
  }

  /**
   * `sorted(sorted(scored, key=rank)[:k], key=position)`: the best `k`
   * sentences, back in their original order.
   */
  function TopInOrder(scored: seq<Scored>, k: int): seq<Scored>
  {
    SortBy(TakePrefix(SortBy(scored, RankKey), k), PositionKey)
  }

  /** Every entry sits at its own index, as `enumerate` makes it. */
  predicate Indexed(scored: seq<Scored>)
  {
    forall i :: 0 <= i < |scored| ==> scored[i].index == i
  }

  lemma IndexedMember(scored: seq<Scored>, y: Scored)
    requires Indexed(scored) && y in scored
    ensures y.index < |scored| && scored[y.index] == y
  {
  }

  lemma IndexedDistinct(scored: seq<Scored>)
    requires Indexed(scored)
    ensures Distinct(scored)
  {
  }

  /** The entries of `top`'s indices, in order. */
  function Indices(top: seq<Scored>): (r: seq<int>)
    ensures |r| == |top|
    ensures forall j :: 0 <= j < |r| ==> r[j] == top[j].index
  {
    if top == [] then [] else [top[0].index as int] + Indices(top[1..])
  }

  /** The rank sort and the cut at `k`, with the facts every selection lemma starts from. */
  lemma {:induction false} RankedPrefix(scored: seq<Scored>, k: int)
    requires Indexed(scored) && k >= 0
    ensures var ranked := SortBy(scored, RankKey);
      && |ranked| == |scored|
      && Distinct(ranked)
      && TakePrefix(ranked, k) == ranked[..Min(k, |scored|)]
      && |TopInOrder(scored, k)| == Min(k, |scored|)
      && multiset(TopInOrder(scored, k)) == multiset(ranked[..Min(k, |scored|)])
  {
    var ranked := SortBy(scored, RankKey);
    assert |ranked| == |multiset(ranked)| == |scored|;
    IndexedDistinct(scored);
    SortByDistinct(scored, RankKey);
    var top := TopInOrder(scored, k);
    assert |top| == |multiset(top)| == Min(k, |scored|);
  }

  /** The kept entries are entries of `scored`, in strictly increasing position. */
  lemma {:induction false} TopInOrderMembers(scored: seq<Scored>, k: int)
    requires Indexed(scored) && k >= 0
    ensures var top := TopInOrder(scored, k);
      && |top| == Min(k, |scored|)
      && (forall j :: 0 <= j < |top| ==> top[j].index < |scored| && scored[top[j].index] == top[j])
      && (forall i, j :: 0 <= i < j < |top| ==> top[i].index < top[j].index)
  {
    var ranked := SortBy(scored, RankKey);
    var top := TopInOrder(scored, k);
    RankedPrefix(scored, k);
    forall j | 0 <= j < |top|
      ensures top[j].index < |scored| && scored[top[j].index] == top[j]
    {
      assert top[j] in multiset(ranked[..Min(k, |scored|)]);
      assert top[j] in multiset(ranked);
      IndexedMember(scored, top[j]);
    }
    forall i, j | 0 <= i < j < |top|
      ensures top[i].index < top[j].index
    {
      assert KeyLe(PositionKey(top[i]), PositionKey(top[j]));
      assert top[i] != top[j] by {
        SortByDistinct(TakePrefix(ranked, k), PositionKey);
      }
    }
  }

  /** Of two distinct entries, the one the rank sort puts first ranks before the other. */
  lemma {:induction false} RankedOrder(scored: seq<Scored>, a: nat, b: nat)
    requires Indexed(scored) && a < b < |SortBy(scored, RankKey)|
    ensures var ranked := SortBy(scored, RankKey); RankBefore(ranked[a], ranked[b])
  {
    var ranked := SortBy(scored, RankKey);
    IndexedDistinct(scored);
    SortByDistinct(scored, RankKey);
    assert KeyLe(RankKey(ranked[a]), RankKey(ranked[b]));
    assert ranked[a] in multiset(scored) && ranked[b] in multiset(scored);
    IndexedMember(scored, ranked[a]);
    IndexedMember(scored, ranked[b]);
  }

  /** An entry left out ranks below an entry kept. */
  lemma {:induction false} TopInOrderRankPair(scored: seq<Scored>, k: int, x: Scored, y: Scored)
    requires Indexed(scored) && k >= 0
    requires x in scored && x !in TopInOrder(scored, k) && y in TopInOrder(scored, k)
    ensures RankBefore(y, x)
  {
    var ranked := SortBy(scored, RankKey);
    RankedPrefix(scored, k);
    assert x in ranked by {
      assert x in multiset(scored);
    }
    var b, a := CutPositions(ranked, Min(k, |scored|), TopInOrder(scored, k), x, y);
    RankedOrder(scored, b, a);
  }

  /**
   * With `top` a permutation of the first `m` entries of `ranked`, an entry of
   * `top` sits before the cut and an entry of `ranked` missing from `top` after it.
   */
  lemma {:induction false} CutPositions<T>(ranked: seq<T>, m: nat, top: seq<T>, x: T, y: T) returns (b: nat, a: nat)
    requires m <= |ranked| && multiset(top) == multiset(ranked[..m])
    requires x in ranked && x !in top && y in top
    ensures b < m <= a < |ranked| && ranked[b] == y && ranked[a] == x
  {
    var kept := ranked[..m];
    var dropped := ranked[m..];
    assert y in multiset(kept) by {
      assert y in multiset(top);
    }
    assert x in multiset(dropped) by {
      assert ranked == kept + dropped;
      assert multiset(ranked) == multiset(kept) + multiset(dropped);
      assert x in multiset(ranked);
      assert x !in multiset(top);
    }
    b :| 0 <= b < |kept| && kept[b] == y;
    var a' :| 0 <= a' < |dropped| && dropped[a'] == x;
    a := m + a';
  }

  /** Every entry left out ranks below every entry kept. */
  lemma {:induction false} TopInOrderRank(scored: seq<Scored>, k: int)
    requires Indexed(scored) && k >= 0
    ensures var top := TopInOrder(scored, k);
      forall x, y :: x in scored && x !in top && y in top ==> RankBefore(y, x)
  {
    var top := TopInOrder(scored, k);
    forall x, y | x in scored && x !in top && y in top
      ensures RankBefore(y, x)
    {
      TopInOrderRankPair(scored, k, x, y);
    }
  }

  function Texts(scored: seq<Scored>): (r: seq<string>)
    ensures |r| == |scored|
    ensures forall i :: 0 <= i < |r| ==> r[i] == scored[i].sentence
  {
    seq(|scored|, i requires 0 <= i < |scored| => scored[i].sentence)
  }

  /**
   * The sentences kept from `sentences`: all of them when there are at most
   * `k`, otherwise the best `k` in their original order.
   */
  function Select(sentences: seq<string>, freq: map<string, nat>, k: int): seq<string>
  {
    if |sentences| <= k then sentences
    else Texts(TopInOrder(ScoreAll(sentences, freq), k))
  }

  /** The positions in `sentences` of what `Select` keeps. */
  ghost function SelectIndices(sentences: seq<string>, freq: map<string, nat>, k: int): seq<int>
  {
    if |sentences| <= k then Indices(ScoreAll(sentences, freq))
    else Indices(TopInOrder(ScoreAll(sentences, freq), k))
  }

  /**
   * `Select` keeps `min(k, n)` of the `n` sentences, taken at strictly
   * increasing positions, and all of them when `n <= k`.
   */
  lemma {:induction false} SelectIsOrderedSelection(sentences: seq<string>, freq: map<string, nat>, k: int)
    requires k >= 0
    ensures var chosen := Select(sentences, freq, k);
            var idx := SelectIndices(sentences, freq, k);
      && |idx| == |chosen| == Min(k, |sentences|)
      && (forall j :: 0 <= j < |idx| ==> 0 <= idx[j] < |sentences| && chosen[j] == sentences[idx[j]])
      && (forall i, j :: 0 <= i < j < |idx| ==> idx[i] < idx[j])
      && (|sentences| <= k ==> chosen == sentences)
  {
    if |sentences| > k {
      TopInOrderMembers(ScoreAll(sentences, freq), k);
    }
  }

  /**
   * Every sentence whose position is not in `idx` scores lower than every
   * sentence whose position is, or scores the same and comes later.
   */
  predicate KeepsBest(sentences: seq<string>, freq: map<string, nat>, idx: seq<int>)
  {
    forall i, j :: 0 <= i < |sentences| && 0 <= j < |sentences| && i !in idx && j in idx ==>
      Score(sentences[j], freq) > Score(sentences[i], freq)
      || (Score(sentences[j], freq) == Score(sentences[i], freq) && j < i)
  }

  /** When sentences are dropped, the ones kept are the best by `KeepsBest`. */
  lemma {:induction false} SelectKeepsBestScores(sentences: seq<string>, freq: map<string, nat>, k: int)
    requires k >= 0 && |sentences| > k
    ensures KeepsBest(sentences, freq, SelectIndices(sentences, freq, k))
  {
    var idx := SelectIndices(sentences, freq, k);
    forall i, j | 0 <= i < |sentences| && 0 <= j < |sentences| && i !in idx && j in idx
      ensures Score(sentences[j], freq) > Score(sentences[i], freq)
        || (Score(sentences[j], freq) == Score(sentences[i], freq) && j < i)
    {
      SelectPair(sentences, freq, k, i, j);
    }
  }

  lemma {:induction false} SelectPair(sentences: seq<string>, freq: map<string, nat>, k: int, i: int, j: int)
    requires k >= 0 && |sentences| > k
    requires 0 <= i < |sentences| && 0 <= j < |sentences|
    requires i !in SelectIndices(sentences, freq, k) && j in SelectIndices(sentences, freq, k)
    ensures var scored := ScoreAll(sentences, freq); RankBefore(scored[j], scored[i])
  {
    var scored := ScoreAll(sentences, freq);
    var top := TopInOrder(scored, k);
    var idx := Indices(top);
    TopInOrderMembers(scored, k);
    var b :| 0 <= b < |idx| && idx[b] == j;
    assert top[b] == scored[j];
    assert scored[i] !in top by {
      forall a | 0 <= a < |top|
        ensures top[a] != scored[i]
      {
        assert idx[a] != i;
      }
    }
    TopInOrderRankPair(scored, k, scored[i], scored[j]);
  }

  // ---------------------------------------------------------------------------
  // The summary.

  /** The sentences `summarize_text` joins, in the order it joins them. */
  function SummarySentences(text: string, maxSentences: int): seq<string>
  {
    if text == [] then []
    else Select(SplitSentences(text), FrequencyTable(ContentWords(text)), maxSentences)
  }

  /** `summarize_text(text, max_sentences)` */
  function Summarize(text: string, maxSentences: int): string
  {
    JoinSpace(SummarySentences(text, maxSentences))
  }

  /** `summarize_text` step by step, with the frequency table built by its loop. */
  method SummarizeText(text: string, maxSentences: int) returns (summary: string)
    ensures summary == Summarize(text, maxSentences)
  {
    if text == [] {
      return "";
    }
    var sentences := SplitSentences(text);
    if |sentences| <= maxSentences {
      return JoinSpace(sentences);
    }
    var words := ContentWords(text);
    var freq := CountWords(words);
    var scored := ScoreAll(sentences, freq);
    var top := TakePrefix(SortBy(scored, RankKey), maxSentences);
    var topSorted := SortBy(top, PositionKey);
    summary := JoinSpace(Texts(topSorted));
  }

  /** The original positions of the sentences `summarize_text` keeps. */
  ghost function ChosenIndices(text: string, maxSentences: int): seq<int>
  {
    if text == [] then []
    else SelectIndices(SplitSentences(text), FrequencyTable(ContentWords(text)), maxSentences)
  }

  lemma SplitEmpty()
    ensures SplitSentences([]) == []
  {
    assert Strip([]) == [];
    assert RegexSplit([]) == [[]];
    assert Clean([[]]) == [];
  }

  /**
   * The summary is `min(k, n)` of the `n` sentences of the text, taken at
   * strictly increasing positions: a subsequence of the sentence list. When
   * `n <= k` it is the whole list.
   */
  lemma {:induction false} SummaryIsOrderedSelection(text: string, k: int)
    requires k >= 0
    ensures var sentences := SplitSentences(text);
            var chosen := SummarySentences(text, k);
            var idx := ChosenIndices(text, k);
      && |idx| == |chosen| == Min(k, |sentences|)
      && (forall j :: 0 <= j < |idx| ==> 0 <= idx[j] < |sentences| && chosen[j] == sentences[idx[j]])
      && (forall i, j :: 0 <= i < j < |idx| ==> idx[i] < idx[j])
      && (|sentences| <= k ==> chosen == sentences)
  {
    if text == [] {
      SplitEmpty();
    } else {
      SelectIsOrderedSelection(SplitSentences(text), FrequencyTable(ContentWords(text)), k);
    }
  }

  /**
   * The tie-break: when the summary drops sentences, every dropped sentence
   * scores lower than every kept one, or scores the same and comes later.
   */
  lemma {:induction false} SummaryKeepsBestScores(text: string, k: int)
    requires k >= 0
    requires |SplitSentences(text)| > k
    ensures KeepsBest(SplitSentences(text), FrequencyTable(ContentWords(text)), ChosenIndices(text, k))
  {
    var sentences := SplitSentences(text);
    var freq := FrequencyTable(ContentWords(text));
    assert text != [] by {
      SplitEmpty();
    }
    assert ChosenIndices(text, k) == SelectIndices(sentences, freq, k);
    SelectKeepsBestScores(sentences, freq, k);
  }

  lemma {:induction false} ChosenWellFormed(sentences: seq<string>, idx: seq<int>, chosen: seq<string>)
    requires WellFormed(sentences)
    requires |chosen| == |idx|
    requires forall j :: 0 <= j < |idx| ==> 0 <= idx[j] < |sentences| && chosen[j] == sentences[idx[j]]
    requires forall i, j :: 0 <= i < j < |idx| ==> idx[i] < idx[j]
    ensures WellFormed(chosen)
  {
    forall j | 0 <= j < |chosen| - 1
      ensures IsTerminator(Last(chosen[j]))
    {
      assert idx[j] < idx[j + 1];
    }
  }

  /**
   * Splitting the summary again gives back exactly the chosen sentences: the
   * output is their concatenation and nothing else.
   */
  lemma {:induction false} SummaryRoundTrip(text: string, k: int)
    requires k >= 0
    ensures SplitSentences(Summarize(text, k)) == SummarySentences(text, k)
  {
    var sentences := SplitSentences(text);
    SplitSentencesShape(text);
    SummaryIsOrderedSelection(text, k);
    ChosenWellFormed(sentences, ChosenIndices(text, k), SummarySentences(text, k));
    SplitJoinRoundTrip(SummarySentences(text, k));
  }

  /** The summary is empty exactly for empty or blank text. */
  lemma {:induction false} SummaryEmptyIffBlank(text: string, k: int)
    requires k >= 1
    ensures Summarize(text, k) == [] <==> AllSpace(text)
  {
    var chosen := SummarySentences(text, k);
    if AllSpace(text) {
      assert chosen == [] by {
        SplitSentencesBlank(text);
        SummaryIsOrderedSelection(text, k);
      }
    } else {
      assert chosen != [] && forall j :: 0 <= j < |chosen| ==> chosen[j] != [] by {
        SplitSentencesBlank(text);
        SummaryIsOrderedSelection(text, k);
      }
      JoinSpaceEnds(chosen);
    }
  }
}
