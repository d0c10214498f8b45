/**
 * A worked summary. Of the four sentences below, the two about cats share
 * the frequent words "cats" and "are" and score 5 each, the one about dogs
 * scores 3, and the last one has six content words that occur once each and
 * scores 6. Asked for two sentences, `summarize_text` keeps the last
 * sentence and, of the two tied at 5, the earlier one.
 *
 * Each sentence is built from its words, so that the facts about it follow
 * from general lemmas about words joined by spaces.
 */
module SummaryExample {
  import opened Sequences
  import opened Text
  import opened Sentences
  import opened Summarizer

  function FirstTokens(): seq<string> { ["Cats", "are", "great"] }
  function SecondTokens(): seq<string> { ["Cats", "are", "furry"] }
  function ThirdTokens(): seq<string> { ["Dogs", "bark", "loudly"] }
  function FourthTokens(): seq<string> { ["The", "weather", "today"] + ["is", "sunny", "and", "warm"] }

  /** "Cats are great." */
  function First(): string { JoinSpace(FirstTokens()) + "." }
  /** "Cats are furry." */
  function Second(): string { JoinSpace(SecondTokens()) + "." }
  /** "Dogs bark loudly." */
  function Third(): string { JoinSpace(ThirdTokens()) + "." }
  /** "The weather today is sunny and warm." */
  function Fourth(): string { JoinSpace(FourthTokens()) + "." }

  /** The four sentences, one space apart. */
  function Example(): string { JoinSpace([First(), Second(), Third(), Fourth()]) }

  /** The content words of each sentence, lower-cased, in order. */
  function FirstContent(): seq<string> { ["cats", "are", "great"] }
  function SecondContent(): seq<string> { ["cats", "are", "furry"] }
  function ThirdContent(): seq<string> { ["dogs", "bark", "loudly"] }
  function FourthContent(): seq<string> { ["the", "weather", "today"] + ["sunny", "and", "warm"] }

  lemma FirstText()
    ensures First() == "Cats are great."
  {
  }

  lemma SecondText()
    ensures Second() == "Cats are furry."
  {
  }

  lemma ThirdText()
    ensures Third() == "Dogs bark loudly."
  {
  }

  lemma FourthText()
    ensures Fourth() == "The weather today" + " " + "is sunny and warm" + "."
  {
    var front := ["The", "weather", "today"];
    var back := ["is", "sunny", "and", "warm"];
    JoinSpaceAppend(front, back);
    FourthFrontText();
    FourthBackText();
  }

  lemma FourthFrontText()
    ensures JoinSpace(["The", "weather", "today"]) == "The weather today"
  {
  }

  lemma FourthBackText()
    ensures JoinSpace(["is", "sunny", "and", "warm"]) == "is sunny and warm"
  {
  }

  /** Joining two non-empty lists of parts puts one space between their joins. */
  lemma {:induction false} JoinSpaceAppend(a: seq<string>, b: seq<string>)
    requires a != [] && b != []
    ensures JoinSpace(a + b) == JoinSpace(a) + " " + JoinSpace(b)
  {
    if |a| == 1 {
      assert (a + b)[1..] == b;
    } else {
      assert (a + b)[1..] == a[1..] + b;
      JoinSpaceAppend(a[1..], b);
    }
  }

  /** The example is the text of the four sentences, one space apart. */
  lemma ExampleText()
    ensures Example()
         == "Cats are great." + " " + "Cats are furry." + " " + "Dogs bark loudly." + " "
          + ("The weather today" + " " + "is sunny and warm" + ".")
  {
    JoinFourFlat(First(), Second(), Third(), Fourth());
    FirstText();
    SecondText();
    ThirdText();
    FourthText();
  }

  // ---------------------------------------------------------------------------
  // Sentences made of words.

  /** Every entry is a non-empty run of word characters. */
  predicate WordList(ws: seq<string>)
  {
    forall i :: 0 <= i < |ws| ==> ws[i] != [] && AllWordChars(ws[i])
  }

  lemma {:induction false} RunEndToEnd(s: string, from: nat)
    requires from <= |s|
    requires forall k :: from <= k < |s| ==> IsWordChar(s[k])
    ensures RunEnd(s, from, IsWordChar) == |s|
    decreases |s| - from
  {
    if from < |s| {
      RunEndToEnd(s, from + 1);
    }
  }

  lemma WordsOfWord(w: string)
    requires w != [] && AllWordChars(w)
    ensures Words(w) == [w]
  {
    RunEndToEnd(w, 0);
    assert w[..|w|] == w;
  }

  /** Words separated by single spaces are tokenized back into those words. */
  lemma {:induction false} WordsOfSpaced(ws: seq<string>)
    requires WordList(ws)
    ensures Words(JoinSpace(ws)) == ws
  {
    if |ws| == 1 {
      WordsOfWord(ws[0]);
    } else if |ws| > 1 {
      var rest := JoinSpace(ws[1..]);
      WordsOfSpaced(ws[1..]);
      WordsOfWord(ws[0]);
      assert ws[0] + " " + rest == ws[0] + (" " + rest);
      WordsAppend(ws[0], " " + rest);
      WordsAppendSkip(" " + rest, []);
      assert (" " + rest)[1..] == rest;
    }
  }

  /** The content words of a sentence of space-separated words and a final mark. */
  lemma SentenceContent(ws: seq<string>, mark: char)
    requires WordList(ws)
    requires !IsWordChar(mark)
    ensures ContentWords(JoinSpace(ws) + [mark]) == Significant(ws)
  {
    WordsOfSpaced(ws);
    WordsAppend(JoinSpace(ws), [mark]);
    assert [mark][1..] == [];
    assert Words([mark]) == [];
    assert Words(JoinSpace(ws) + [mark]) == ws;
  }

  predicate WordsAndSpaces(s: string)
  {
    forall k :: 0 <= k < |s| ==> IsWordChar(s[k]) || s[k] == ' '
  }

  /** Words joined by spaces hold only word characters and spaces. */
  lemma {:induction false} JoinSpaceChars(ws: seq<string>)
    requires WordList(ws)
    ensures WordsAndSpaces(JoinSpace(ws))
  {
    if |ws| == 1 {
      assert AllWordChars(ws[0]);
    } else if |ws| > 1 {
      JoinSpaceChars(ws[1..]);
      var rest := JoinSpace(ws[1..]);
      var j := ws[0] + " " + rest;
      assert JoinSpace(ws) == j;
      forall k | 0 <= k < |j|
        ensures IsWordChar(j[k]) || j[k] == ' '
      {
        if k < |ws[0]| {
          assert AllWordChars(ws[0]);
          assert j[k] == ws[0][k];
          assert IsWordChar(j[k]);
        } else if k == |ws[0]| {
          assert j[k] == ' ';
        } else {
          var r := k - |ws[0]| - 1;
          assert j[k] == rest[r];
        }
      }
    }
  }

  /** Words joined by spaces and closed by a terminator make one sentence. */
  lemma SentenceOfWords(ws: seq<string>, mark: char)
    requires WordList(ws) && ws != []
    requires IsTerminator(mark)
    ensures IsSentence(JoinSpace(ws) + [mark])
    ensures Last(JoinSpace(ws) + [mark]) == mark
  {
    var j := JoinSpace(ws);
    var s := j + [mark];
    JoinSpaceChars(ws);
    JoinSpaceEnds(ws);
    assert s[0] == ws[0][0];
    forall k | 0 <= k < |s| - 1
      ensures !IsTerminator(s[k])
    {
      assert s[k] == j[k];
    }
    TerminatorOnlyAtEnd(s);
  }

  /** Text that meets at a space after a non-word character is counted piecewise. */
  lemma ContentWordsJoin(a: string, b: string)
    requires a != [] && !IsWordChar(a[|a| - 1])
    ensures ContentWords(a + " " + b) == ContentWords(a) + ContentWords(b)
  {
    assert a + " " + b == a + (" " + b);
    WordsAppend(a, " " + b);
    WordsAppendSkip(" " + b, []);
    assert (" " + b)[1..] == b;
    SignificantAppend(Words(a), Words(b));
  }

  // ---------------------------------------------------------------------------
  // Lower-casing the words of the example.

  lemma LowerWord(w: string, lw: string)
    requires |w| == |lw|
    requires forall i :: 0 <= i < |w| ==> LowerChar(w[i]) == lw[i]
    ensures Lower(w) == lw
  {
  }

  lemma FirstTerms()
    ensures Significant(FirstTokens()) == [Lower("Cats"), Lower("are"), Lower("great")]
  {
  }

  lemma FirstSignificant()
    ensures Significant(FirstTokens()) == FirstContent()
  {
    FirstTerms();
    LowerWord("Cats", "cats");
    LowerWord("are", "are");
    LowerWord("great", "great");
  }

  lemma SecondTerms()
    ensures Significant(SecondTokens()) == [Lower("Cats"), Lower("are"), Lower("furry")]
  {
  }

  lemma SecondSignificant()
    ensures Significant(SecondTokens()) == SecondContent()
  {
    SecondTerms();
    LowerWord("Cats", "cats");
    LowerWord("are", "are");
    LowerWord("furry", "furry");
  }

  lemma ThirdTerms()
    ensures Significant(ThirdTokens()) == [Lower("Dogs"), Lower("bark"), Lower("loudly")]
  {
  }

  lemma ThirdSignificant()
    ensures Significant(ThirdTokens()) == ThirdContent()
  {
    ThirdTerms();
    LowerWord("Dogs", "dogs");
    LowerWord("bark", "bark");
    LowerWord("loudly", "loudly");
  }

  lemma FourthTerms()
    ensures Significant(FourthTokens())
      == [Lower("The"), Lower("weather"), Lower("today")] + [Lower("sunny"), Lower("and"), Lower("warm")]
  {
    var front := ["The", "weather", "today"];
    var back := ["is", "sunny", "and", "warm"];
    calc {
      Significant(FourthTokens());
      Significant(front + back);
      { SignificantAppend(front, back); }
      Significant(front) + Significant(back);
      { FourthFrontTerms(); FourthBackTerms(); }
      [Lower("The"), Lower("weather"), Lower("today")] + [Lower("sunny"), Lower("and"), Lower("warm")];
    }
  }

  lemma FourthFrontTerms()
    ensures Significant(["The", "weather", "today"]) == [Lower("The"), Lower("weather"), Lower("today")]
  {
  }

  lemma FourthBackTerms()
    ensures Significant(["is", "sunny", "and", "warm"]) == [Lower("sunny"), Lower("and"), Lower("warm")]
  {
  }

  lemma FourthFrontLower()
    ensures [Lower("The"), Lower("weather"), Lower("today")] == ["the", "weather", "today"]
  {
    LowerWord("The", "the");
    LowerWord("weather", "weather");
    LowerWord("today", "today");
  }

  lemma FourthBackLower()
    ensures [Lower("sunny"), Lower("and"), Lower("warm")] == ["sunny", "and", "warm"]
  {
    LowerWord("sunny", "sunny");
    LowerWord("and", "and");
    LowerWord("warm", "warm");
  }

  lemma FourthSignificant()
    ensures Significant(FourthTokens()) == FourthContent()
  {
    FourthTerms();
    FourthFrontLower();
    FourthBackLower();
  }

  // ---------------------------------------------------------------------------
  // The sentences and content words of the example.

  lemma FirstWords()
    ensures WordList(FirstTokens()) && ContentWords(First()) == FirstContent()
  {
    assert WordList(FirstTokens());
    SentenceContent(FirstTokens(), '.');
    FirstSignificant();
  }

  lemma SecondWords()
    ensures WordList(SecondTokens()) && ContentWords(Second()) == SecondContent()
  {
    assert WordList(SecondTokens());
    SentenceContent(SecondTokens(), '.');
    SecondSignificant();
  }

  lemma ThirdWords()
    ensures WordList(ThirdTokens()) && ContentWords(Third()) == ThirdContent()
  {
    assert WordList(ThirdTokens());
    SentenceContent(ThirdTokens(), '.');
    ThirdSignificant();
  }

  lemma FourthWords()
    ensures WordList(FourthTokens()) && ContentWords(Fourth()) == FourthContent()
  {
    assert WordList(FourthTokens());
    SentenceContent(FourthTokens(), '.');
    FourthSignificant();
  }

  /** A sentence of the example ends with its full stop and has no split point inside. */
  predicate FullStop(s: string)
  {
    IsSentence(s) && Last(s) == '.'
  }

  lemma FirstFullStop()
    ensures FullStop(First())
  {
    FirstWords();
    SentenceOfWords(FirstTokens(), '.');
  }

  lemma SecondFullStop()
    ensures FullStop(Second())
  {
    SecondWords();
    SentenceOfWords(SecondTokens(), '.');
  }

  lemma ThirdFullStop()
    ensures FullStop(Third())
  {
    ThirdWords();
    SentenceOfWords(ThirdTokens(), '.');
  }

  lemma FourthFullStop()
    ensures FullStop(Fourth())
  {
    FourthWords();
    SentenceOfWords(FourthTokens(), '.');
  }

  lemma FourFullStops(a: string, b: string, c: string, d: string)
    requires FullStop(a) && FullStop(b) && FullStop(c) && FullStop(d)
    ensures WellFormed([a, b, c, d])
  {
  }

  /** The example splits into its four sentences. */
  lemma ExampleSplit()
    ensures SplitSentences(Example()) == [First(), Second(), Third(), Fourth()]
  {
    FirstFullStop();
    SecondFullStop();
    ThirdFullStop();
    FourthFullStop();
    FourFullStops(First(), Second(), Third(), Fourth());
    SplitJoinRoundTrip([First(), Second(), Third(), Fourth()]);
  }

  /** Ends with a character that cannot belong to a word. */
  predicate EndsOutsideWord(s: string)
  {
    s != [] && !IsWordChar(s[|s| - 1])
  }

  lemma JoinFour(a: string, b: string, c: string, d: string)
    ensures JoinSpace([a, b, c, d]) == a + " " + (b + " " + (c + " " + d))
  {
    assert JoinSpace([c, d]) == c + " " + d by {
      assert [c, d][1..] == [d];
    }
    assert JoinSpace([b, c, d]) == b + " " + (c + " " + d) by {
      assert [b, c, d][1..] == [c, d];
    }
    assert [a, b, c, d][1..] == [b, c, d];
  }

  lemma Regroup(a: seq<string>, b: seq<string>, c: seq<string>, d: seq<string>)
    ensures a + (b + (c + d)) == a + b + c + d
  {
  }

  lemma JoinTwo(a: string, b: string)
    ensures JoinSpace([a, b]) == a + " " + b
  {
    assert [a, b][1..] == [b];
  }

  lemma JoinFourFlat(a: string, b: string, c: string, d: string)
    ensures JoinSpace([a, b, c, d]) == a + " " + b + " " + c + " " + d
  {
    JoinFour(a, b, c, d);
  }

  /** Four sentences joined by spaces are counted sentence by sentence. */
  lemma ContentWordsOfFour(a: string, b: string, c: string, d: string)
    requires EndsOutsideWord(a) && EndsOutsideWord(b) && EndsOutsideWord(c)
    ensures ContentWords(JoinSpace([a, b, c, d]))
         == ContentWords(a) + ContentWords(b) + ContentWords(c) + ContentWords(d)
  {
    var tail := c + " " + d;
    var mid := b + " " + tail;
    JoinFour(a, b, c, d);
    var ca, cb, cc, cd := ContentWords(a), ContentWords(b), ContentWords(c), ContentWords(d);
    calc {
      ContentWords(JoinSpace([a, b, c, d]));
      ContentWords(a + " " + mid);
      { ContentWordsJoin(a, mid); }
      ca + ContentWords(mid);
      { ContentWordsJoin(b, tail); }
      ca + (cb + ContentWords(tail));
      { ContentWordsJoin(c, d); }
      ca + (cb + (cc + cd));
      { Regroup(ca, cb, cc, cd); }
      ca + cb + cc + cd;
    }
  }

  /** The content words of the example are those of its sentences, in order. */
  lemma ExampleContent()
    ensures ContentWords(Example()) == FirstContent() + SecondContent() + ThirdContent() + FourthContent()
  {
    FirstFullStop();
    SecondFullStop();
    ThirdFullStop();
    assert EndsOutsideWord(First()) && EndsOutsideWord(Second()) && EndsOutsideWord(Third());
    FirstWords();
    SecondWords();
    ThirdWords();
    FourthWords();
    ContentWordsOfFour(First(), Second(), Third(), Fourth());
  }

  // ---------------------------------------------------------------------------
  // The frequency table and the scores.

  /** The content words of the whole text. */
  function AllContent(): seq<string>
  {
    FirstContent() + SecondContent() + ThirdContent() + FourthContent()
  }

  /** The frequency table the summarizer builds for the example. */
  function Freq(): map<string, nat>
  {
    FrequencyTable(AllContent())
  }

  /** `freq.get(w, 0)` on a frequency table is the number of occurrences of `w`. */
  lemma CountOf(words: seq<string>, w: string)
    ensures Count(FrequencyTable(words), w) == multiset(words)[w]
  {
  }

  lemma OnceIn(s: seq<string>, i: int)
    requires 0 <= i < |s|
    requires forall j :: 0 <= j < |s| && j != i ==> s[j] != s[i]
    ensures multiset(s)[s[i]] == 1
  {
    var w := s[i];
    assert s == s[..i] + [w] + s[i + 1..];
    assert w !in s[..i];
    assert w !in s[i + 1..];
  }

  lemma {:induction false} SumCountsOnes(words: seq<string>, freq: map<string, nat>)
    requires forall i :: 0 <= i < |words| ==> Count(freq, words[i]) == 1
    ensures SumCounts(words, freq) == |words|
  {
    if words != [] {
      SumCountsOnes(words[1..], freq);
    }
  }

  /** Words that occur once in the whole text score one each. */
  lemma UniqueWordsScore(before: seq<string>, s: seq<string>, after: seq<string>)
    requires Distinct(s)
    requires forall i :: 0 <= i < |s| ==> s[i] !in before && s[i] !in after
    ensures SumCounts(s, FrequencyTable(before + s + after)) == |s|
  {
    var all := before + s + after;
    forall i | 0 <= i < |s|
      ensures Count(FrequencyTable(all), s[i]) == 1
    {
      CountOf(all, s[i]);
      OnceIn(s, i);
      assert multiset(all) == multiset(before) + multiset(s) + multiset(after);
    }
    SumCountsOnes(s, FrequencyTable(all));
  }

  /** Words that occur once in the whole text, at its end, score one each. */
  lemma UniqueLastWordsScore(before: seq<string>, s: seq<string>)
    requires Distinct(s)
    requires forall i :: 0 <= i < |s| ==> s[i] !in before
    ensures SumCounts(s, FrequencyTable(before + s)) == |s|
  {
    UniqueWordsScore(before, s, []);
    assert before + s + [] == before + s;
  }

  /** The words of the third sentence occur once each, all in that sentence. */
  lemma ThirdAlone()
    ensures Distinct(ThirdContent())
    ensures forall i :: 0 <= i < |ThirdContent()| ==>
      ThirdContent()[i] !in FirstContent() + SecondContent() && ThirdContent()[i] !in FourthContent()
  {
  }

  lemma ThirdScore()
    ensures SumCounts(ThirdContent(), Freq()) == 3
  {
    ThirdAlone();
    UniqueWordsScore(FirstContent() + SecondContent(), ThirdContent(), FourthContent());
  }

  /** The words of the fourth sentence occur once each, all in that sentence. */
  lemma FourthAlone()
    ensures Distinct(FourthContent())
    ensures forall i :: 0 <= i < |FourthContent()| ==>
      FourthContent()[i] !in FirstContent() + SecondContent() + ThirdContent()
  {
  }

  lemma FourthScore()
    ensures SumCounts(FourthContent(), Freq()) == 6
  {
    FourthAlone();
    UniqueLastWordsScore(FirstContent() + SecondContent() + ThirdContent(), FourthContent());
  }

  /** A word that occurs once in each of the first two parts and nowhere else is counted twice. */
  lemma TwiceInFour(a: seq<string>, b: seq<string>, c: seq<string>, d: seq<string>, i: int, j: int)
    requires 0 <= i < |a| && (forall k :: 0 <= k < |a| && k != i ==> a[k] != a[i])
    requires 0 <= j < |b| && (forall k :: 0 <= k < |b| && k != j ==> b[k] != b[j])
    requires a[i] == b[j] && a[i] !in c && a[i] !in d
    ensures Count(FrequencyTable(a + b + c + d), a[i]) == 2
  {
    CountOf(a + b + c + d, a[i]);
    OnceIn(a, i);
    OnceIn(b, j);
    assert multiset(a + b + c + d) == multiset(a) + multiset(b) + multiset(c) + multiset(d);
  }

  /** A word that occurs once in the first part and nowhere else is counted once. */
  lemma OnceInFirst(a: seq<string>, b: seq<string>, c: seq<string>, d: seq<string>, i: int)
    requires 0 <= i < |a| && (forall k :: 0 <= k < |a| && k != i ==> a[k] != a[i])
    requires a[i] !in b && a[i] !in c && a[i] !in d
    ensures Count(FrequencyTable(a + b + c + d), a[i]) == 1
  {
    CountOf(a + b + c + d, a[i]);
    OnceIn(a, i);
    assert multiset(a + b + c + d) == multiset(a) + multiset(b) + multiset(c) + multiset(d);
  }

  /** A word that occurs once in the second part and nowhere else is counted once. */
  lemma OnceInSecond(a: seq<string>, b: seq<string>, c: seq<string>, d: seq<string>, i: int)
    requires 0 <= i < |b| && (forall k :: 0 <= k < |b| && k != i ==> b[k] != b[i])
    requires b[i] !in a && b[i] !in c && b[i] !in d
    ensures Count(FrequencyTable(a + b + c + d), b[i]) == 1
  {
    CountOf(a + b + c + d, b[i]);
    OnceIn(b, i);
    assert multiset(a + b + c + d) == multiset(a) + multiset(b) + multiset(c) + multiset(d);
  }

  /** The sum of the counts of three words. */
  lemma SumCountsThree(ws: seq<string>, freq: map<string, nat>)
    requires |ws| == 3
    ensures SumCounts(ws, freq) == Count(freq, ws[0]) + Count(freq, ws[1]) + Count(freq, ws[2])
  {
    var r := ws[1..];
    assert r[0] == ws[1] && r[1..][0] == ws[2] && r[1..][1..] == [];
    assert SumCounts(r[1..], freq) == Count(freq, ws[2]);
  }

  /** "cats" and "are" occur once in each of the first two sentences and nowhere else. */
  lemma SharedAlone(j: int)
    requires 0 <= j < 2
    ensures forall k :: 0 <= k < |FirstContent()| && k != j ==> FirstContent()[k] != FirstContent()[j]
    ensures forall k :: 0 <= k < |SecondContent()| && k != j ==> SecondContent()[k] != SecondContent()[j]
    ensures FirstContent()[j] == SecondContent()[j]
    ensures FirstContent()[j] !in ThirdContent() && FirstContent()[j] !in FourthContent()
  {
  }

  lemma SharedCount(j: int)
    requires 0 <= j < 2
    ensures FirstContent()[j] == SecondContent()[j]
    ensures Count(Freq(), FirstContent()[j]) == 2
  {
    SharedAlone(j);
    TwiceInFour(FirstContent(), SecondContent(), ThirdContent(), FourthContent(), j, j);
  }

  /** "great" occurs once in the first sentence and nowhere else. */
  lemma GreatAlone()
    ensures forall k :: 0 <= k < |FirstContent()| && k != 2 ==> FirstContent()[k] != FirstContent()[2]
    ensures FirstContent()[2] !in SecondContent() && FirstContent()[2] !in ThirdContent()
    ensures FirstContent()[2] !in FourthContent()
  {
  }

  /** "furry" occurs once in the second sentence and nowhere else. */
  lemma FurryAlone()
    ensures forall k :: 0 <= k < |SecondContent()| && k != 2 ==> SecondContent()[k] != SecondContent()[2]
    ensures SecondContent()[2] !in FirstContent() && SecondContent()[2] !in ThirdContent()
    ensures SecondContent()[2] !in FourthContent()
  {
  }

  lemma FirstScore()
    ensures SumCounts(FirstContent(), Freq()) == 5
  {
    SharedCount(0);
    SharedCount(1);
    GreatAlone();
    OnceInFirst(FirstContent(), SecondContent(), ThirdContent(), FourthContent(), 2);
    SumCountsThree(FirstContent(), Freq());
  }

  lemma SecondScore()
    ensures SumCounts(SecondContent(), Freq()) == 5
  {
    SharedCount(0);
    SharedCount(1);
    FurryAlone();
    OnceInSecond(FirstContent(), SecondContent(), ThirdContent(), FourthContent(), 2);
    SumCountsThree(SecondContent(), Freq());
  }

  /** The scores of the four sentences under the example's frequency table. */
  lemma ExampleScores()
    ensures Score(First(), Freq()) == 5 && Score(Second(), Freq()) == 5
    ensures Score(Third(), Freq()) == 3 && Score(Fourth(), Freq()) == 6
  {
    FirstWords();
    SecondWords();
    ThirdWords();
    FourthWords();
    FirstScore();
    SecondScore();
    ThirdScore();
    FourthScore();
  }

  // ---------------------------------------------------------------------------
  // The selection and the summary.

  /**
   * Of four sentences scoring 5, 5, 3 and 6, the best two are the last one
   * and, of the two tied at 5, the earlier one.
   */
  lemma PickTwo(sentences: seq<string>, freq: map<string, nat>)
    requires |sentences| == 4
    requires Score(sentences[0], freq) == 5 && Score(sentences[1], freq) == 5
    requires Score(sentences[2], freq) == 3 && Score(sentences[3], freq) == 6
    ensures Select(sentences, freq, 2) == [sentences[0], sentences[3]]
  {
    SelectIsOrderedSelection(sentences, freq, 2);
    SelectKeepsBestScores(sentences, freq, 2);
    var chosen := Select(sentences, freq, 2);
    var idx := SelectIndices(sentences, freq, 2);
    TwoOfFour(sentences, freq, idx);
    assert chosen[0] == sentences[0] && chosen[1] == sentences[3];
  }

  /** The positions of the best two of four sentences scoring 5, 5, 3 and 6. */
  lemma TwoOfFour(sentences: seq<string>, freq: map<string, nat>, idx: seq<int>)
    requires |sentences| == 4
    requires Score(sentences[0], freq) == 5 && Score(sentences[1], freq) == 5
    requires Score(sentences[2], freq) == 3 && Score(sentences[3], freq) == 6
    requires |idx| == 2 && (forall m :: 0 <= m < 2 ==> 0 <= idx[m] < 4) && idx[0] < idx[1]
    requires KeepsBest(sentences, freq, idx)
    ensures idx == [0, 3]
  {
    assert idx[0] in idx && idx[1] in idx;
    assert 3 in idx;
    assert 0 in idx;
  }

  /** The sentences `summarize_text` keeps from the example with `max_sentences` 2. */
  lemma ExampleSelection()
    ensures SummarySentences(Example(), 2) == [First(), Fourth()]
  {
    ExampleSplit();
    if Example() == [] {
      SplitSentencesBlank(Example());
      assert false;
    }
    ExampleContent();
    ExampleScores();
    PickTwo([First(), Second(), Third(), Fourth()], Freq());
  }

  /**
   * `summarize_text` on the example with `max_sentences` 2 returns the first
   * and the last sentence, one space apart.
   */
  lemma ExampleSummary()
    ensures Summarize(Example(), 2) == JoinSpace([First(), Fourth()])
    ensures Summarize(Example(), 2) == "Cats are great." + " " + ("The weather today" + " " + "is sunny and warm" + ".")
  {
    ExampleSelection();
    JoinTwo(First(), Fourth());
    FirstText();
    FourthText();
  }
}
