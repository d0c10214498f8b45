/**
 * The sentence splitter `_split_sentences`: strip the text, split it with
 * `re.split(r'(?<=[.!?])\s+', ...)`, strip every piece and drop the empty ones.
 */
module Sentences {
  import opened Sequences
  import opened Text

  predicate IsTerminator(c: char)
  {
    c == '.' || c == '!' || c == '?'
  }

  /**
   * Position `p` of `t` is where the separator `(?<=[.!?])\s+` can match:
   * `t[p]` is whitespace and the character before it ends a sentence.
   */
  predicate BoundaryAt(t: string, p: int)
  {
    0 < p < |t| && IsTerminator(t[p - 1]) && IsSpace(t[p])
  }

  predicate NoBoundary(t: string)
  {
    forall p :: 0 < p < |t| ==> !BoundaryAt(t, p)
  }

  /** The leftmost position at or after `from` where the separator matches, or `|t|`. */
  function FirstBoundary(t: string, from: nat): (p: nat)
    requires from <= |t|
    ensures from <= p <= |t|
    ensures p < |t| ==> BoundaryAt(t, p)
    ensures forall k :: from <= k < p ==> !BoundaryAt(t, k)
    decreases |t| - from
  {
    if from == |t| then |t|
    else if BoundaryAt(t, from) then from
    else FirstBoundary(t, from + 1)
  }

  /**
   * `re.split(r'(?<=[.!?])\s+', t)`: the leftmost match is the whole
   * whitespace run at the first boundary (the `\s+` is greedy); the piece
   * before it keeps its terminator and scanning resumes after the run. The
   * pieces joined again with single spaces are the text with each separator
   * run squashed to one space, so the cuts fall exactly at those runs.
   */
  function RegexSplit(t: string): (parts: seq<string>)
    ensures parts != []
    ensures JoinSpace(parts) == SquashSeparators(t, false, false)
    decreases |t|
  {
    var p := FirstBoundary(t, 0);
    if p == |t| then
      SquashWhole(t);
      [t]
    else
      var q := RunEnd(t, p, IsSpace);
      var rest := RegexSplit(t[q..]);
      SquashAtBoundary(t, p, q);
      JoinSpaceCons(t[..p], rest);
      [t[..p]] + rest
  }

  /** `[p.strip() for p in parts if p.strip()]` */
  function Clean(parts: seq<string>): (r: seq<string>)
    ensures forall i :: 0 <= i < |r| ==> r[i] != [] && IsStripped(r[i])
  {
    if parts == [] then []
    else
      var s := Strip(parts[0]);
      (if s == [] then [] else [s]) + Clean(parts[1..])
  }

  /** `_split_sentences(text)` */
  function SplitSentences(text: string): (sentences: seq<string>)
    ensures forall i :: 0 <= i < |sentences| ==> sentences[i] != [] && IsStripped(sentences[i])
  {
    Clean(RegexSplit(Strip(text)))
  }

  // ---------------------------------------------------------------------------
  // What a list of sentences produced by the splitter looks like.

  predicate IsSentence(s: string)
  {
    s != [] && IsStripped(s) && NoBoundary(s)
  }

  function Last(s: string): char
    requires s != []
  {
    s[|s| - 1]
  }

  /**
   * Every sentence is non-empty, stripped and has no split point inside it,
   * and every sentence but the last ends with `.`, `!` or `?`.
   */
  predicate WellFormed(sentences: seq<string>)
  {
    && (forall i :: 0 <= i < |sentences| ==> IsSentence(sentences[i]))
    && (forall i :: 0 <= i < |sentences| - 1 ==> IsTerminator(Last(sentences[i])))
  }

  /**
   * Reference reading of the splitter, one character at a time: the text with
   * every separator removed, where a separator is whitespace that follows a
   * terminator, possibly through more separator whitespace.
   */
  function DropSeparators(t: string, afterTerminator: bool): string
  {
    if t == [] then []
    else if afterTerminator && IsSpace(t[0]) then DropSeparators(t[1..], true)
    else [t[0]] + DropSeparators(t[1..], IsTerminator(t[0]))
  }

  /**
   * Second reference reading, one character at a time: the text with every
   * separator run (whitespace that follows a terminator, up to the next
   * character that is not whitespace) replaced by a single space. The flags
   * say whether the previous character is a terminator and whether the
   * scan is inside a separator run.
   */
  function SquashSeparators(t: string, afterTerminator: bool, inSeparator: bool): string
  {
    if t == [] then []
    else if IsSpace(t[0]) && (afterTerminator || inSeparator) then
      (if inSeparator then [] else " ") + SquashSeparators(t[1..], false, true)
    else [t[0]] + SquashSeparators(t[1..], IsTerminator(t[0]), false)
  }

  // ---------------------------------------------------------------------------
  // Lemmas about the reference readings.

  /** With no boundary in `t[i..p]`, every character of it is kept. */
  lemma {:induction false} DropKeeps(t: string, i: nat, p: nat)
    requires i <= p <= |t|
    requires forall k :: i <= k < p ==> !BoundaryAt(t, k)
    ensures DropSeparators(t[i..], i > 0 && IsTerminator(t[i - 1]))
         == t[i..p] + DropSeparators(t[p..], p > 0 && IsTerminator(t[p - 1]))
    decreases p - i
  {
    if i < p {
      assert !BoundaryAt(t, i);
      assert t[i..][1..] == t[i + 1..];
      DropKeeps(t, i + 1, p);
      assert t[i..p] == [t[i]] + t[i + 1..p];
    }
  }

  /** Whitespace after a terminator is dropped up to the end of its run. */
  lemma {:induction false} DropSkipsRun(t: string, p: nat, q: nat)
    requires p <= q <= |t|
    requires forall k :: p <= k < q ==> IsSpace(t[k])
    ensures DropSeparators(t[p..], true) == DropSeparators(t[q..], true)
    decreases q - p
  {
    if p < q {
      assert t[p..][1..] == t[p + 1..];
      DropSkipsRun(t, p + 1, q);
    }
  }

  lemma DropRestart(t: string)
    requires t == [] || !IsSpace(t[0])
    ensures DropSeparators(t, true) == DropSeparators(t, false)
  {
  }

  /** With no boundary in `t[i..p]`, every character of it is kept. */
  lemma {:induction false} SquashKeeps(t: string, i: nat, p: nat)
    requires i <= p <= |t|
    requires forall k :: i <= k < p ==> !BoundaryAt(t, k)
    ensures SquashSeparators(t[i..], i > 0 && IsTerminator(t[i - 1]), false)
         == t[i..p] + SquashSeparators(t[p..], p > 0 && IsTerminator(t[p - 1]), false)
    decreases p - i
  {
    if i < p {
      var after := i > 0 && IsTerminator(t[i - 1]);
      assert !(IsSpace(t[i]) && after) by {
        assert !BoundaryAt(t, i);
      }
      SquashKeepsOne(t[i..], after);
      assert t[i..][1..] == t[i + 1..];
      SquashKeeps(t, i + 1, p);
      assert t[i..p] == [t[i]] + t[i + 1..p];
    }
  }

  lemma SquashKeepsOne(t: string, afterTerminator: bool)
    requires t != [] && !(IsSpace(t[0]) && afterTerminator)
    ensures SquashSeparators(t, afterTerminator, false) == [t[0]] + SquashSeparators(t[1..], IsTerminator(t[0]), false)
  {
  }

  /** Inside a separator run, the rest of the run adds nothing. */
  lemma {:induction false} SquashSkipsRun(t: string, p: nat, q: nat)
    requires p <= q <= |t|
    requires forall k :: p <= k < q ==> IsSpace(t[k])
    ensures SquashSeparators(t[p..], false, true) == SquashSeparators(t[q..], false, true)
    decreases q - p
  {
    if p < q {
      assert t[p..][1..] == t[p + 1..];
      SquashSkipsRun(t, p + 1, q);
    }
  }

  /** A text with no split point is kept whole. */
  lemma SquashWhole(t: string)
    requires FirstBoundary(t, 0) == |t|
    ensures SquashSeparators(t, false, false) == t
  {
    assert t[0..] == t;
    SquashKeeps(t, 0, |t|);
  }

  /** At the first split point, the separator run becomes one space. */
  lemma SquashAtBoundary(t: string, p: nat, q: nat)
    requires p == FirstBoundary(t, 0) < |t| && q == RunEnd(t, p, IsSpace)
    ensures SquashSeparators(t, false, false) == t[..p] + " " + SquashSeparators(t[q..], false, false)
  {
    assert t[0..] == t;
    SquashKeeps(t, 0, p);
    assert t[p..][1..] == t[p + 1..];
    SquashSkipsRun(t, p + 1, q);
    SquashRestart(t[q..]);
  }

  lemma SquashRestart(t: string)
    requires t == [] || !IsSpace(t[0])
    ensures SquashSeparators(t, false, true) == SquashSeparators(t, false, false)
  {
  }

  /** Joining two or more parts puts one space after the first. */
  lemma JoinSpaceCons(s: string, rest: seq<string>)
    requires rest != []
    ensures JoinSpace([s] + rest) == s + " " + JoinSpace(rest)
  {
    assert ([s] + rest)[1..] == rest;
  }

  // ---------------------------------------------------------------------------
  // The pieces of a stripped text.

  lemma {:induction false} WellFormedCons(s: string, rest: seq<string>)
    requires IsSentence(s) && IsTerminator(Last(s)) && WellFormed(rest)
    ensures WellFormed([s] + rest)
  {
    var r := [s] + rest;
    forall i | 0 <= i < |r| ensures IsSentence(r[i]) {
      if i > 0 { assert r[i] == rest[i - 1]; }
    }
    forall i | 0 <= i < |r| - 1 ensures IsTerminator(Last(r[i])) {
      if i > 0 { assert r[i] == rest[i - 1]; }
    }
  }

  /**
   * Splitting a stripped non-empty text gives well-formed pieces whose
   * concatenation is the text without its separators.
   */
  lemma {:induction false} RegexSplitStripped(t: string)
    requires t != [] && IsStripped(t)
    ensures WellFormed(RegexSplit(t))
    ensures Flatten(RegexSplit(t)) == DropSeparators(t, false)
    decreases |t|
  {
    var p := FirstBoundary(t, 0);
    assert t[0..] == t;
    if p == |t| {
      assert NoBoundary(t);
      DropKeeps(t, 0, |t|);
      assert Flatten([t]) == t;
    } else {
      var q := RunEnd(t, p, IsSpace);
      assert q < |t| by {
        assert !IsSpace(t[|t| - 1]);
      }
      var piece := t[..p];
      var rest := t[q..];
      assert NoBoundary(piece) by {
        forall k ensures !BoundaryAt(piece, k) {
          if BoundaryAt(piece, k) { assert BoundaryAt(t, k); }
        }
      }
      assert IsTerminator(Last(piece));
      RegexSplitStripped(rest);
      WellFormedCons(piece, RegexSplit(rest));
      DropKeeps(t, 0, p);
      DropSkipsRun(t, p, q);
      DropRestart(rest);
      assert Flatten(RegexSplit(t)) == piece + Flatten(RegexSplit(rest));
    }
  }

  lemma {:induction false} CleanKeepsSentences(parts: seq<string>)
    requires forall i :: 0 <= i < |parts| ==> parts[i] != [] && IsStripped(parts[i])
    ensures Clean(parts) == parts
  {
    if parts != [] {
      StripStripped(parts[0]);
      CleanKeepsSentences(parts[1..]);
    }
  }

  lemma {:induction false} NoBoundaryInfix(s: string, i: nat, j: nat)
    requires i <= j <= |s| && NoBoundary(s)
    ensures NoBoundary(s[i..j])
  {
    forall k ensures !BoundaryAt(s[i..j], k) {
      if BoundaryAt(s[i..j], k) { assert BoundaryAt(s, i + k); }
    }
  }

  /** For a text that is not blank, cleaning the pieces changes nothing. */
  lemma {:induction false} SplitSentencesPieces(text: string)
    requires !AllSpace(text)
    ensures SplitSentences(text) == RegexSplit(Strip(text))
    ensures WellFormed(SplitSentences(text))
    ensures Flatten(SplitSentences(text)) == DropSeparators(Strip(text), false)
  {
    RegexSplitStripped(Strip(text));
    CleanKeepsSentences(RegexSplit(Strip(text)));
  }

  /**
   * What `_split_sentences` returns: well-formed sentences whose
   * concatenation is the stripped text without its separators, and which,
   * joined with single spaces, give the stripped text with each separator
   * run squashed to one space.
   */
  lemma {:induction false} SplitSentencesShape(text: string)
    ensures WellFormed(SplitSentences(text))
    ensures Flatten(SplitSentences(text)) == DropSeparators(Strip(text), false)
    ensures JoinSpace(SplitSentences(text)) == SquashSeparators(Strip(text), false, false)
  {
    if Strip(text) == [] {
      assert RegexSplit([]) == [[]];
      assert Clean([[]]) == [];
    } else {
      SplitSentencesPieces(text);
    }
  }

  /**
   * The sentences are pinned down: any well-formed list that joins with
   * single spaces to the stripped text, separator runs squashed, is the one
   * `_split_sentences` returns. So the text is cut at every separator run
   * and nowhere else.
   */
  lemma {:induction false} SplitSentencesUnique(text: string, sentences: seq<string>)
    requires WellFormed(sentences)
    requires JoinSpace(sentences) == SquashSeparators(Strip(text), false, false)
    ensures sentences == SplitSentences(text)
  {
    SplitSentencesShape(text);
    SplitJoinRoundTrip(sentences);
    SplitJoinRoundTrip(SplitSentences(text));
  }

  /** The text yields no sentence exactly when it is blank. */
  lemma {:induction false} SplitSentencesBlank(text: string)
    ensures SplitSentences(text) == [] <==> AllSpace(text)
  {
    if AllSpace(text) {
      assert Strip(text) == [];
      assert RegexSplit([]) == [[]];
      assert Clean([[]]) == [];
    } else {
      SplitSentencesPieces(text);
    }
  }

  /** A text with no terminator followed by whitespace, once stripped, is one sentence. */
  lemma {:induction false} SplitSentencesSingle(text: string)
    requires NoBoundary(Strip(text)) && !AllSpace(text)
    ensures SplitSentences(text) == [Strip(text)]
  {
    SplitSentencesPieces(text);
    RegexSplitWhole(Strip(text));
  }

  /** A text with no split point is split into itself alone. */
  lemma RegexSplitWhole(t: string)
    requires NoBoundary(t)
    ensures RegexSplit(t) == [t]
  {
    var p := FirstBoundary(t, 0);
    assert p < |t| ==> BoundaryAt(t, p);
  }

  // ---------------------------------------------------------------------------
  // Round trip: joining well-formed sentences with spaces and splitting again.

  lemma {:induction false} RegexSplitJoin(sentences: seq<string>)
    requires sentences != [] && WellFormed(sentences)
    ensures RegexSplit(JoinSpace(sentences)) == sentences
  {
    var s := sentences[0];
    if |sentences| == 1 {
      RegexSplitWhole(s);
    } else {
      var rest := sentences[1..];
      assert WellFormed(rest) by {
        forall i | 0 <= i < |rest| ensures IsSentence(rest[i]) {
          assert rest[i] == sentences[i + 1];
        }
        forall i | 0 <= i < |rest| - 1 ensures IsTerminator(Last(rest[i])) {
          assert rest[i] == sentences[i + 1];
        }
      }
      assert IsSentence(s) && IsTerminator(Last(s));
      JoinSpaceEnds(rest);
      RegexSplitStep(s, JoinSpace(rest));
      RegexSplitJoin(rest);
    }
  }

  /** A sentence ending in a terminator, one space, then text that starts with no space. */
  lemma {:induction false} RegexSplitStep(s: string, j: string)
    requires IsSentence(s) && IsTerminator(Last(s))
    requires j != [] && !IsSpace(j[0])
    ensures RegexSplit(s + " " + j) == [s] + RegexSplit(j)
  {
    var t := s + " " + j;
    assert BoundaryAt(t, |s|);
    forall k | 0 <= k < |s|
      ensures !BoundaryAt(t, k)
    {
      assert !BoundaryAt(s, k);
    }
    assert FirstBoundary(t, 0) == |s|;
    assert t[|s| + 1] == j[0];
    assert RunEnd(t, |s|, IsSpace) == |s| + 1;
    assert t[..|s|] == s;
    assert t[|s| + 1..] == j;
  }

  /**
   * Splitting the space-joined sentences gives them back, for exactly the
   * lists the splitter can produce (see `SplitSentencesShape`).
   */
  lemma {:induction false} SplitJoinRoundTrip(sentences: seq<string>)
    requires WellFormed(sentences)
    ensures SplitSentences(JoinSpace(sentences)) == sentences
  {
    if sentences == [] {
      assert RegexSplit([]) == [[]];
      assert Clean([[]]) == [];
    } else {
      var t := JoinSpace(sentences);
      JoinSpaceEnds(sentences);
      StripStripped(t);
      RegexSplitJoin(sentences);
      CleanKeepsSentences(sentences);
    }
  }

  /** The worked example: three sentences, each keeping its terminator. */
  lemma SplitExample(text: string)
    requires text == "Hello world. This is great! Is it?"
    ensures SplitSentences(text) == ["Hello world.", "This is great!", "Is it?"]
  {
    var sentences := ["Hello world.", "This is great!", "Is it?"];
    ExampleSentences();
    ExampleJoin();
    SplitJoinRoundTrip(sentences);
  }

  lemma ExampleJoin()
    ensures JoinSpace(["Hello world.", "This is great!", "Is it?"]) == "Hello world. This is great! Is it?"
  {
  }

  lemma ExampleSentences()
    ensures WellFormed(["Hello world.", "This is great!", "Is it?"])
  {
    TerminatorOnlyAtEnd("Hello world.");
    TerminatorOnlyAtEnd("This is great!");
    TerminatorOnlyAtEnd("Is it?");
  }

  /** A string with no terminator before its last character has no split point. */
  lemma TerminatorOnlyAtEnd(s: string)
    requires forall k :: 0 <= k < |s| - 1 ==> !IsTerminator(s[k])
    ensures NoBoundary(s)
  {
  }
}
