/**
 * Character classes and the Python string operations the summarizer and the
 * handlers rely on: `str.strip()`, `str.lower()`, `in` on strings and
 * `' '.join(...)`. Characters are classified over ASCII: `IsSpace` is what
 * `str.isspace()` and the regular-expression class `\s` accept there, and
 * `IsWordChar` is what `\w` accepts there.
 */
module Text {

  predicate IsSpace(c: char)
  {
    c == ' ' || 9 <= c as int <= 13 || 28 <= c as int <= 31
  }

  predicate IsWordChar(c: char)
  {
    ('a' <= c <= 'z') || ('A' <= c <= 'Z') || ('0' <= c <= '9') || c == '_'
  }

  predicate AllSpace(s: string)
  {
    forall i :: 0 <= i < |s| ==> IsSpace(s[i])
  }

  /** Neither end of `s` is whitespace. */
  predicate IsStripped(s: string)
  {
    s == [] || (!IsSpace(s[0]) && !IsSpace(s[|s| - 1]))
  }

  /**
   * The end of the run of characters satisfying `inRun` that starts at `from`:
   * the maximal match of a pattern such as `\s+` or `\w+` anchored there.
   */
  function RunEnd(s: string, from: nat, inRun: char -> bool): (e: nat)
    requires from <= |s|
    ensures from <= e <= |s|
    ensures forall k :: from <= k < e ==> inRun(s[k])
    ensures e == |s| || !inRun(s[e])
    decreases |s| - from
  {
    if from < |s| && inRun(s[from]) then RunEnd(s, from + 1, inRun) else from
  }

  /**
   * Scanning back from `hi` no further than `lo`: the start of the whitespace
   * run that ends at `hi`.
   */
  function TrimEndIndex(s: string, lo: nat, hi: nat): (j: nat)
    requires lo <= hi <= |s|
    ensures lo <= j <= hi
    ensures forall k :: j <= k < hi ==> IsSpace(s[k])
    ensures j == lo || !IsSpace(s[j - 1])
    decreases hi
  {
    if lo < hi && IsSpace(s[hi - 1]) then TrimEndIndex(s, lo, hi - 1) else hi
  }

  /** Where `Strip(s)` starts in `s`: the first character that is not whitespace. */
  function StripStart(s: string): nat
  {
    RunEnd(s, 0, IsSpace)
  }

  /** Where `Strip(s)` ends in `s`: just after the last character that is not whitespace. */
  function StripEnd(s: string): (j: nat)
    ensures StripStart(s) <= j <= |s|
  {
    TrimEndIndex(s, StripStart(s), |s|)
  }

  /**
   * Python's `str.strip()`: what is left of `s` when the whitespace at both
   * ends is removed. It is empty exactly when `s` is blank.
   */
  function Strip(s: string): (r: string)
    ensures IsStripped(r)
    ensures |r| <= |s|
    ensures r == [] <==> AllSpace(s)
    ensures exists i, j :: 0 <= i <= j <= |s| && r == s[i..j] && AllSpace(s[..i]) && AllSpace(s[j..])
  {
    var i := StripStart(s);
    var j := StripEnd(s);
    assert i == j ==> forall k :: 0 <= k < |s| ==> IsSpace(s[k]);
    assert AllSpace(s[..i]) && AllSpace(s[j..]);
    s[i..j]
  }

  lemma StripStripped(s: string)
    requires IsStripped(s)
    ensures Strip(s) == s
  {
  }

  function LowerChar(c: char): char
  {
    if 'A' <= c <= 'Z' then (c as int + 32) as char else c
  }

  /** Python's `str.lower()` on ASCII letters. */
  function Lower(s: string): (r: string)
    ensures |r| == |s|
    ensures forall i :: 0 <= i < |s| ==> r[i] == LowerChar(s[i])
  {
    if s == [] then [] else [LowerChar(s[0])] + Lower(s[1..])
  }

  predicate HasNoUpper(s: string)
  {
    forall i :: 0 <= i < |s| ==> !('A' <= s[i] <= 'Z')
  }

  predicate OccursAt(hay: string, needle: string, i: int)
  {
    0 <= i && i + |needle| <= |hay| && hay[i..i + |needle|] == needle
  }

  /** Python's `needle in hay` on strings. */
  predicate Contains(hay: string, needle: string)
    decreases |hay|
  {
    needle <= hay || (hay != [] && Contains(hay[1..], needle))
  }

  /** `Contains` holds exactly when `needle` occurs at some offset of `hay`. */
  lemma {:induction false} ContainsAt(hay: string, needle: string)
    ensures Contains(hay, needle)
        <==> exists i :: OccursAt(hay, needle, i)
    decreases |hay|
  {
    if needle <= hay {
      assert OccursAt(hay, needle, 0);
    } else if hay == [] {
    } else {
      ContainsAt(hay[1..], needle);
      if exists i :: OccursAt(hay, needle, i) {
        var i :| OccursAt(hay, needle, i);
        assert i != 0;
        assert hay[1..][i - 1..i - 1 + |needle|] == needle;
        assert OccursAt(hay[1..], needle, i - 1);
      }
      if Contains(hay[1..], needle) {
        var i :| OccursAt(hay[1..], needle, i);
        assert hay[i + 1..i + 1 + |needle|] == needle;
        assert OccursAt(hay, needle, i + 1);
      }
    }
  }

  /** Python's `' '.join(parts)`. */
  function JoinSpace(parts: seq<string>): string
  {
    if parts == [] then []
    else if |parts| == 1 then parts[0]
    else parts[0] + " " + JoinSpace(parts[1..])
  }

  /**
   * Joining non-empty parts gives a non-empty string that starts where the
   * first part starts and ends where the last part ends.
   */
  lemma {:induction false} JoinSpaceEnds(parts: seq<string>)
    requires parts != []
    requires forall i :: 0 <= i < |parts| ==> parts[i] != []
    ensures var j := JoinSpace(parts);
      j != [] && j[0] == parts[0][0] && j[|j| - 1] == parts[|parts| - 1][|parts[|parts| - 1]| - 1]
  {
    if |parts| > 1 {
      var rest := parts[1..];
      JoinSpaceEnds(rest);
      var j := JoinSpace(rest);
      assert rest[|rest| - 1] == parts[|parts| - 1];
      var whole := parts[0] + " " + j;
      assert JoinSpace(parts) == whole;
      assert whole[0] == parts[0][0];
      assert whole[|whole| - 1] == j[|j| - 1];
    }
  }
}
