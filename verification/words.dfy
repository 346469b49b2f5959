/**
 Word handling of the Wordle board: cleaning a typed or listed word,
 dictionary membership (`Board.IsValidWord`, `Board.CleanWord`), and the
 lower-casing and trimming applied to a drawn solution (`Board.SetRandomWord`).

 Characters are treated as ASCII: a letter is `A`-`Z` or `a`-`z`, and
 white space is the space and the control characters tab through carriage
 return.
 */
module Words {

  predicate IsUpperLetter(c: char) { 'A' <= c <= 'Z' }

  predicate IsLowerLetter(c: char) { 'a' <= c <= 'z' }

  /** `char.IsLetter`, restricted to ASCII. */
  predicate IsLetter(c: char) { IsUpperLetter(c) || IsLowerLetter(c) }

  /** `char.IsWhiteSpace`, restricted to ASCII. */
  predicate IsWhiteSpace(c: char) { c == ' ' || '\t' <= c <= '\r' }

  /** Only lower-case letters. */
  predicate IsCleanWord(s: string) {
    forall i :: 0 <= i < |s| ==> IsLowerLetter(s[i])
  }

  function ToLowerChar(c: char): (l: char)
    ensures IsUpperLetter(c) ==> IsLowerLetter(l) && l as int == c as int + 32
    ensures !IsUpperLetter(c) ==> l == c
  {
    if IsUpperLetter(c) then (c as int + 32) as char else c
  }

  function ToUpperChar(c: char): (u: char)
    ensures IsLowerLetter(c) ==> IsUpperLetter(u) && u as int == c as int - 32
    ensures !IsLowerLetter(c) ==> u == c
  {
    if IsLowerLetter(c) then (c as int - 32) as char else c
  }

  /** `string.ToLower`, restricted to ASCII. */
  function ToLower(s: string): (r: string)
    ensures |r| == |s|
    ensures forall i :: 0 <= i < |s| ==> r[i] == ToLowerChar(s[i])
  {
    seq(|s|, i requires 0 <= i < |s| => ToLowerChar(s[i]))
  }

  /**
   Lower-casing keeps every character: a lower-case letter occurs in the
   result as often as it and its upper-case form occur in the input
   together.
   */
  lemma {:induction false} ToLowerCounts(s: string, c: char)
    requires IsLowerLetter(c)
    ensures multiset(ToLower(s))[c] == multiset(s)[c] + multiset(s)[ToUpperChar(c)]
    decreases |s|
  {
    if |s| > 0 {
      var init, last := s[..|s| - 1], s[|s| - 1];
      assert multiset(s) == multiset(init) + multiset{last} by {
        assert s == init + [last];
      }
      assert multiset(ToLower(s)) == multiset(ToLower(init)) + multiset{ToLowerChar(last)} by {
        assert ToLower(s) == ToLower(init) + [ToLowerChar(last)];
      }
      ToLowerCounts(init, c);
      LowerCaseSources(last, c);
    }
  }

  /** The characters that lower-case to a lower-case letter: itself and its upper-case form. */
  lemma LowerCaseSources(x: char, c: char)
    requires IsLowerLetter(c)
    ensures ToLowerChar(x) == c <==> x == c || x == ToUpperChar(c)
    ensures ToUpperChar(c) != c
  {
  }

  /**
   The letters of `s`, in order (the `Where(char.IsLetter)` filter). Nothing
   but letters survives, and a word of letters only survives whole.
   */
  function KeepLetters(s: string): (r: string)
    ensures |r| <= |s|
    ensures forall i :: 0 <= i < |r| ==> IsLetter(r[i])
    ensures (forall i :: 0 <= i < |s| ==> IsLetter(s[i])) ==> r == s
  {
    if |s| == 0 then ""
    else if IsLetter(s[0]) then [s[0]] + KeepLetters(s[1..])
    else KeepLetters(s[1..])
  }

  /** Every letter of `s` survives the filter, as often as it occurs in `s`. */
  lemma {:induction false} KeepLettersCounts(s: string, c: char)
    requires IsLetter(c)
    ensures multiset(KeepLetters(s))[c] == multiset(s)[c]
    decreases |s|
  {
    if |s| > 0 {
      assert s == [s[0]] + s[1..];
      KeepLettersCounts(s[1..], c);
    }
  }

  /** The filter keeps the order of the letters: it works piece by piece. */
  lemma {:induction false} KeepLettersAppend(a: string, b: string)
    ensures KeepLetters(a + b) == KeepLetters(a) + KeepLetters(b)
    decreases |a|
  {
    if |a| > 0 {
      assert (a + b)[1..] == a[1..] + b;
      KeepLettersAppend(a[1..], b);
    } else {
      assert a + b == b;
    }
  }

  /**
   `Board.CleanWord`: drops every non-letter and lower-cases the rest. The
   result is clean, and a word that is already clean is its own cleaning.
   */
  function CleanWord(s: string): (r: string)
    ensures IsCleanWord(r)
    ensures |r| <= |s|
    ensures IsCleanWord(s) ==> r == s
  {
    var letters := KeepLetters(s);
    assert IsCleanWord(s) ==> ToLower(letters) == s by {
      if IsCleanWord(s) {
        assert letters == s;
      }
    }
    ToLower(letters)
  }

  /**
   Every letter of the input survives cleaning lower-cased: a lower-case
   letter occurs in the cleaned word as often as it and its upper-case form
   occur in the input together.
   */
  lemma CleanWordCounts(s: string, c: char)
    requires IsLowerLetter(c)
    ensures multiset(CleanWord(s))[c] == multiset(s)[c] + multiset(s)[ToUpperChar(c)]
  {
    KeepLettersCounts(s, c);
    KeepLettersCounts(s, ToUpperChar(c));
    ToLowerCounts(KeepLetters(s), c);
  }

  /** Cleaning keeps the order of the letters: it works piece by piece. */
  lemma CleanWordAppend(a: string, b: string)
    ensures CleanWord(a + b) == CleanWord(a) + CleanWord(b)
  {
    KeepLettersAppend(a, b);
    assert ToLower(KeepLetters(a) + KeepLetters(b)) == ToLower(KeepLetters(a)) + ToLower(KeepLetters(b));
  }

  /** Cleaning twice is cleaning once. */
  lemma CleanWordIdempotent(s: string)
    ensures CleanWord(CleanWord(s)) == CleanWord(s)
  {
  }

  /** Cleaning changes a word exactly when it is not clean already. */
  lemma CleanWordFixesOnlyCleanWords(s: string)
    ensures CleanWord(s) == s <==> IsCleanWord(s)
  {
  }

  /** `string.Equals(a, b, StringComparison.OrdinalIgnoreCase)`, restricted to ASCII:
      equal length and equal characters after upper-casing. */
  predicate EqualsIgnoreCase(a: string, b: string) {
    |a| == |b| && forall i :: 0 <= i < |a| ==> ToUpperChar(a[i]) == ToUpperChar(b[i])
  }

  /** On clean words, comparing without case is plain equality. */
  lemma IgnoreCaseOnCleanWords(a: string, b: string)
    requires IsCleanWord(a) && IsCleanWord(b)
    ensures EqualsIgnoreCase(a, b) <==> a == b
  {
  }

  /** The loop of `Board.IsValidWord` from entry i on: is some entry's cleaning,
      compared without case, the cleaned word? */
  function ScanValidWords(validWords: seq<string>, cleaned: string, i: nat): (found: bool)
    requires IsCleanWord(cleaned) && i <= |validWords|
    ensures found <==> exists j :: i <= j < |validWords| && CleanWord(validWords[j]) == cleaned
    decreases |validWords| - i
  {
    if i == |validWords| then false
    else
      IgnoreCaseOnCleanWords(CleanWord(validWords[i]), cleaned);
      if EqualsIgnoreCase(CleanWord(validWords[i]), cleaned) then true
      else ScanValidWords(validWords, cleaned, i + 1)
  }

  /**
   `Board.IsValidWord`: a word is valid when some dictionary entry cleans to
   the same word as it does. Validity therefore depends on the cleaned word
   only.
   */
  function IsValidWord(validWords: seq<string>, w: string): (valid: bool)
    ensures valid <==> exists j :: 0 <= j < |validWords| && CleanWord(validWords[j]) == CleanWord(w)
  {
    ScanValidWords(validWords, CleanWord(w), 0)
  }

  /** Two words that clean alike are equally valid. */
  lemma ValidityDependsOnCleanWord(validWords: seq<string>, v: string, w: string)
    requires CleanWord(v) == CleanWord(w)
    ensures IsValidWord(validWords, v) == IsValidWord(validWords, w)
  {
  }

  /** The number of white-space characters at the start of `s`. */
  function LeadingWhiteSpace(s: string): (n: nat)
    ensures n <= |s|
    ensures forall k :: 0 <= k < n ==> IsWhiteSpace(s[k])
    ensures n < |s| ==> !IsWhiteSpace(s[n])
  {
    if |s| == 0 || !IsWhiteSpace(s[0]) then 0 else 1 + LeadingWhiteSpace(s[1..])
  }

  /** Where the white space at the end of `s[lo..]` begins. */
  function TrailingWhiteSpaceStart(s: string, lo: nat): (n: nat)
    requires lo <= |s|
    ensures lo <= n <= |s|
    ensures forall k :: n <= k < |s| ==> IsWhiteSpace(s[k])
    ensures n > lo ==> !IsWhiteSpace(s[n - 1])
    decreases |s|
  {
    if |s| == lo || !IsWhiteSpace(s[|s| - 1]) then |s|
    else TrailingWhiteSpaceStart(s[..|s| - 1], lo)
  }

  /**
   `string.Trim`: `s` without its leading and trailing white space. The
   result is a contiguous part of `s`, everything cut off is white space,
   and the result neither starts nor ends with white space.
   */
  function Trim(s: string): (r: string)
    ensures exists lo, hi ::
              && 0 <= lo <= hi <= |s| && r == s[lo..hi]
              && (forall k :: 0 <= k < lo ==> IsWhiteSpace(s[k]))
              && (forall k :: hi <= k < |s| ==> IsWhiteSpace(s[k]))
    ensures |r| > 0 ==> !IsWhiteSpace(r[0]) && !IsWhiteSpace(r[|r| - 1])
  {
    var lo := LeadingWhiteSpace(s);
    var hi := TrailingWhiteSpaceStart(s, lo);
    s[lo..hi]
  }

  /**
   A drawn solution as the board keeps it: lower-cased, then trimmed. It is
   no longer than the entry and holds no upper-case letter.
   */
  function NormalizeSolution(s: string): (w: string)
    ensures |w| <= |s|
    ensures forall i :: 0 <= i < |w| ==> !IsUpperLetter(w[i])
  {
    Trim(ToLower(s))
  }

  /**
   The shape of a normalized solution: a contiguous part of the lower-cased
   entry with only white space cut off either end, neither starting nor
   ending with white space.
   */
  lemma NormalizeSolutionShape(s: string)
    ensures var w := NormalizeSolution(s);
      && (exists lo, hi ::
            && 0 <= lo <= hi <= |s| && w == ToLower(s)[lo..hi]
            && (forall k :: 0 <= k < lo ==> IsWhiteSpace(ToLower(s)[k]))
            && (forall k :: hi <= k < |s| ==> IsWhiteSpace(ToLower(s)[k])))
      && (|w| > 0 ==> !IsWhiteSpace(w[0]) && !IsWhiteSpace(w[|w| - 1]))
  {
  }
}
