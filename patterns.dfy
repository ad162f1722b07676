/**
 * The two regular-expression tests of the receipt package, written out as
 * character predicates with the meaning Go's RE2 engine gives them.
 *
 * `isPrice` matches `^\$?\d*\.\d{2}$`; `\d` is an ASCII digit.
 * `containsAsWord(s, t)` matches `(?i)\b` + t + `\b` anywhere in `s`; `\b`
 * is an ASCII word boundary and `(?i)` compares letters by case fold.
 */
module Patterns {

  predicate IsDigit(c: char)
  {
    '0' <= c <= '9'
  }

  predicate AllDigits(s: string)
  {
    forall k :: 0 <= k < |s| ==> IsDigit(s[k])
  }

  /** `s` with its optional leading currency sign removed. */
  function Unsigned(s: string): string
  {
    if |s| > 0 && s[0] == '$' then s[1..] else s
  }

  /** `isPrice`: an optional `$`, any number of digits, a `.`, exactly two digits. */
  predicate IsPrice(s: string)
  {
    var u := Unsigned(s);
    |u| >= 3 && u[|u| - 3] == '.' && AllDigits(u[..|u| - 3]) && AllDigits(u[|u| - 2..])
  }

  /** The strings the price pattern describes, built from their parts. */
  function PriceText(dollar: bool, whole: string, cents: string): string
  {
    (if dollar then "$" else "") + whole + "." + cents
  }

  /** The parts `PriceText` may be built from. */
  predicate PriceParts(whole: string, cents: string)
  {
    AllDigits(whole) && |cents| == 2 && AllDigits(cents)
  }

  /** Every string built from a sign, digits, a point and two digits is a price. */
  lemma PriceTextIsPrice(dollar: bool, whole: string, cents: string)
    requires PriceParts(whole, cents)
    ensures IsPrice(PriceText(dollar, whole, cents))
  {
    var u := whole + "." + cents;
    assert Unsigned(PriceText(dollar, whole, cents)) == u by {
      if dollar {
        assert PriceText(dollar, whole, cents) == "$" + u;
        assert ("$" + u)[1..] == u;
      } else {
        assert PriceText(dollar, whole, cents) == u;
        assert |whole| > 0 ==> whole[0] != '$';
        assert u[0] != '$';
      }
    }
    assert u[..|u| - 3] == whole;
    assert u[|u| - 2..] == cents;
  }

  /** Every price is built that way, from the parts read off the string. */
  lemma PriceDecomposes(s: string)
    requires IsPrice(s)
    ensures var u := Unsigned(s);
            PriceParts(u[..|u| - 3], u[|u| - 2..]) &&
            s == PriceText(|s| > 0 && s[0] == '$', u[..|u| - 3], u[|u| - 2..])
  {
    var u := Unsigned(s);
    assert u == u[..|u| - 3] + "." + u[|u| - 2..];
    if |s| > 0 && s[0] == '$' {
      assert s == "$" + s[1..];
    }
  }

  /** `isPrice` holds exactly of the strings the pattern `^\$?\d*\.\d{2}$` describes. */
  lemma IsPriceIff(s: string)
    ensures IsPrice(s) <==>
            exists dollar: bool, whole: string, cents: string ::
              PriceParts(whole, cents) && s == PriceText(dollar, whole, cents)
  {
    if IsPrice(s) {
      PriceDecomposes(s);
      var u := Unsigned(s);
      assert PriceParts(u[..|u| - 3], u[|u| - 2..]);
    }
    forall dollar: bool, whole: string, cents: string |
      PriceParts(whole, cents) && s == PriceText(dollar, whole, cents)
      ensures IsPrice(s)
    {
      PriceTextIsPrice(dollar, whole, cents);
    }
  }

  /** A price is never empty, and never holds white space or a letter. */
  lemma PriceIsNonEmpty(s: string)
    requires IsPrice(s)
    ensures |s| >= 3
    ensures forall k :: 0 <= k < |s| ==> s[k] == '$' || s[k] == '.' || IsDigit(s[k])
  {
    var u := Unsigned(s);
    forall k | 0 <= k < |u|
      ensures u[k] == '.' || IsDigit(u[k])
    {
      if k < |u| - 3 {
        assert u[k] == u[..|u| - 3][k];
      } else if k > |u| - 3 {
        assert u[k] == u[|u| - 2..][k - (|u| - 2)];
      }
    }
  }

  /** Example prices `isPrice` accepts, one lemma each. */
  lemma PriceAcceptsAmount()
    ensures IsPrice("3.00")
  {
    assert Unsigned("3.00") == "3.00";
  }

  lemma PriceAcceptsDollarAmount()
    ensures IsPrice("$3.00")
  {
    assert Unsigned("$3.00") == "3.00";
  }

  lemma PriceAcceptsCentsOnly()
    ensures IsPrice(".99")
  {
    assert Unsigned(".99") == ".99";
  }

  lemma PriceAcceptsLeadingZero()
    ensures IsPrice("0.99")
  {
    assert Unsigned("0.99") == "0.99";
  }

  lemma PriceAcceptsHalf()
    ensures IsPrice(".50")
  {
    assert Unsigned(".50") == ".50";
  }

  /** Strings `isPrice` rejects. */
  lemma PriceExamplesRejected()
    ensures !IsPrice("300") && !IsPrice("3.0") && !IsPrice("3.005") && !IsPrice("$") && !IsPrice("abc")
    ensures !IsPrice("$$1.00") && !IsPrice("") && !IsPrice("1,00")
  {
    assert Unsigned("$$1.00") == "$1.00";
    assert !IsDigit("$1.00"[0]);
    assert "3.005"[2] != '.';
    assert "1,00"[1] != '.';
  }

  // ---------------------------------------------------------------------------
  // Whole-word, case-insensitive search

  /** RE2's `\w`: ASCII letters, digits and underscore. */
  predicate IsWordChar(c: char)
  {
    ('a' <= c <= 'z') || ('A' <= c <= 'Z') || IsDigit(c) || c == '_'
  }

  /**
   * The representative of `c`'s case-fold orbit: ASCII letters map to lower
   * case, and the two non-ASCII members of those orbits, KELVIN SIGN and
   * LATIN SMALL LETTER LONG S, map to `k` and `s`.
   */
  function Fold(c: char): char
  {
    if 'A' <= c <= 'Z' then (c as int + 32) as char
    else if c == '\U{212A}' then 'k'
    else if c == '\U{017F}' then 's'
    else c
  }

  predicate EqualIgnoringCase(a: string, b: string)
  {
    |a| == |b| && forall k :: 0 <= k < |a| ==> Fold(a[k]) == Fold(b[k])
  }

  /** `\b` at position `k` of `s`: a word character on exactly one side (a string edge is not one). */
  predicate IsBoundary(s: string, k: nat)
    requires k <= |s|
  {
    (k > 0 && IsWordChar(s[k - 1])) != (k < |s| && IsWordChar(s[k]))
  }

  /** `(?i)\bt\b` matches `s` at position `i`. */
  predicate MatchesAt(s: string, t: string, i: nat)
  {
    i + |t| <= |s| && EqualIgnoringCase(s[i..i + |t|], t) && IsBoundary(s, i) && IsBoundary(s, i + |t|)
  }

  /** `containsAsWord`: the pattern matches somewhere in `s`. */
  predicate ContainsAsWord(s: string, t: string)
  {
    exists i: nat | i + |t| <= |s| :: MatchesAt(s, t, i)
  }

  predicate AllWordChars(t: string)
  {
    forall k :: 0 <= k < |t| ==> IsWordChar(t[k])
  }

  /** One of the labels the classifier looks for: non-empty and made of word characters. */
  predicate IsLabel(t: string)
  {
    |t| > 0 && AllWordChars(t)
  }

  lemma WordCharFold(c: char, d: char)
    requires IsWordChar(d) && Fold(c) == Fold(d)
    ensures IsWordChar(c) || c == '\U{212A}' || c == '\U{017F}'
  {
  }

  // ---------------------------------------------------------------------------
  // The words of a string, as an independent account of whole-word search

  /** Length of the leading run of word characters of `s`. */
  function WordRun(s: string): (n: nat)
    ensures n <= |s|
    ensures forall k :: 0 <= k < n ==> IsWordChar(s[k])
    ensures n == |s| || !IsWordChar(s[n])
  {
    if s == [] || !IsWordChar(s[0]) then 0 else 1 + WordRun(s[1..])
  }

  /** The maximal runs of word characters of `s`, left to right. */
  function Words(s: string): (r: seq<string>)
    ensures forall k :: 0 <= k < |r| ==> IsLabel(r[k])
    decreases |s|
  {
    if s == [] then []
    else if !IsWordChar(s[0]) then Words(s[1..])
    else
      var n := WordRun(s);
      [s[..n]] + Words(s[n..])
  }

  /** `s` holds neither of the two non-ASCII characters that fold onto an ASCII letter. */
  predicate NoFoldSpecials(s: string)
  {
    forall k :: 0 <= k < |s| ==> s[k] != '\U{212A}' && s[k] != '\U{017F}'
  }

  /** Within a match of a label, every character of `s` is a word character. */
  lemma MatchIsWordChars(s: string, t: string, i: nat)
    requires IsLabel(t) && NoFoldSpecials(s)
    requires i + |t| <= |s| && EqualIgnoringCase(s[i..i + |t|], t)
    ensures forall k :: i <= k < i + |t| ==> IsWordChar(s[k])
  {
    forall k | i <= k < i + |t|
      ensures IsWordChar(s[k])
    {
      assert s[i..i + |t|][k - i] == s[k];
      WordCharFold(s[k], t[k - i]);
    }
  }

  /**
   * For a label, `containsAsWord` holds exactly when the label occurs,
   * ignoring case, with a non-word character or an edge of `s` on both sides.
   */
  lemma MatchesAtLabel(s: string, t: string, i: nat)
    requires IsLabel(t) && NoFoldSpecials(s)
    ensures MatchesAt(s, t, i) <==>
            i + |t| <= |s| && EqualIgnoringCase(s[i..i + |t|], t) &&
            (i == 0 || !IsWordChar(s[i - 1])) &&
            (i + |t| == |s| || !IsWordChar(s[i + |t|]))
  {
    if i + |t| <= |s| && EqualIgnoringCase(s[i..i + |t|], t) {
      MatchIsWordChars(s, t, i);
    }
  }

  /** Dropping a prefix that ends at a word edge does not change the matches after it. */
  lemma ShiftMatch(s: string, t: string, m: nat, i: nat)
    requires 0 < m <= |s| && m <= i
    requires i > m || !IsWordChar(s[m - 1])
    ensures MatchesAt(s, t, i) <==> MatchesAt(s[m..], t, i - m)
  {
    var r := s[m..];
    if i + |t| <= |s| {
      assert s[i..i + |t|] == r[i - m..i - m + |t|];
      assert IsBoundary(s, i) == IsBoundary(r, i - m) by {
        if i > m {
          assert s[i - 1] == r[i - m - 1];
        }
        if i < |s| {
          assert s[i] == r[i - m];
        }
      }
      assert IsBoundary(s, i + |t|) == IsBoundary(r, i - m + |t|) by {
        if i + |t| > 0 && i + |t| > m {
          assert s[i + |t| - 1] == r[i - m + |t| - 1];
        }
        if i + |t| < |s| {
          assert s[i + |t|] == r[i - m + |t|];
        }
      }
    }
  }

  lemma NoFoldSpecialsSuffix(s: string, m: nat)
    requires m <= |s| && NoFoldSpecials(s)
    ensures NoFoldSpecials(s[m..])
  {
    forall k | 0 <= k < |s| - m
      ensures s[m..][k] == s[k + m]
    {
    }
  }

  /** A leading non-word character can be dropped without changing the verdict. */
  lemma ContainsSkipNonWord(s: string, t: string)
    requires IsLabel(t) && NoFoldSpecials(s)
    requires |s| > 0 && !IsWordChar(s[0])
    ensures ContainsAsWord(s, t) <==> ContainsAsWord(s[1..], t)
  {
    var r := s[1..];
    if ContainsAsWord(s, t) {
      var i: nat :| i + |t| <= |s| && MatchesAt(s, t, i);
      assert i > 0;
      ShiftMatch(s, t, 1, i);
      assert MatchesAt(r, t, i - 1);
    }
    if ContainsAsWord(r, t) {
      var j: nat :| j + |t| <= |r| && MatchesAt(r, t, j);
      ShiftMatch(s, t, 1, j + 1);
      assert MatchesAt(s, t, j + 1);
    }
  }

  /** A label matches at the start of `s` exactly when it is the first word. */
  lemma MatchAtStart(s: string, t: string)
    requires IsLabel(t) && NoFoldSpecials(s)
    requires |s| > 0 && IsWordChar(s[0])
    ensures MatchesAt(s, t, 0) <==> EqualIgnoringCase(s[..WordRun(s)], t)
  {
    var n := WordRun(s);
    MatchesAtLabel(s, t, 0);
    if MatchesAt(s, t, 0) {
      MatchIsWordChars(s, t, 0);
      assert |t| == n;
      assert s[0..|t|] == s[..n];
    }
    if EqualIgnoringCase(s[..n], t) {
      assert s[0..|t|] == s[..n];
    }
  }

  /** No label matches inside the first word, or right after it. */
  lemma NoMatchInFirstWord(s: string, t: string, i: nat)
    requires IsLabel(t) && NoFoldSpecials(s)
    requires |s| > 0 && IsWordChar(s[0])
    requires 0 < i <= WordRun(s)
    ensures !MatchesAt(s, t, i)
  {
    assert IsWordChar(s[i - 1]);
    MatchesAtLabel(s, t, i);
  }

  lemma ContainsSplitWordForward(s: string, t: string, i: nat)
    requires IsLabel(t) && NoFoldSpecials(s)
    requires |s| > 0 && IsWordChar(s[0])
    requires MatchesAt(s, t, i)
    ensures EqualIgnoringCase(s[..WordRun(s)], t) || ContainsAsWord(s[WordRun(s)..], t)
  {
    var n := WordRun(s);
    if i == 0 {
      MatchAtStart(s, t);
    } else if i <= n {
      NoMatchInFirstWord(s, t, i);
    } else {
      ShiftMatch(s, t, n, i);
      assert MatchesAt(s[n..], t, i - n);
    }
  }

  /** A match after a word edge at `n` is a match in `s` too. */
  lemma ContainsSplitWordBackward(s: string, t: string, n: nat, j: nat)
    requires |t| > 0 && 0 < n <= |s| && (n == |s| || !IsWordChar(s[n]))
    requires MatchesAt(s[n..], t, j)
    ensures MatchesAt(s, t, j + n)
  {
    var r := s[n..];
    assert r[0] == s[n];
    assert j > 0;
    ShiftMatch(s, t, n, j + n);
  }

  /** With a leading word, a label matches in it or in what follows it. */
  lemma ContainsSplitWord(s: string, t: string)
    requires IsLabel(t) && NoFoldSpecials(s)
    requires |s| > 0 && IsWordChar(s[0])
    ensures ContainsAsWord(s, t) <==>
            EqualIgnoringCase(s[..WordRun(s)], t) || ContainsAsWord(s[WordRun(s)..], t)
  {
    var n := WordRun(s);
    var r := s[n..];
    if ContainsAsWord(s, t) {
      var i: nat :| i + |t| <= |s| && MatchesAt(s, t, i);
      ContainsSplitWordForward(s, t, i);
    }
    if ContainsAsWord(r, t) {
      var j: nat :| j + |t| <= |r| && MatchesAt(r, t, j);
      ContainsSplitWordBackward(s, t, n, j);
    }
    if EqualIgnoringCase(s[..n], t) {
      MatchAtStart(s, t);
    }
  }

  /** Whole-word search for a label is a search among the words of `s`. */
  lemma {:induction false} ContainsAsWordIffWord(s: string, t: string)
    requires IsLabel(t) && NoFoldSpecials(s)
    ensures ContainsAsWord(s, t) <==> exists w :: w in Words(s) && EqualIgnoringCase(w, t)
    decreases |s|
  {
    if s == [] {
      assert !MatchesAt(s, t, 0);
    } else if !IsWordChar(s[0]) {
      NoFoldSpecialsSuffix(s, 1);
      ContainsSkipNonWord(s, t);
      ContainsAsWordIffWord(s[1..], t);
    } else {
      var n := WordRun(s);
      assert Words(s) == [s[..n]] + Words(s[n..]);
      NoFoldSpecialsSuffix(s, n);
      ContainsSplitWord(s, t);
      ContainsAsWordIffWord(s[n..], t);
    }
  }

  lemma {:induction false} WordRunOfLabel(t: string)
    requires IsLabel(t)
    ensures WordRun(t) == |t|
    decreases |t|
  {
    if |t| > 1 {
      WordRunOfLabel(t[1..]);
    }
  }

  /** A string made of word characters only is a single word. */
  lemma SingleWord(t: string)
    requires IsLabel(t)
    ensures Words(t) == [t]
  {
    WordRunOfLabel(t);
    assert t[..|t|] == t;
    assert t[|t|..] == [];
  }

  lemma WordExamplesFound()
    ensures ContainsAsWord("SALES TAX", "tax")
    ensures ContainsAsWord("Tax", "tax")
    ensures ContainsAsWord("Tip (18%)", "tip")
  {
    assert MatchesAt("SALES TAX", "tax", 6) by {
      assert "SALES TAX"[6..9] == "TAX";
    }
    assert MatchesAt("Tax", "tax", 0) by {
      assert "Tax"[0..3] == "Tax";
    }
    assert MatchesAt("Tip (18%)", "tip", 0) by {
      assert "Tip (18%)"[0..3] == "Tip";
    }
  }

  /** A single word holds a label as a whole word only if it is that label. */
  lemma NotInSingleWord(w: string, t: string)
    requires IsLabel(w) && IsLabel(t) && NoFoldSpecials(w)
    requires !EqualIgnoringCase(w, t)
    ensures !ContainsAsWord(w, t)
  {
    SingleWord(w);
    ContainsAsWordIffWord(w, t);
  }

  /** Within a single word, whole-word search for a label is case-insensitive equality. */
  lemma SingleWordContains(w: string, t: string)
    requires IsLabel(w) && IsLabel(t) && NoFoldSpecials(w)
    ensures ContainsAsWord(w, t) <==> EqualIgnoringCase(w, t)
  {
    SingleWord(w);
    ContainsAsWordIffWord(w, t);
  }

  /** Whole-word search does not find a label inside a longer word. */
  lemma WordExamplesNotFound()
    ensures !ContainsAsWord("Vitamins", "tip")
    ensures !ContainsAsWord("Subtotal", "total")
  {
    NotInSingleWord("Vitamins", "tip");
    NotInSingleWord("Subtotal", "total");
  }
}
