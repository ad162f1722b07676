/**
 * The two pieces of Go's `strings` package that the receipt code relies on:
 * `strings.Fields` (split around runs of white space) and `strings.Join`.
 * Strings are sequences of Unicode code points.
 */
module GoStrings {

  /** Go's `unicode.IsSpace`: the Latin-1 spaces plus the Unicode White_Space set. */
  predicate IsSpace(c: char)
  {
    c == '\t' || c == '\n' || c == '\U{000B}' || c == '\U{000C}' || c == '\r' || c == ' ' ||
    c == '\U{0085}' || c == '\U{00A0}' || c == '\U{1680}' ||
    ('\U{2000}' <= c <= '\U{200A}') ||
    c == '\U{2028}' || c == '\U{2029}' || c == '\U{202F}' || c == '\U{205F}' || c == '\U{3000}'
  }

  /** A field produced by `strings.Fields`: non-empty and free of white space. */
  predicate IsField(t: string)
  {
    |t| > 0 && forall k :: 0 <= k < |t| ==> !IsSpace(t[k])
  }

  predicate AllFields(ts: seq<string>)
  {
    forall k :: 0 <= k < |ts| ==> IsField(ts[k])
  }

  /** Length of the longest prefix of `s` that holds no white space. */
  function RunLength(s: string): (n: nat)
    ensures n <= |s|
    ensures forall k :: 0 <= k < n ==> !IsSpace(s[k])
    ensures n == |s| || IsSpace(s[n])
  {
    if s == [] || IsSpace(s[0]) then 0 else 1 + RunLength(s[1..])
  }

  /** `strings.Fields`: the maximal white-space-free runs of `s`, left to right. */
  function Fields(s: string): (r: seq<string>)
    ensures AllFields(r)
    decreases |s|
  {
    if s == [] then []
    else if IsSpace(s[0]) then Fields(s[1..])
    else
      var n := RunLength(s);
      [s[..n]] + Fields(s[n..])
  }

  /** `strings.Join(ts, sep)`. */
  function Join(ts: seq<string>, sep: string): string
  {
    if |ts| == 0 then ""
    else if |ts| == 1 then ts[0]
    else ts[0] + sep + Join(ts[1..], sep)
  }

  /** Joining with a separator is empty only when nothing, or one empty string, is joined. */
  lemma {:induction false} JoinEmpty(ts: seq<string>, sep: string)
    requires |sep| > 0
    ensures Join(ts, sep) == "" <==> (|ts| == 0 || (|ts| == 1 && ts[0] == ""))
  {
    if |ts| >= 2 {
      assert |Join(ts, sep)| >= |sep|;
    }
  }

  /** Joining one more string adds the separator and that string at the end. */
  lemma {:induction false} JoinSnoc(ts: seq<string>, t: string, sep: string)
    requires |ts| > 0
    ensures Join(ts + [t], sep) == Join(ts, sep) + sep + t
    decreases |ts|
  {
    if |ts| == 1 {
      assert ts + [t] == [ts[0], t];
      assert [ts[0], t][1..] == [t];
    } else {
      assert (ts + [t])[1..] == ts[1..] + [t];
      JoinSnoc(ts[1..], t, sep);
    }
  }

  lemma RunLengthOfFieldThenSpace(t: string, rest: string)
    requires IsField(t)
    ensures RunLength(t + " " + rest) == |t|
    decreases |t|
  {
    if |t| > 1 {
      assert (t + " " + rest)[1..] == t[1..] + " " + rest;
      RunLengthOfFieldThenSpace(t[1..], rest);
    }
  }

  lemma RunLengthOfField(t: string)
    requires IsField(t)
    ensures RunLength(t) == |t|
    decreases |t|
  {
    if |t| > 1 {
      RunLengthOfField(t[1..]);
    }
  }

  /** Splitting what was joined with single spaces gives the fields back. */
  lemma {:induction false} FieldsJoinRoundTrip(ts: seq<string>)
    requires AllFields(ts)
    ensures Fields(Join(ts, " ")) == ts
  {
    if |ts| == 1 {
      var t := ts[0];
      RunLengthOfField(t);
      assert t[..|t|] == t;
      assert t[|t|..] == [];
    } else if |ts| >= 2 {
      var t, rest := ts[0], Join(ts[1..], " ");
      var s := t + " " + rest;
      assert Join(ts, " ") == s;
      RunLengthOfFieldThenSpace(t, rest);
      assert s[..|t|] == t;
      assert s[|t|..] == " " + rest;
      assert (" " + rest)[1..] == rest;
      FieldsJoinRoundTrip(ts[1..]);
      assert ts == [t] + ts[1..];
    }
  }
}
