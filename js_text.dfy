/**
 * The JavaScript string operations the note components use: `trim()`, `split(/\s+/)` and the
 * `s || fallback` idiom. `trim()` and the regular-expression class `\s` share one definition of
 * white space: ECMAScript's WhiteSpace and LineTerminator code points.
 */
module JsText {

  /** ECMAScript WhiteSpace (TAB, VT, FF, ZWNBSP and the Space_Separator category) and LineTerminator. */
  predicate IsWhiteSpace(c: char) {
    c == '\t' || c == '\n' || c == '\U{B}' || c == '\U{C}' || c == '\r' || c == ' ' ||
    c == '\U{A0}' || c == '\U{1680}' || ('\U{2000}' <= c <= '\U{200A}') ||
    c == '\U{2028}' || c == '\U{2029}' || c == '\U{202F}' || c == '\U{205F}' ||
    c == '\U{3000}' || c == '\U{FEFF}'
  }

  /** Every character of `s` is white space. */
  predicate AllWhiteSpace(s: string) {
    forall k :: 0 <= k < |s| ==> IsWhiteSpace(s[k])
  }

  /** `s || fallback` on a string: the empty string is the only falsy one. */
  function Or(s: string, fallback: string): (r: string)
    ensures s != "" ==> r == s
    ensures s == "" ==> r == fallback
    ensures r == s || r == fallback
    ensures r == "" <==> s == "" && fallback == ""
  {
    if s == "" then fallback else s
  }

  /** Leading white space removed: the longest suffix not starting with white space. */
  function TrimStart(s: string): (r: string)
    ensures |r| <= |s| && r == s[|s| - |r|..]
    ensures r == [] || !IsWhiteSpace(r[0])
    ensures forall k :: 0 <= k < |s| - |r| ==> IsWhiteSpace(s[k])
  {
    if s != [] && IsWhiteSpace(s[0]) then TrimStart(s[1..]) else s
  }

  /** Trailing white space removed: the longest prefix not ending with white space. */
  function TrimEnd(s: string): (r: string)
    ensures |r| <= |s| && r == s[..|r|]
    ensures r == [] || !IsWhiteSpace(r[|r| - 1])
    ensures forall k :: |r| <= k < |s| ==> IsWhiteSpace(s[k])
  {
    if s != [] && IsWhiteSpace(s[|s| - 1]) then TrimEnd(s[..|s| - 1]) else s
  }

  /** `s.trim()`. */
  function Trim(s: string): string {
    TrimEnd(TrimStart(s))
  }

  /** Index of the first white space in `s`, or `|s|`. */
  function FirstWhiteSpace(s: string): (k: nat)
    ensures k <= |s|
    ensures forall j :: 0 <= j < k ==> !IsWhiteSpace(s[j])
    ensures k < |s| ==> IsWhiteSpace(s[k])
  {
    if s == [] || IsWhiteSpace(s[0]) then 0 else 1 + FirstWhiteSpace(s[1..])
  }

  /** `s.split(/\s+/)`: the pieces between maximal runs of white space. */
  function Split(s: string): (pieces: seq<string>)
    ensures |pieces| >= 1
    decreases |s|
  {
    var k := FirstWhiteSpace(s);
    if k == |s| then [s]
    else [s[..k]] + Split(TrimStart(s[k..]))
  }

  /** The number of maximal runs of non-white-space characters, for a scan that starts after `afterSpace`. */
  function RunsFrom(s: string, afterSpace: bool): nat {
    if s == [] then 0
    else (if afterSpace && !IsWhiteSpace(s[0]) then 1 else 0) + RunsFrom(s[1..], IsWhiteSpace(s[0]))
  }

  /** The number of words of `s`: maximal runs of non-white-space characters. */
  function WordRuns(s: string): nat {
    RunsFrom(s, true)
  }

  // ----- Proofs -----

  /** `s.trim()` is empty exactly when `s` is all white space. */
  lemma TrimIsBlankIff(s: string)
    ensures Trim(s) == [] <==> AllWhiteSpace(s)
  {
    var t := TrimStart(s);
    if t != [] {
      assert !IsWhiteSpace(TrimEnd(t)[0]);
    }
  }

  /** Counting runs over a concatenation: the second part is scanned after the first one's last character. */
  lemma {:induction false} RunsFromConcat(a: string, b: string, afterSpace: bool)
    ensures RunsFrom(a + b, afterSpace) ==
            RunsFrom(a, afterSpace) + RunsFrom(b, if a == [] then afterSpace else IsWhiteSpace(a[|a| - 1]))
    decreases |a|
  {
    if a == [] {
      assert a + b == b;
    } else {
      var head: nat := if afterSpace && !IsWhiteSpace(a[0]) then 1 else 0;
      var last := IsWhiteSpace(a[|a| - 1]);
      assert (a + b)[0] == a[0];
      assert (a + b)[1..] == a[1..] + b;
      assert RunsFrom(a + b, afterSpace) == head + RunsFrom(a[1..] + b, IsWhiteSpace(a[0]));
      assert RunsFrom(a, afterSpace) == head + RunsFrom(a[1..], IsWhiteSpace(a[0]));
      RunsFromConcat(a[1..], b, IsWhiteSpace(a[0]));
      if |a| > 1 {
        assert a[1..][|a| - 2] == a[|a| - 1];
      }
      assert (if a[1..] == [] then IsWhiteSpace(a[0]) else IsWhiteSpace(a[1..][|a[1..]| - 1])) == last;

    }
  }

  /** White space holds no word. */
  lemma {:induction false} RunsFromBlank(s: string, afterSpace: bool)
    requires AllWhiteSpace(s)
    ensures RunsFrom(s, afterSpace) == 0
    decreases |s|
  {
    if s != [] {
      RunsFromBlank(s[1..], true);
    }
  }

  /** A run of non-white-space characters is one word, if it starts one. */
  lemma {:induction false} RunsFromWord(s: string, afterSpace: bool)
    requires s != []
    requires forall k :: 0 <= k < |s| ==> !IsWhiteSpace(s[k])
    ensures RunsFrom(s, afterSpace) == if afterSpace then 1 else 0
    decreases |s|
  {
    if |s| > 1 {
      RunsFromWord(s[1..], false);
    }
  }

  /** Dropping white space from the front does not change the number of words. */
  lemma WordRunsTrimStart(s: string)
    ensures WordRuns(TrimStart(s)) == WordRuns(s)
  {
    var t := TrimStart(s);
    var lead := s[..|s| - |t|];
    assert s == lead + t;
    RunsFromConcat(lead, t, true);
    RunsFromBlank(lead, true);
  }

  /** Dropping white space from the back does not change the number of words. */
  lemma WordRunsTrimEnd(s: string)
    ensures WordRuns(TrimEnd(s)) == WordRuns(s)
  {
    var u := TrimEnd(s);
    var tail := s[|u|..];
    assert s == u + tail;
    RunsFromConcat(u, tail, true);
    RunsFromBlank(tail, if u == [] then true else IsWhiteSpace(u[|u| - 1]));
  }

  /** Trimming does not change the number of words. */
  lemma WordRunsTrim(s: string)
    ensures WordRuns(Trim(s)) == WordRuns(s)
  {
    WordRunsTrimStart(s);
    WordRunsTrimEnd(TrimStart(s));
  }

  /** A word, a run of white space, and the rest: the rest has one word fewer. */
  lemma WordRunsStep(word: string, blank: string, rest: string)
    requires word != [] && forall k :: 0 <= k < |word| ==> !IsWhiteSpace(word[k])
    requires blank != [] && AllWhiteSpace(blank)
    ensures WordRuns(word + (blank + rest)) == 1 + WordRuns(rest)
  {
    RunsFromConcat(word, blank + rest, true);
    RunsFromWord(word, true);
    RunsFromConcat(blank, rest, false);
    RunsFromBlank(blank, false);
  }

  /** A string that starts with white space is a non-empty run of white space and its trimmed rest. */
  lemma LeadingBlank(gap: string) returns (blank: string)
    requires gap != [] && IsWhiteSpace(gap[0])
    ensures blank != [] && AllWhiteSpace(blank)
    ensures gap == blank + TrimStart(gap)
  {
    var rest := TrimStart(gap);
    var cut := |gap| - |rest|;
    assert rest != gap;
    assert gap[0..] == gap;
    blank := gap[..cut];
    assert gap == blank + rest;
  }

  /** Trimming the front of a string that does not end in white space keeps its last character. */
  lemma {:induction false} TrimStartKeepsEnd(s: string)
    requires s != [] && !IsWhiteSpace(s[|s| - 1])
    ensures TrimStart(s) != [] && TrimStart(s)[|TrimStart(s)| - 1] == s[|s| - 1]
    decreases |s|
  {
    if IsWhiteSpace(s[0]) {
      assert s[1..][|s| - 2] == s[|s| - 1];
      TrimStartKeepsEnd(s[1..]);
    }
  }

  /** A string is the concatenation of its two halves at any cut. */
  lemma SplitAt(s: string, k: nat)
    requires k <= |s|
    ensures s == s[..k] + s[k..]
  {
  }

  /** The pieces of `split` after the first word, for a string with no white space at either end. */
  lemma SplitStep(s: string) returns (word: string, blank: string, rest: string)
    requires FirstWhiteSpace(s) < |s|
    requires !IsWhiteSpace(s[0]) && !IsWhiteSpace(s[|s| - 1])
    ensures s == word + (blank + rest)
    ensures Split(s) == [word] + Split(rest)
    ensures word != [] && forall k :: 0 <= k < |word| ==> !IsWhiteSpace(word[k])
    ensures blank != [] && AllWhiteSpace(blank)
    ensures rest != [] && !IsWhiteSpace(rest[0]) && !IsWhiteSpace(rest[|rest| - 1])
  {
    var k := FirstWhiteSpace(s);
    assert k != 0;
    var gap := s[k..];
    assert IsWhiteSpace(gap[0]);
    word, rest := s[..k], TrimStart(gap);
    forall j | 0 <= j < |word| ensures !IsWhiteSpace(word[j]) {
      assert word[j] == s[j];
    }
    assert Split(s) == [word] + Split(rest);
    assert gap[|gap| - 1] == s[|s| - 1];
    TrimStartKeepsEnd(gap);
    blank := LeadingBlank(gap);
    SplitAt(s, k);
  }

  /** On a string with no white space at either end, `split(/\s+/)` yields one piece per word. */
  lemma {:induction false} SplitCountsWords(s: string)
    requires s != [] && !IsWhiteSpace(s[0]) && !IsWhiteSpace(s[|s| - 1])
    ensures |Split(s)| == WordRuns(s)
    decreases |s|
  {
    if FirstWhiteSpace(s) == |s| {
      RunsFromWord(s, true);
    } else {
      var word, blank, rest := SplitStep(s);
      assert |rest| < |s|;
      SplitCountsWords(rest);
      WordRunsStep(word, blank, rest);
    }
  }
}
