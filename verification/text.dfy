/** Character classes and string helpers shared by the path-expression parser
    and the renderer: the classes of the parser's node pattern, Java's
    `String.trim`, and `Collectors.joining(",")`. */
module Text {

  /** `\s` in a Java regular expression: space, tab, newline, vertical tab,
      form feed and carriage return. */
  predicate IsRegexSpace(c: char) {
    c == ' ' || c == '\t' || c == '\n' || c == '\U{000B}' || c == '\U{000C}' || c == '\r'
  }

  /** The class `[a-zA-Z0-9_]`: the characters a key is meant to be made of. */
  predicate IsWordChar(c: char) {
    ('a' <= c <= 'z') || ('A' <= c <= 'Z') || ('0' <= c <= '9') || c == '_'
  }

  /** The key class of the node pattern, `[a-zA-Z0-9_\s]`. */
  predicate IsKeyChar(c: char) {
    IsWordChar(c) || IsRegexSpace(c)
  }

  /** The class of the parenthesised part of the node pattern, `[a-zA-Z0-9,()_\s]`. */
  predicate IsInnerChar(c: char) {
    IsKeyChar(c) || c == ',' || c == '(' || c == ')'
  }

  /** `String.trim` removes every leading and trailing character whose code is at most U+0020. */
  predicate IsTrimmable(c: char) {
    c <= ' '
  }

  predicate AllWordChars(s: string) {
    forall i :: 0 <= i < |s| ==> IsWordChar(s[i])
  }

  predicate AllKeyChars(s: string) {
    forall i :: 0 <= i < |s| ==> IsKeyChar(s[i])
  }

  predicate AllInnerChars(s: string) {
    forall i :: 0 <= i < |s| ==> IsInnerChar(s[i])
  }

  /** `r` is `s` with its leading and trailing trimmable characters removed,
      and nothing else: a slice of `s` that neither starts nor ends with one. */
  ghost predicate IsTrimOf(s: string, r: string) {
    exists a, b ::
      && 0 <= a <= b <= |s|
      && r == s[a..b]
      && (forall k :: 0 <= k < a ==> IsTrimmable(s[k]))
      && (forall k :: b <= k < |s| ==> IsTrimmable(s[k]))
      && (|r| > 0 ==> !IsTrimmable(r[0]) && !IsTrimmable(r[|r| - 1]))
  }

  /** Number of leading trimmable characters. */
  function LeadingTrimmable(s: string): (a: nat)
    ensures a <= |s|
  {
    if |s| == 0 || !IsTrimmable(s[0]) then 0 else 1 + LeadingTrimmable(s[1..])
  }

  lemma {:induction false} LeadingTrimmableSpec(s: string)
    ensures forall k :: 0 <= k < LeadingTrimmable(s) ==> IsTrimmable(s[k])
    ensures LeadingTrimmable(s) < |s| ==> !IsTrimmable(s[LeadingTrimmable(s)])
  {
    if |s| > 0 && IsTrimmable(s[0]) {
      LeadingTrimmableSpec(s[1..]);
    }
  }

  /** Length of `s` without its trailing trimmable characters. */
  function TrailingStart(s: string): (b: nat)
    ensures b <= |s|
  {
    if |s| == 0 || !IsTrimmable(s[|s| - 1]) then |s| else TrailingStart(s[..|s| - 1])
  }

  lemma {:induction false} TrailingStartSpec(s: string)
    ensures forall k :: TrailingStart(s) <= k < |s| ==> IsTrimmable(s[k])
    ensures 0 < TrailingStart(s) ==> !IsTrimmable(s[TrailingStart(s) - 1])
  {
    if |s| > 0 && IsTrimmable(s[|s| - 1]) {
      TrailingStartSpec(s[..|s| - 1]);
    }
  }

  /** Java's `String.trim`. */
  function Trim(s: string): (r: string)
    ensures |r| <= |s|
    ensures |r| > 0 ==> !IsTrimmable(r[0]) && !IsTrimmable(r[|r| - 1])
  {
    LeadingTrimmableSpec(s);
    TrailingStartSpec(s);
    var a := LeadingTrimmable(s);
    if a == |s| then
      s[a..a]
    else
      var b := TrailingStart(s);
      s[a..b]
  }

  /** `trim` removes the leading and trailing characters up to U+0020, and nothing else. */
  lemma TrimSpec(s: string)
    ensures IsTrimOf(s, Trim(s))
  {
    LeadingTrimmableSpec(s);
    TrailingStartSpec(s);
  }

  /** A string that neither starts nor ends with a trimmable character is its own trim. */
  lemma TrimKeeps(s: string)
    requires |s| > 0 ==> !IsTrimmable(s[0]) && !IsTrimmable(s[|s| - 1])
    ensures Trim(s) == s
  {
    if |s| > 0 {
      assert LeadingTrimmable(s) == 0;
      assert TrailingStart(s) == |s|;
      assert s[0..|s|] == s;
    }
  }

  /** Trimming twice is trimming once. */
  lemma TrimIdempotent(s: string)
    ensures Trim(Trim(s)) == Trim(s)
  {
    TrimKeeps(Trim(s));
  }

  predicate AllRegexSpace(s: string) {
    forall i :: 0 <= i < |s| ==> IsRegexSpace(s[i])
  }

  predicate AllTrimmable(s: string) {
    forall i :: 0 <= i < |s| ==> IsTrimmable(s[i])
  }

  lemma {:induction false} LeadingPad(w: string, x: string)
    requires AllTrimmable(w)
    ensures LeadingTrimmable(w + x) == |w| + LeadingTrimmable(x)
  {
    if |w| > 0 {
      assert (w + x)[0] == w[0];
      assert (w + x)[1..] == w[1..] + x;
      LeadingPad(w[1..], x);
    } else {
      assert w + x == x;
    }
  }

  lemma {:induction false} TrailingPad(y: string, w: string)
    requires AllTrimmable(w)
    ensures TrailingStart(y + w) == TrailingStart(y)
  {
    if |w| > 0 {
      assert (y + w)[|y + w| - 1] == w[|w| - 1];
      assert (y + w)[..|y + w| - 1] == y + w[..|w| - 1];
      TrailingPad(y, w[..|w| - 1]);
    } else {
      assert y + w == y;
    }
  }

  /** Padding a trimmed string with trimmable characters on either side does
      not change what `trim` returns. */
  lemma TrimPadded(w1: string, s: string, w2: string)
    requires AllTrimmable(w1) && AllTrimmable(w2)
    requires |s| > 0 ==> !IsTrimmable(s[0]) && !IsTrimmable(s[|s| - 1])
    ensures Trim(w1 + s + w2) == s
  {
    var t := w1 + s + w2;
    assert t == w1 + (s + w2);
    LeadingPad(w1, s + w2);
    if |s| == 0 {
      assert s + w2 == w2 + "";
      LeadingPad(w2, "");
    } else {
      assert (s + w2)[0] == s[0];
      assert t == (w1 + s) + w2;
      TrailingPad(w1 + s, w2);
      assert (w1 + s)[|w1 + s| - 1] == s[|s| - 1];
      assert t[|w1|..|w1| + |s|] == s;
    }
  }

  /** `Collectors.joining(",")`: the pieces in order, separated by single commas. */
  function JoinComma(ps: seq<string>): string
  {
    if |ps| == 0 then ""
    else if |ps| == 1 then ps[0]
    else JoinComma(ps[..|ps| - 1]) + "," + ps[|ps| - 1]
  }

  /** Every character of a comma-join comes from a piece or is a separating comma. */
  lemma {:induction false} JoinCommaChars(ps: seq<string>, j: nat)
    requires j < |JoinComma(ps)|
    ensures JoinComma(ps)[j] == ',' || exists i, k :: 0 <= i < |ps| && 0 <= k < |ps[i]| && JoinComma(ps)[j] == ps[i][k]
  {
    if |ps| == 1 {
      assert JoinComma(ps)[j] == ps[0][j];
    } else {
      var front := JoinComma(ps[..|ps| - 1]);
      var last := ps[|ps| - 1];
      assert JoinComma(ps) == front + "," + last;
      if j < |front| {
        JoinCommaChars(ps[..|ps| - 1], j);
        if JoinComma(ps)[j] != ',' {
          var i, k :| 0 <= i < |ps| - 1 && 0 <= k < |ps[..|ps| - 1][i]| && front[j] == ps[..|ps| - 1][i][k];
          assert JoinComma(ps)[j] == ps[i][k];
        }
      } else if j > |front| {
        assert JoinComma(ps)[j] == last[j - |front| - 1];
      }
    }
  }
}
