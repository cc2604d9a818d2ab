/** `NodeParser.splitByTopLevelCommas`: one left-to-right scan that tracks the
    parenthesis depth and cuts the input at the commas met at depth zero. */
module Splitter {
  import opened Wrappers
  import opened Text

  /** The change of parenthesis depth caused by one character. */
  function Step(c: char): int {
    if c == '(' then 1 else if c == ')' then -1 else 0
  }

  /** Parenthesis depth after scanning `s` from depth zero: opening minus
      closing parentheses (it may go negative, as the source's counter does). */
  function Depth(s: string): int {
    if |s| == 0 then 0 else Depth(s[..|s| - 1]) + Step(s[|s| - 1])
  }

  lemma {:induction false} DepthAppend(a: string, b: string)
    ensures Depth(a + b) == Depth(a) + Depth(b)
  {
    if |b| == 0 {
      assert a + b == a;
    } else {
      var b' := b[..|b| - 1];
      assert (a + b)[..|a + b| - 1] == a + b';
      DepthAppend(a, b');
    }
  }

  /** The pieces the scan produces before trimming; the last one is whatever
      follows the last comma at depth zero. */
  function Pieces(s: string): (r: seq<string>)
    ensures |r| >= 1
  {
    if |s| == 0 then [""]
    else
      var prev := Pieces(s[..|s| - 1]);
      var c := s[|s| - 1];
      if c == ',' && Depth(s[..|s| - 1]) == 0 then prev + [""]
      else prev[..|prev| - 1] + [prev[|prev| - 1] + [c]]
  }

  /** The tokens `splitByTopLevelCommas` returns: the pieces, each trimmed. */
  function Tokens(s: string): (r: seq<string>)
    ensures |r| == |Pieces(s)| >= 1
    ensures forall i :: 0 <= i < |r| ==> r[i] == Trim(Pieces(s)[i]) && |r[i]| <= |s|
  {
    var ps := Pieces(s);
    PiecesShorter(s);
    seq(|ps|, i requires 0 <= i < |ps| => Trim(ps[i]))
  }

  /** No piece is longer than the input. */
  lemma {:induction false} PiecesShorter(s: string)
    ensures forall i :: 0 <= i < |Pieces(s)| ==> |Pieces(s)[i]| <= |s|
    decreases |s|
  {
    if |s| > 0 {
      PiecesShorter(s[..|s| - 1]);
    }
  }

  /** No comma of `p` sits at depth zero, counting from the start of `p`
      (`NoTopLevelCommaAt` states it position by position). */
  ghost predicate NoTopLevelComma(p: string) {
    TopLevelCommaCount(p) == 0
  }

  /** The comma-free condition, position by position: every comma of `p` has
      an unbalanced prefix before it. */
  lemma {:induction false} NoTopLevelCommaAt(p: string)
    ensures NoTopLevelComma(p) <==>
      forall j :: 0 <= j < |p| && p[j] == ',' ==> Depth(p[..j]) != 0
    decreases |p|
  {
    if |p| > 0 {
      var q := p[..|p| - 1];
      NoTopLevelCommaAt(q);
      assert forall j :: 0 <= j < |q| ==> p[j] == q[j] && p[..j] == q[..j];
    }
  }

  /** `ps` cuts `s` at exactly its top-level commas: the pieces joined with
      commas give back `s`, every separating comma is at depth zero (each piece
      but the last is balanced), and no piece holds a comma at depth zero. */
  ghost predicate IsTopLevelSplit(s: string, ps: seq<string>) {
    && |ps| >= 1
    && JoinComma(ps) == s
    && (forall i :: 0 <= i < |ps| - 1 ==> Depth(ps[i]) == 0)
    && (forall i :: 0 <= i < |ps| ==> NoTopLevelComma(ps[i]))
  }

  lemma DepthSnoc(s: string, c: char)
    ensures Depth(s + [c]) == Depth(s) + Step(c)
  {
    assert (s + [c])[..|s|] == s;
  }

  /** One more character extends the scan by one step. */
  lemma PiecesSnoc(s: string, c: char)
    ensures Pieces(s + [c]) ==
      if c == ',' && Depth(s) == 0 then Pieces(s) + [""]
      else Pieces(s)[..|Pieces(s)| - 1] + [Pieces(s)[|Pieces(s)| - 1] + [c]]
  {
    assert (s + [c])[..|s|] == s;
  }

  lemma JoinCommaSnoc(ps: seq<string>, p: string)
    ensures JoinComma(ps + [p]) == if |ps| == 0 then p else JoinComma(ps) + "," + p
  {
    assert (ps + [p])[..|ps|] == ps;
  }

  /** Across a top-level split, the depth of the whole is the depth of its last piece. */
  lemma {:induction false} SplitDepth(s: string, ps: seq<string>)
    requires IsTopLevelSplit(s, ps)
    ensures Depth(s) == Depth(ps[|ps| - 1])
    decreases |ps|
  {
    if |ps| > 1 {
      var front := ps[..|ps| - 1];
      SplitFront(s, ps);
      SplitDepth(JoinComma(front), front);
      DepthAppend(JoinComma(front) + ",", ps[|ps| - 1]);
      DepthSnoc(JoinComma(front), ',');
    }
  }

  /** The pieces but the last of a top-level split split what precedes the last separating comma. */
  lemma SplitFront(s: string, ps: seq<string>)
    requires IsTopLevelSplit(s, ps) && |ps| > 1
    ensures IsTopLevelSplit(JoinComma(ps[..|ps| - 1]), ps[..|ps| - 1])
    ensures s == JoinComma(ps[..|ps| - 1]) + "," + ps[|ps| - 1]
    ensures Depth(ps[..|ps| - 1][|ps| - 2]) == 0
  {
    var front := ps[..|ps| - 1];
    assert forall i :: 0 <= i < |front| ==> front[i] == ps[i];
  }

  /** Extending the last piece by a character that is not a top-level comma keeps a top-level split. */
  lemma ExtendLastPiece(s: string, ps: seq<string>, c: char)
    requires IsTopLevelSplit(s, ps)
    requires c == ',' ==> Depth(ps[|ps| - 1]) != 0
    ensures IsTopLevelSplit(s + [c], ps[..|ps| - 1] + [ps[|ps| - 1] + [c]])
  {
    var old_last := ps[|ps| - 1];
    var last := old_last + [c];
    assert last[..|old_last|] == old_last;
    assert NoTopLevelComma(last);
    ReplaceLastPiece(s, ps, last);
    JoinCommaExtendLast(ps, c);
  }

  /** Appending a character to the last piece appends it to the join. */
  lemma JoinCommaExtendLast(ps: seq<string>, c: char)
    requires |ps| >= 1
    ensures JoinComma(ps[..|ps| - 1] + [ps[|ps| - 1] + [c]]) == JoinComma(ps) + [c]
  {
    var front := ps[..|ps| - 1];
    var old_last := ps[|ps| - 1];
    JoinCommaSnoc(front, old_last + [c]);
    if |front| > 0 {
      AppendAfterComma(JoinComma(front), old_last, c);
    }
  }

  lemma AppendAfterComma(a: string, b: string, c: char)
    ensures a + "," + (b + [c]) == (a + "," + b) + [c]
  {
  }

  /** Any comma-free replacement of the last piece keeps the split property of the other pieces. */
  lemma ReplaceLastPiece(s: string, ps: seq<string>, last: string)
    requires IsTopLevelSplit(s, ps) && NoTopLevelComma(last)
    ensures IsTopLevelSplit(JoinComma(ps[..|ps| - 1] + [last]), ps[..|ps| - 1] + [last])
  {
    var r := ps[..|ps| - 1] + [last];
    assert forall i :: 0 <= i < |ps| - 1 ==> r[i] == ps[i];
  }

  /** Starting a new, empty piece at a comma met at depth zero keeps a top-level split. */
  lemma StartPiece(s: string, ps: seq<string>)
    requires IsTopLevelSplit(s, ps)
    requires Depth(ps[|ps| - 1]) == 0
    ensures IsTopLevelSplit(s + [','], ps + [""])
  {
    var r := ps + [""];
    JoinCommaStart(ps);
    SnocKeepsPieces(ps, "");
    assert r[|ps|] == "" && NoTopLevelComma("");
    assert forall i :: 0 <= i < |r| - 1 ==> Depth(r[i]) == 0;
    assert forall i :: 0 <= i < |r| ==> NoTopLevelComma(r[i]);
  }

  /** A new, empty last piece adds a comma to the join. */
  lemma JoinCommaStart(ps: seq<string>)
    requires |ps| >= 1
    ensures JoinComma(ps + [""]) == JoinComma(ps) + [',']
  {
    JoinCommaSnoc(ps, "");
    assert JoinComma(ps) + "," + "" == JoinComma(ps) + [','];
  }

  lemma SnocKeepsPieces(ps: seq<string>, p: string)
    ensures forall i :: 0 <= i < |ps| ==> (ps + [p])[i] == ps[i]
  {
  }

  /** The scan cuts its input at exactly the top-level commas. */
  lemma {:induction false} PiecesSplitAtTopLevelCommas(s: string)
    ensures IsTopLevelSplit(s, Pieces(s))
    decreases |s|
  {
    if |s| == 0 {
      assert JoinComma([""]) == "";
    } else {
      var s' := s[..|s| - 1];
      PiecesSplitAtTopLevelCommas(s');
      ScanKeepsSplit(s', s[|s| - 1]);
      Snoc(s);
    }
  }

  /** One more character read keeps the pieces a top-level split. */
  lemma ScanKeepsSplit(s: string, c: char)
    requires IsTopLevelSplit(s, Pieces(s))
    ensures IsTopLevelSplit(s + [c], Pieces(s + [c]))
  {
    SplitDepth(s, Pieces(s));
    PiecesSnoc(s, c);
    if c == ',' && Depth(s) == 0 {
      StartPiece(s, Pieces(s));
    } else {
      ExtendLastPiece(s, Pieces(s), c);
    }
  }

  /** Removing the last character of a non-empty last piece keeps a top-level split. */
  lemma ShortenLastPiece(s: string, ps: seq<string>)
    requires IsTopLevelSplit(s, ps)
    requires |ps[|ps| - 1]| > 0
    ensures |s| > 0
    ensures IsTopLevelSplit(s[..|s| - 1], ps[..|ps| - 1] + [ps[|ps| - 1][..|ps[|ps| - 1]| - 1]])
    ensures s[|s| - 1] == ps[|ps| - 1][|ps[|ps| - 1]| - 1]
  {
    var n := |ps|;
    var front := ps[..n - 1];
    var last := ps[n - 1];
    var c := last[|last| - 1];
    var last' := last[..|last| - 1];
    Snoc(last);
    JoinCommaSnoc(front, last');
    var s' := JoinComma(front + [last']);
    if n > 1 {
      AppendAfterComma(JoinComma(front), last', c);
    }
    assert s == s' + [c];
    assert s[..|s| - 1] == s';
    var r := front + [last'];
    assert last[..|last| - 1] == last';
    assert NoTopLevelComma(last');
    assert forall i :: 0 <= i < n - 1 ==> r[i] == ps[i];
    assert IsTopLevelSplit(s', r);
  }

  /** Dropping an empty last piece and its comma keeps a top-level split. */
  lemma DropEmptyPiece(s: string, ps: seq<string>)
    requires IsTopLevelSplit(s, ps)
    requires |ps| > 1 && ps[|ps| - 1] == ""
    ensures |s| > 0 && s[|s| - 1] == ','
    ensures IsTopLevelSplit(s[..|s| - 1], ps[..|ps| - 1])
  {
    var front := ps[..|ps| - 1];
    assert s == JoinComma(front) + [','];
    assert s[..|s| - 1] == JoinComma(front);
  }

  lemma ScanStartsPiece(s: string)
    requires IsTopLevelSplit(s, Pieces(s))
    requires Depth(Pieces(s)[|Pieces(s)| - 1]) == 0
    ensures Pieces(s + [',']) == Pieces(s) + [""]
  {
    SplitDepth(s, Pieces(s));
    PiecesSnoc(s, ',');
  }

  lemma Reassemble(ps: seq<string>, prev: seq<string>, c: char)
    requires |ps| >= 1 && |ps[|ps| - 1]| > 0
    requires prev == ps[..|ps| - 1] + [ps[|ps| - 1][..|ps[|ps| - 1]| - 1]]
    requires c == ps[|ps| - 1][|ps[|ps| - 1]| - 1]
    ensures prev[..|prev| - 1] + [prev[|prev| - 1] + [c]] == ps
  {
    var n := |ps|;
    assert prev[..n - 1] == ps[..n - 1];
    Snoc(ps[n - 1]);
    Snoc(ps);
  }

  /** The step of the uniqueness proof for a split whose last piece is not empty. */
  lemma UniqueWhenLastPieceGrows(s: string, ps: seq<string>)
    requires |ps| >= 1 && |ps[|ps| - 1]| > 0 && |s| > 0
    requires NoTopLevelComma(ps[|ps| - 1])
    requires Pieces(s[..|s| - 1]) == ps[..|ps| - 1] + [ps[|ps| - 1][..|ps[|ps| - 1]| - 1]]
    requires Depth(s[..|s| - 1]) == Depth(ps[|ps| - 1][..|ps[|ps| - 1]| - 1])
    requires s[|s| - 1] == ps[|ps| - 1][|ps[|ps| - 1]| - 1]
    ensures Pieces(s) == ps
  {
    var last := ps[|ps| - 1];
    var s' := s[..|s| - 1];
    var c := s[|s| - 1];
    assert c == ',' ==> Depth(s') != 0 by {
      assert TopLevelCommaCount(last) == 0;
    }
    PiecesSnoc(s', c);
    Snoc(s);
    Reassemble(ps, Pieces(s'), c);
  }

  /** The step of the uniqueness proof for a split whose last piece is empty. */
  lemma UniqueWhenPieceStarts(s: string, ps: seq<string>)
    requires IsTopLevelSplit(s, ps) && |ps| > 1 && ps[|ps| - 1] == "" && |s| > 0
    requires s[|s| - 1] == ','
    requires Pieces(s[..|s| - 1]) == ps[..|ps| - 1]
    requires IsTopLevelSplit(s[..|s| - 1], ps[..|ps| - 1])
    ensures Pieces(s) == ps
  {
    var s' := s[..|s| - 1];
    SplitDepth(s', ps[..|ps| - 1]);
    ScanStartsPiece(s');
    Snoc(s);
    Snoc(ps);
  }

  /** A top-level split is unique: any split of `s` at exactly its top-level
      commas is the one the scan produces. */
  lemma {:induction false} TopLevelSplitUnique(s: string, ps: seq<string>)
    requires IsTopLevelSplit(s, ps)
    ensures Pieces(s) == ps
    decreases |s|
  {
    var n := |ps|;
    var last := ps[n - 1];
    if |last| > 0 {
      ShortenLastPiece(s, ps);
      TopLevelSplitUnique(s[..|s| - 1], ps[..n - 1] + [last[..|last| - 1]]);
      SplitDepth(s[..|s| - 1], ps[..n - 1] + [last[..|last| - 1]]);
      UniqueWhenLastPieceGrows(s, ps);
    } else if n > 1 {
      DropEmptyPiece(s, ps);
      TopLevelSplitUnique(s[..|s| - 1], ps[..n - 1]);
      UniqueWhenPieceStarts(s, ps);
    } else {
      assert ps == [""];
      assert s == "";
    }
  }

  /** A text without commas is a single piece, whatever its parentheses. */
  lemma {:induction false} PiecesWithoutComma(s: string)
    requires ',' !in s
    ensures Pieces(s) == [s]
    decreases |s|
  {
    if |s| > 0 {
      Snoc(s);
      PiecesWithoutComma(s[..|s| - 1]);
    }
  }

  /** How many commas of `s` are met at depth zero. */
  function TopLevelCommaCount(s: string): nat {
    if |s| == 0 then 0
    else TopLevelCommaCount(s[..|s| - 1]) + (if s[|s| - 1] == ',' && Depth(s[..|s| - 1]) == 0 then 1 else 0)
  }

  /** There is one token more than there are top-level commas; commas inside
      parentheses never split. */
  lemma {:induction false} TokenCount(s: string)
    ensures |Tokens(s)| == 1 + TopLevelCommaCount(s)
    decreases |s|
  {
    if |s| > 0 {
      TokenCount(s[..|s| - 1]);
      Snoc(s);
      PiecesSnoc(s[..|s| - 1], s[|s| - 1]);
    }
  }

  /** What the scan of the source has established after reading `prefix`:
      `depth` is the depth so far, `tokens` holds the trimmed pieces already
      closed, and `open` is the piece still being read. */
  ghost predicate Scanned(prefix: string, tokens: seq<string>, open: string, depth: int) {
    depth == Depth(prefix) && ClosedAndOpen(Pieces(prefix), tokens, open)
  }

  /** `tokens` are the trimmed pieces of `ps` but the last, and `open` is the last. */
  ghost predicate ClosedAndOpen(ps: seq<string>, tokens: seq<string>, open: string) {
    && |tokens| == |ps| - 1
    && (forall j :: 0 <= j < |tokens| ==> tokens[j] == Trim(ps[j]))
    && ps[|tokens|] == open
  }

  lemma CutKeepsClosedAndOpen(ps: seq<string>, tokens: seq<string>, open: string)
    requires ClosedAndOpen(ps, tokens, open)
    ensures ClosedAndOpen(ps + [""], tokens + [Trim(open)], "")
  {
    var t := tokens + [Trim(open)];
    assert forall j :: 0 <= j < |tokens| ==> t[j] == tokens[j] && (ps + [""])[j] == ps[j];
  }

  lemma ExtendKeepsClosedAndOpen(ps: seq<string>, tokens: seq<string>, open: string, c: char)
    requires ClosedAndOpen(ps, tokens, open)
    ensures ClosedAndOpen(ps[..|ps| - 1] + [open + [c]], tokens, open + [c])
  {
    var ps' := ps[..|ps| - 1] + [open + [c]];
    assert forall j :: 0 <= j < |tokens| ==> ps'[j] == ps[j];
  }

  /** A comma at depth zero closes the open token and starts an empty one. */
  lemma ScanCut(prefix: string, tokens: seq<string>, open: string, depth: int)
    requires Scanned(prefix, tokens, open, depth) && depth == 0
    ensures Scanned(prefix + [','], tokens + [Trim(open)], "", depth)
  {
    PiecesSnoc(prefix, ',');
    DepthSnoc(prefix, ',');
    CutKeepsClosedAndOpen(Pieces(prefix), tokens, open);
  }

  /** Any other character extends the open token and moves the depth. */
  lemma ScanExtend(prefix: string, tokens: seq<string>, open: string, depth: int, c: char)
    requires Scanned(prefix, tokens, open, depth) && !(c == ',' && depth == 0)
    ensures Scanned(prefix + [c], tokens, open + [c], depth + Step(c))
  {
    PiecesSnoc(prefix, c);
    DepthSnoc(prefix, c);
    ExtendKeepsClosedAndOpen(Pieces(prefix), tokens, open, c);
  }

  /** At the end of the input, the closed tokens and the trimmed open piece are the tokens. */
  lemma ScanDone(input: string, tokens: seq<string>, open: string, depth: int)
    requires Scanned(input, tokens, open, depth)
    ensures tokens + [Trim(open)] == Tokens(input)
    ensures |tokens + [Trim(open)]| == 1 + TopLevelCommaCount(input)
    ensures forall i :: 0 <= i < |Tokens(input)| ==> Trim(Tokens(input)[i]) == Tokens(input)[i]
  {
    TokenCount(input);
    forall i | 0 <= i < |Tokens(input)|
      ensures Trim(Tokens(input)[i]) == Tokens(input)[i]
    {
      TrimIdempotent(Pieces(input)[i]);
    }
  }

  /** The scan as the source writes it: one pass with a depth counter and the
      start of the current token; each token is trimmed as it is emitted. */
  method SplitByTopLevelCommas(input: string) returns (tokens: seq<string>)
    ensures tokens == Tokens(input)
    ensures |tokens| == 1 + TopLevelCommaCount(input)
    ensures forall i :: 0 <= i < |tokens| ==> Trim(tokens[i]) == tokens[i]
  {
    tokens := [];
    var depth := 0;
    var tokenStart := 0;
    ghost var open := "";
    for i := 0 to |input|
      invariant tokenStart <= i
      invariant open == input[tokenStart..i]
      invariant Scanned(input[..i], tokens, open, depth)
    {
      var c := input[i];
      ghost var prefix := input[..i];
      assert input[..i + 1] == prefix + [c];
      if c == ',' && depth == 0 {
        ScanCut(prefix, tokens, open, depth);
        tokens := tokens + [Trim(input[tokenStart..i])];
        tokenStart := i + 1;
        open := "";
      } else {
        ScanExtend(prefix, tokens, open, depth, c);
        if c == '(' {
          depth := depth + 1;
        } else if c == ')' {
          depth := depth - 1;
        }
        open := open + [c];
      }
    }
    assert input[..|input|] == input;
    ScanDone(input, tokens, open, depth);
    tokens := tokens + [Trim(input[tokenStart..])];
  }
}
