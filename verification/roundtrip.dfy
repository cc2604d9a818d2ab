/** Rendering and parsing agree: the rendering of any tree of the shape the
    parser produces parses back to that very tree, so parsing, rendering and
    parsing again gives the tree the first parse gave. */
module RoundTrip {
  import opened Wrappers
  import opened Text
  import opened Nodes
  import opened Splitter
  import opened NodeParser
  import opened NodeMerger

  /** Parentheses in `s` are balanced: no prefix closes more than it opened,
      and the whole string closes all it opens. */
  ghost predicate Balanced(s: string) {
    Depth(s) == 0 && forall j :: 0 <= j <= |s| ==> Depth(s[..j]) >= 0
  }

  lemma {:induction false} KeyDepth(k: string)
    requires AllKeyChars(k)
    ensures Depth(k) == 0
    decreases |k|
  {
    if |k| > 0 {
      KeyDepth(k[..|k| - 1]);
    }
  }

  /** Joining balanced pieces with commas gives a balanced string. */
  lemma {:induction false} JoinBalanced(ps: seq<string>)
    requires forall i :: 0 <= i < |ps| ==> Balanced(ps[i])
    ensures Balanced(JoinComma(ps))
    decreases |ps|
  {
    if |ps| > 1 {
      var a := JoinComma(ps[..|ps| - 1]);
      var b := ps[|ps| - 1];
      JoinBalanced(ps[..|ps| - 1]);
      var s := JoinComma(ps);
      assert s == (a + ",") + b;
      DepthAppend(a, ",");
      DepthAppend(a + ",", b);
      forall j | 0 <= j <= |s|
        ensures Depth(s[..j]) >= 0
      {
        CommaJoinPrefix(a, b, j);
      }
    }
  }

  lemma CommaJoinPrefix(a: string, b: string, j: nat)
    requires Balanced(a) && Balanced(b) && j <= |a| + 1 + |b|
    ensures Depth(((a + ",") + b)[..j]) >= 0
  {
    var s := (a + ",") + b;
    if j <= |a| {
      assert s[..j] == a[..j];
    } else {
      assert s[..j] == (a + ",") + b[..j - |a| - 1];
      DepthAppend(a, ",");
      DepthAppend(a + ",", b[..j - |a| - 1]);
    }
  }

  lemma DepthChar(c: char)
    ensures Depth([c]) == Step(c)
  {
    assert [c][..0] == [];
  }

  /** `key(inner)` closes every parenthesis it opens. */
  lemma WrappedTotal(key: string, inner: string)
    requires AllKeyChars(key) && Balanced(inner)
    ensures Depth(key + "(" + inner + ")") == 0
  {
    KeyDepth(key);
    DepthChar('(');
    DepthChar(')');
    DepthAppend(key, "(");
    DepthAppend(key + "(", inner);
    DepthAppend(key + "(" + inner, ")");
  }

  /** Through the key of `key(inner)` the depth stays zero. */
  lemma WrappedKeyPrefix(key: string, inner: string, j: nat)
    requires AllKeyChars(key) && j <= |key|
    ensures Depth((key + "(" + inner + ")")[..j]) == 0
  {
    assert (key + "(" + inner + ")")[..j] == key[..j];
    KeyDepth(key[..j]);
  }

  /** Inside the parentheses of `key(inner)` the depth is at least one. */
  lemma WrappedInside(key: string, inner: string, j: nat)
    requires AllKeyChars(key) && Balanced(inner)
    requires |key| < j < |key| + |inner| + 2
    ensures Depth((key + "(" + inner + ")")[..j]) >= 1
  {
    var t := j - |key| - 1;
    assert (key + "(" + inner + ")")[..j] == (key + "(") + inner[..t];
    KeyDepth(key);
    DepthChar('(');
    DepthAppend(key, "(");
    DepthAppend(key + "(", inner[..t]);
  }

  /** Depths along `key(inner)`: zero through the key, at least one inside the
      parentheses, zero at the end. */
  lemma WrappedDepth(key: string, inner: string, j: nat)
    requires AllKeyChars(key) && Balanced(inner)
    requires j <= |key| + |inner| + 2
    ensures j <= |key| ==> Depth((key + "(" + inner + ")")[..j]) == 0
    ensures |key| < j < |key| + |inner| + 2 ==> Depth((key + "(" + inner + ")")[..j]) >= 1
    ensures j == |key| + |inner| + 2 ==> Depth((key + "(" + inner + ")")[..j]) == 0
  {
    var r := key + "(" + inner + ")";
    if j <= |key| {
      WrappedKeyPrefix(key, inner, j);
    } else if j < |key| + |inner| + 2 {
      WrappedInside(key, inner, j);
    } else {
      assert r[..j] == r;
      WrappedTotal(key, inner);
    }
  }

  /** What makes a rendering split and parse back: balanced, no comma at depth
      zero, only characters the node pattern allows, and nothing `trim` would
      remove at either end. */
  ghost predicate Splittable(r: string) {
    && Balanced(r)
    && NoTopLevelComma(r)
    && AllInnerChars(r)
    && (|r| > 0 ==> !IsTrimmable(r[0]) && !IsTrimmable(r[|r| - 1]))
  }

  lemma {:induction false} JoinInnerChars(ps: seq<string>)
    requires forall i :: 0 <= i < |ps| ==> AllInnerChars(ps[i])
    ensures AllInnerChars(JoinComma(ps))
  {
    var s := JoinComma(ps);
    forall j | 0 <= j < |s|
      ensures IsInnerChar(s[j])
    {
      JoinCommaChars(ps, j);
    }
  }

  lemma KeySplittable(key: string)
    requires KeyWellFormed(key)
    ensures Splittable(key)
  {
    KeyDepth(key);
    forall j | 0 <= j <= |key|
      ensures Depth(key[..j]) == 0
    {
      KeyDepth(key[..j]);
    }
    NoTopLevelCommaAt(key);
  }

  lemma WrappedBalanced(key: string, inner: string)
    requires KeyWellFormed(key) && Balanced(inner)
    ensures Balanced(key + "(" + inner + ")")
  {
    var r := key + "(" + inner + ")";
    forall j | 0 <= j <= |r|
      ensures Depth(r[..j]) >= 0
    {
      WrappedDepth(key, inner, j);
    }
    WrappedTotal(key, inner);
  }

  lemma WrappedNoTopLevelComma(key: string, inner: string)
    requires KeyWellFormed(key) && Balanced(inner)
    ensures NoTopLevelComma(key + "(" + inner + ")")
  {
    var r := key + "(" + inner + ")";
    forall j | 0 <= j < |r| && r[j] == ','
      ensures Depth(r[..j]) != 0
    {
      WrappedDepth(key, inner, j);
    }
    NoTopLevelCommaAt(r);
  }

  lemma WrappedInnerChars(key: string, inner: string)
    requires KeyWellFormed(key) && AllInnerChars(inner)
    ensures AllInnerChars(key + "(" + inner + ")")
  {
    var r := key + "(" + inner + ")";
    forall j | 0 <= j < |r|
      ensures IsInnerChar(r[j])
    {
      if j < |key| {
        assert r[j] == key[j];
      } else if |key| < j < |r| - 1 {
        assert r[j] == inner[j - |key| - 1];
      }
    }
  }

  lemma WrappedSplittable(key: string, inner: string)
    requires KeyWellFormed(key) && Balanced(inner) && AllInnerChars(inner)
    ensures Splittable(key + "(" + inner + ")")
  {
    var r := key + "(" + inner + ")";
    WrappedBalanced(key, inner);
    WrappedNoTopLevelComma(key, inner);
    WrappedInnerChars(key, inner);
    if |key| > 0 {
      assert r[0] == key[0];
    }
  }

  /** The rendering of a parser-shaped node is splittable. */
  lemma {:induction false} RenderSplittable(n: Node)
    requires WellFormed(n)
    ensures Splittable(Render(n))
    decreases n
  {
    match n.subNodes
    case Absent =>
      KeySplittable(n.key);
    case Present(cs) =>
      var parts := RenderAll(cs);
      forall i | 0 <= i < |cs|
        ensures Splittable(parts[i])
      {
        RenderSplittable(cs[i]);
      }
      JoinBalanced(parts);
      JoinInnerChars(parts);
      WrappedSplittable(n.key, JoinComma(parts));
  }

  /** Splittable pieces joined with commas are cut back at exactly those commas. */
  lemma SplittableJoinSplits(parts: seq<string>)
    requires |parts| > 0 && forall i :: 0 <= i < |parts| ==> Splittable(parts[i])
    ensures Pieces(JoinComma(parts)) == parts
  {
    assert IsTopLevelSplit(JoinComma(parts), parts);
    TopLevelSplitUnique(JoinComma(parts), parts);
  }

  /** Splittable pieces survive the trimming of the tokens. */
  lemma SplittableJoinTokens(parts: seq<string>)
    requires |parts| > 0 && forall i :: 0 <= i < |parts| ==> Splittable(parts[i])
    ensures Tokens(JoinComma(parts)) == parts
  {
    SplittableJoinSplits(parts);
    var t := Tokens(JoinComma(parts));
    forall i | 0 <= i < |parts|
      ensures t[i] == parts[i]
    {
      TrimKeeps(parts[i]);
    }
  }

  /** The comma-joined renderings of parser-shaped siblings split back into
      exactly those renderings. */
  lemma RenderedTokens(cs: seq<Node>)
    requires |cs| > 0 && forall i :: 0 <= i < |cs| ==> WellFormed(cs[i])
    ensures Tokens(JoinComma(RenderAll(cs))) == RenderAll(cs)
  {
    var parts := RenderAll(cs);
    forall i | 0 <= i < |cs|
      ensures Splittable(parts[i])
    {
      RenderSplittable(cs[i]);
    }
    SplittableJoinTokens(parts);
  }

  /** A parser-shaped node renders to a token that parses back to it. */
  lemma {:induction false} ParseRender(n: Node)
    requires WellFormed(n)
    ensures ParseNode(Render(n)) == Success(n)
    decreases n, 1
  {
    TrimKeeps(n.key);
    match n.subNodes
    case Absent =>
      assert PatternAccepts(n.key, PatternMatch(n.key, None));
    case Present(cs) =>
      RenderedNodeMatches(n);
      ParseRenderedList(cs);
  }

  /** The rendering of a node with a list matches the node pattern with the
      key as group 1 and the joined children as group 3. */
  lemma RenderedNodeMatches(n: Node)
    requires WellFormed(n) && n.subNodes.Present?
    ensures PatternAccepts(Render(n), PatternMatch(n.key, Some(JoinComma(RenderAll(n.subNodes.nodes)))))
  {
    var inner := JoinComma(RenderAll(n.subNodes.nodes));
    var r := Render(n);
    assert r == n.key + "(" + inner + ")";
    RenderSplittable(n);
    forall i | 0 <= i < |inner|
      ensures IsInnerChar(inner[i])
    {
      assert inner[i] == r[|n.key| + 1 + i];
    }
  }

  /** The comma-joined renderings of parser-shaped siblings parse back to them. */
  lemma {:induction false} ParseRenderedList(cs: seq<Node>)
    requires |cs| > 0 && forall i :: 0 <= i < |cs| ==> WellFormed(cs[i])
    ensures ParseNodes(Some(JoinComma(RenderAll(cs)))) == Success(Present(cs))
    decreases cs, 0
  {
    var s := JoinComma(RenderAll(cs));
    RenderedTokens(cs);
    forall i | 0 <= i < |cs|
      ensures ParseNode(RenderAll(cs)[i]) == Success(cs[i])
    {
      ParseRender(cs[i]);
    }
    ParseTokensAll(|s|, RenderAll(cs), cs);
  }

  /** When every token parses, the stream yields exactly those nodes. */
  lemma ParseTokensAll(bound: nat, toks: seq<string>, ns: seq<Node>)
    requires forall i :: 0 <= i < |toks| ==> |toks[i]| <= bound
    requires |toks| == |ns| && forall i :: 0 <= i < |toks| ==> ParseNode(toks[i]) == Success(ns[i])
    ensures ParseTokens(bound, toks) == Success(ns)
  {
    var r := ParseTokens(bound, toks);
    assert r.Success?;
    assert forall i :: 0 <= i < |ns| ==> r.value[i] == ns[i];
    assert r.value == ns;
    assert r == Success(r.value);
  }

  /** Rendering the children of a parse result and parsing that text again
      gives the same result: the parser's output is a normal form. */
  lemma ReparseRendering(s: string)
    requires Parse(Some(s)).Success?
    ensures Parse(Some(s)).value.subNodes.Present?
    ensures Parse(Some(JoinComma(RenderAll(Parse(Some(s)).value.subNodes.nodes)))) == Parse(Some(s))
  {
    var root := Parse(Some(s)).value;
    var cs := root.subNodes.nodes;
    assert WellFormedSub(root.subNodes) && MergedSub(root.subNodes);
    ParseRenderedList(cs);
    TrimKeeps("ROOT");
    MergeNodeKeepsMerged(Node("ROOT", Present(cs)));
  }

  /** For merged, parser-shaped siblings, the expression their renderings
      join to parses to exactly those siblings under `ROOT`. */
  lemma ParseOfRendering(cs: seq<Node>)
    requires |cs| > 0 && DistinctKeys(cs)
    requires forall i :: 0 <= i < |cs| ==> WellFormed(cs[i]) && IsMerged(cs[i])
    ensures Parse(Some(JoinComma(RenderAll(cs)))) == Success(Node("ROOT", Present(cs)))
  {
    ParseRenderedList(cs);
    TrimKeeps("ROOT");
    MergeNodeKeepsMerged(Node("ROOT", Present(cs)));
  }
}
