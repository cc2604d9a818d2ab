/** Concrete cases pinned down by the repository's tests, stated over the model. */
module Examples {
  import opened Wrappers
  import opened Text
  import opened Nodes
  import opened Splitter
  import opened NodeParser
  import opened NodeMerger
  import opened Json
  import RoundTrip
  import InclusionFilter
  import ExclusionFilter

  /** A missing expression parses to a bare `ROOT`, rendered `ROOT`. */
  lemma ParseMissing()
    ensures Parse(None) == Success(Node("ROOT", Absent))
    ensures Render(Parse(None).value) == "ROOT"
  {
  }

  /** The empty expression is one empty token: `ROOT` gets a single child with
      the empty key and no sub-nodes, and renders as `ROOT()`. */
  lemma ParseEmpty()
    ensures Parse(Some("")) == Success(EmptyKeyOnly("ROOT"))
    ensures Render(Parse(Some("")).value) == "ROOT()"
  {
    ParseEmptyTree();
    RenderEmptyRoot();
  }

  lemma ParseEmptyTree()
    ensures Parse(Some("")) == Success(EmptyKeyOnly("ROOT"))
  {
    var e := Node("", Absent);
    assert WellFormed(e) && IsMerged(e);
    assert JoinComma(RenderAll([e])) == "" by {
      assert RenderAll([e]) == [""];
    }
    RoundTrip.ParseOfRendering([e]);
  }

  lemma RenderEmptyRoot()
    ensures Render(EmptyKeyOnly("ROOT")) == "ROOT()"
  {
    RenderOne("ROOT", Node("", Absent));
  }

  /** `k()` is not a node with an empty list: the empty token inside the
      parentheses becomes one child with the empty key. */
  lemma ParseEmptyParentheses()
    ensures ParseNode("k()") == Success(Node("k", Present([Node("", Absent)])))
  {
    LetterKeyWellFormed("k");
    KeyEmptyParentheses("k");
    assert "k" + "(" + ")" == "k()";
  }

  /** For any well-formed key `k`, the token `k()` parses to `k` with one
      empty-keyed child. */
  lemma KeyEmptyParentheses(k: string)
    requires KeyWellFormed(k)
    ensures ParseNode(k + "(" + ")") == Success(Node(k, Present([Node("", Absent)])))
  {
    ParseNodeWithList(k, "");
    assert k + "(" + "" == k + "(";
    EmptyListText();
    TrimKeeps(k);
    assert CreateNode(k, Some("")) == Success(Node(k, Present([Node("", Absent)])));
  }

  /** The empty list text holds one token, the empty one. */
  lemma EmptyListText()
    ensures ParseNodes(Some("")) == Success(Present([Node("", Absent)]))
  {
    assert ',' !in "";
    PiecesWithoutComma("");
    TrimKeeps("");
    assert Tokens("") == [""];
    assert ParseNode("") == Success(Node("", Absent)) by {
      assert AllKeyChars("");
      TrimKeeps("");
    }
    var r := ParseTokens(0, [""]);
    assert r.Success?;
    assert r.value[0] == Node("", Absent);
    assert r.value == [Node("", Absent)];
  }

  lemma UnbalancedIsOneToken()
    ensures Tokens("a(b") == ["a(b"]
  {
    var s := "a(b";
    assert ',' !in s;
    PiecesWithoutComma(s);
    TrimKeeps(s);
  }

  lemma UnbalancedTokenRejected()
    ensures ParseNode("a(b") == Failure(InvalidNodeFormat("a(b"))
  {
    assert KeyPrefixLength("a(b") == 1;
  }

  /** An unbalanced token is rejected, and the error names it. */
  lemma ParseUnbalanced()
    ensures Parse(Some("a(b")) == Failure(InvalidNodeFormat("a(b"))
  {
    UnbalancedIsOneToken();
    UnbalancedTokenRejected();
    assert ParseTokens(3, ["a(b"]) == Failure(InvalidNodeFormat("a(b"));
    assert ParseNodes(Some("a(b")) == Failure(InvalidNodeFormat("a(b"));
  }

  /** `a,b` parses to `ROOT(a,b)`. */
  lemma ParseTwoKeys()
    ensures Parse(Some("a,b")) == Success(Node("ROOT", Present([Node("a", Absent), Node("b", Absent)])))
  {
    var cs := [Node("a", Absent), Node("b", Absent)];
    assert KeyWellFormed("a") && KeyWellFormed("b");
    assert JoinComma(RenderAll(cs)) == "a,b" by {
      assert RenderAll(cs) == ["a", "b"];
      assert ["a", "b"][..1] == ["a"];
    }
    RoundTrip.ParseOfRendering(cs);
  }

  function Abc(): Json {
    JObject([("a", JNumber("1")), ("b", JNumber("2")), ("c", JNumber("3"))])
  }

  function AbNode(): Node {
    Node("ROOT", Present([Node("a", Absent), Node("b", Absent)]))
  }

  lemma PickAbcFirst()
    ensures InclusionFilter.Pick(Abc().members, AbNode(), 1) == [("a", JNumber("1"))]
  {
    var ms := Abc().members;
    assert Has(ms, "a") && Get(ms, "a") == JNumber("1");
    assert InclusionFilter.Pick(ms, AbNode(), 0) == [];
  }

  /** An object filtered by a node with a list is what the loop over the list picks. */
  lemma IncludeIsPick(ms: seq<Member>, node: Node)
    requires node.subNodes.Present?
    ensures InclusionFilter.Include(JObject(ms), node) ==
      JObject(InclusionFilter.Pick(ms, node, |node.subNodes.nodes|))
  {
  }

  lemma ReadAbcB()
    ensures Has(Abc().members, "b") && Get(Abc().members, "b") == JNumber("2")
  {
    assert Abc().members[1..][0].0 == "b";
  }

  lemma PutAfterA()
    ensures Put([("a", JNumber("1"))], "b", JNumber("2")) == [("a", JNumber("1")), ("b", JNumber("2"))]
  {
    var p1 := [("a", JNumber("1"))];
    assert !Has(p1, "b");
    assert p1 + [("b", JNumber("2"))] == [("a", JNumber("1")), ("b", JNumber("2"))];
  }

  lemma IncludeAbc()
    ensures InclusionFilter.Include(Abc(), AbNode()) == JObject([("a", JNumber("1")), ("b", JNumber("2"))])
  {
    var ms := Abc().members;
    var node := AbNode();
    IncludeIsPick(ms, node);
    PickAbcFirst();
    InclusionFilter.PickStep(ms, node, 2);
    ReadAbcB();
    assert InclusionFilter.Include(JNumber("2"), Node("b", Absent)) == JNumber("2");
    PutAfterA();
  }

  /** Including `a,b` from `{"a":1,"b":2,"c":3}` gives `{"a":1,"b":2}`. */
  lemma IncludeTwoKeys()
    ensures InclusionFilter.Apply(Abc(), Some("a,b")) == Success(JObject([("a", JNumber("1")), ("b", JNumber("2"))]))
  {
    ParseTwoKeys();
    IncludeAbc();
  }

  lemma ExcludeAbc()
    ensures ExclusionFilter.Exclude(Abc(), AbNode()) == JObject([("c", JNumber("3"))])
  {
    var ms := Abc().members;
    var node := AbNode();
    assert Has(ms, "a");
    var d1 := ExclusionFilter.Drop(ms, node, 1);
    assert d1 == Remove(ms, "a");
    assert d1 == ms[1..];
    assert Has(d1, "b");
    assert ExclusionFilter.Drop(ms, node, 2) == Remove(d1, "b");
    assert Remove(d1, "b") == d1[1..];
  }

  /** Excluding `a,b` from `{"a":1,"b":2,"c":3}` gives `{"c":3}`. */
  lemma ExcludeTwoKeys()
    ensures ExclusionFilter.Apply(Abc(), Some("a,b")) == Success(JObject([("c", JNumber("3"))]))
  {
    ParseTwoKeys();
    ExcludeAbc();
  }

  /** A node whose only child has the empty key: what `""` parses to under
      `ROOT`, and what `k()` parses to. */
  function EmptyKeyOnly(k: string): Node {
    Node(k, Present([Node("", Absent)]))
  }

  /** Including by a node whose only child has the empty key keeps no member
      of an object without the empty key. */
  lemma IncludeEmptyKeyOnly(ms: seq<Member>, k: string)
    requires !Has(ms, "")
    ensures InclusionFilter.Include(JObject(ms), EmptyKeyOnly(k)) == JObject([])
  {
    assert InclusionFilter.Pick(ms, EmptyKeyOnly(k), 1) == InclusionFilter.Pick(ms, EmptyKeyOnly(k), 0);
  }

  /** Excluding by a node whose only child has the empty key keeps an object
      without the empty key whole. */
  lemma ExcludeEmptyKeyOnly(ms: seq<Member>, k: string)
    requires !Has(ms, "")
    ensures ExclusionFilter.Exclude(JObject(ms), EmptyKeyOnly(k)) == JObject(ms)
  {
    assert ExclusionFilter.Drop(ms, EmptyKeyOnly(k), 1) ==
      ExclusionFilter.Step(ExclusionFilter.Drop(ms, EmptyKeyOnly(k), 0), Node("", Absent));
  }

  /** Including with `""` from any object without an empty key gives `{}`. */
  lemma IncludeEmptyExpression(ms: seq<Member>)
    requires !Has(ms, "")
    ensures InclusionFilter.Apply(JObject(ms), Some("")) == Success(JObject([]))
  {
    ParseEmpty();
    IncludeEmptyKeyOnly(ms, "ROOT");
  }

  /** Excluding with `""` leaves any object without an empty key unchanged. */
  lemma ExcludeEmptyExpression(ms: seq<Member>)
    requires !Has(ms, "")
    ensures ExclusionFilter.Apply(JObject(ms), Some("")) == Success(JObject(ms))
  {
    ParseEmpty();
    ExcludeEmptyKeyOnly(ms, "ROOT");
  }

  /** `prop()` parses to `ROOT` over `prop` with one empty-key child. */
  lemma ParsePropParentheses()
    ensures Parse(Some("prop()")) == Success(PropRoot())
  {
    var p := EmptyKeyOnly("prop");
    assert WellFormed(p) && IsMerged(p) by {
      assert AllKeyChars("prop");
      assert KeyWellFormed("prop");
      assert WellFormed(Node("", Absent));
    }
    assert JoinComma(RenderAll([p])) == "prop()" by {
      assert RenderAll([p]) == [Render(p)];
      RenderOne("prop", Node("", Absent));
    }
    RoundTrip.ParseOfRendering([p]);
  }

  function PropRoot(): Node {
    Node("ROOT", Present([EmptyKeyOnly("prop")]))
  }

  lemma IncludePropRoot(ms: seq<Member>)
    requires !Has(ms, "")
    ensures InclusionFilter.Include(JObject([("prop", JObject(ms))]), PropRoot()) == JObject([("prop", JObject([]))])
  {
    var src := [("prop", JObject(ms))];
    IncludeEmptyKeyOnly(ms, "prop");
    assert InclusionFilter.Pick(src, PropRoot(), 0) == [];
    InclusionFilter.PickStep(src, PropRoot(), 1);
  }

  lemma ExcludePropRoot(ms: seq<Member>)
    requires !Has(ms, "")
    ensures ExclusionFilter.Exclude(JObject([("prop", JObject(ms))]), PropRoot()) == JObject([("prop", JObject(ms))])
  {
    var src := [("prop", JObject(ms))];
    ExcludeEmptyKeyOnly(ms, "prop");
    assert ExclusionFilter.Drop(src, PropRoot(), 1) == ExclusionFilter.Step(src, EmptyKeyOnly("prop"));
  }

  /** Including with `prop()` keeps `prop` but none of its members, whatever
      they are, as long as none has the empty key. */
  lemma IncludePropParentheses(ms: seq<Member>)
    requires !Has(ms, "")
    ensures InclusionFilter.Apply(JObject([("prop", JObject(ms))]), Some("prop()")) ==
      Success(JObject([("prop", JObject([]))]))
  {
    ParsePropParentheses();
    IncludePropRoot(ms);
  }

  /** Excluding with `prop()` removes nothing from `prop`, whatever its
      members are, as long as none has the empty key. */
  lemma ExcludePropParentheses(ms: seq<Member>)
    requires !Has(ms, "")
    ensures ExclusionFilter.Apply(JObject([("prop", JObject(ms))]), Some("prop()")) ==
      Success(JObject([("prop", JObject(ms))]))
  {
    ParsePropParentheses();
    ExcludePropRoot(ms);
  }

  /** Excluding with a missing expression removes the whole value. */
  lemma ExcludeMissingExpression(source: Json)
    ensures ExclusionFilter.Apply(source, None) == Success(JNull)
  {
  }

  function Leaf(k: string): Node {
    Node(k, Absent)
  }

  /** The tree `a(b(c),b(d))` as written, before merging. */
  function Unmerged(): Node {
    Node("a", Present([Node("b", Present([Leaf("c")])), Node("b", Present([Leaf("d")]))]))
  }

  /** How a node with one child renders. */
  lemma RenderOne(k: string, x: Node)
    ensures Render(Node(k, Present([x]))) == k + "(" + Render(x) + ")"
  {
    assert RenderAll([x]) == [Render(x)];
  }

  /** How a node with two children renders. */
  lemma RenderTwo(k: string, x: Node, y: Node)
    ensures Render(Node(k, Present([x, y]))) == k + "(" + Render(x) + "," + Render(y) + ")"
  {
    var rs := [Render(x), Render(y)];
    assert RenderAll([x, y]) == rs;
    assert rs[..1] == [Render(x)];
    assert JoinComma(rs) == Render(x) + "," + Render(y);
  }

  /** A node with single-letter children is parser-shaped. */
  lemma LetterParentWellFormed(k: string, c: string)
    requires |k| == 1 && IsWordChar(k[0]) && |c| == 1 && IsWordChar(c[0])
    ensures WellFormed(Node(k, Present([Leaf(c)])))
  {
    LetterKeyWellFormed(k);
    LetterKeyWellFormed(c);
    assert WellFormed(Leaf(c));
  }

  lemma LetterKeyWellFormed(k: string)
    requires |k| == 1 && IsWordChar(k[0])
    ensures KeyWellFormed(k)
  {
    assert AllKeyChars(k);
  }

  lemma UnmergedWellFormed()
    ensures WellFormed(Unmerged())
  {
    LetterParentWellFormed("b", "c");
    LetterParentWellFormed("b", "d");
    assert KeyWellFormed("a");
  }

  lemma UnmergedRendering()
    ensures Render(Unmerged()) == "a(b(c),b(d))"
  {
    var bc := Node("b", Present([Leaf("c")]));
    var bd := Node("b", Present([Leaf("d")]));
    RenderOne("b", Leaf("c"));
    RenderOne("b", Leaf("d"));
    RenderTwo("a", bc, bd);
    assert "a" + "(" + "b(c)" + "," + "b(d)" + ")" == "a(b(c),b(d))";
  }

  lemma MergeSiblingsBC()
    ensures MergeList([Node("b", Present([Leaf("c")])), Node("b", Present([Leaf("d")]))])
      == [Node("b", Present([Leaf("c"), Leaf("d")]))]
  {
    var ns := [Node("b", Present([Leaf("c")])), Node("b", Present([Leaf("d")]))];
    assert ns[..1] == [ns[0]];
    assert Collect(ns[..1]) == [("b", Present([Leaf("c")]))] by {
      assert Collect([]) == [];
    }
    var acc := [("b", Present([Leaf("c")]))];
    assert FindEntry(acc, "b") == 0;
    assert [Leaf("c")] + [Leaf("d")] == [Leaf("c"), Leaf("d")];
    assert Absorb(acc, ns[1]) == [("b", Present([Leaf("c"), Leaf("d")]))];
    assert Collect(ns) == [("b", Present([Leaf("c"), Leaf("d")]))];
    assert DistinctKeys([Leaf("c"), Leaf("d")]);
    MergeListKeepsMerged([Leaf("c"), Leaf("d")]);
    EmitAt(Collect(ns), 0);
  }

  function MergedTree(): Node {
    Node("ROOT", Present([Node("a", Present([Node("b", Present([Leaf("c"), Leaf("d")]))]))]))
  }

  lemma MergedTreeRendering()
    ensures Render(MergedTree()) == "ROOT(a(b(c,d)))"
  {
    var bcd := Node("b", Present([Leaf("c"), Leaf("d")]));
    var merged := Node("a", Present([bcd]));
    RenderTwo("b", Leaf("c"), Leaf("d"));
    assert Render(bcd) == "b(c,d)";
    RenderOne("a", bcd);
    assert Render(merged) == "a(b(c,d))";
    RenderOne("ROOT", merged);
  }

  lemma MergeUnmerged()
    ensures MergeList([Unmerged()]) == [Node("a", Present([Node("b", Present([Leaf("c"), Leaf("d")]))]))]
  {
    var n := Unmerged();
    MergeSiblingsBC();
    assert [n][..0] == [];
    assert Collect([n]) == [("a", n.subNodes)];
    EmitAt(Collect([n]), 0);
  }

  /** Siblings that share a key are folded together: `a(b(c),b(d))` parses
      to `ROOT(a(b(c,d)))`. */
  lemma ParseMergesSiblings()
    ensures Parse(Some("a(b(c),b(d))")) == Success(MergedTree())
    ensures Render(MergedTree()) == "ROOT(a(b(c,d)))"
  {
    var n := Unmerged();
    UnmergedWellFormed();
    UnmergedRendering();
    RoundTrip.ParseRenderedList([n]);
    assert JoinComma(RenderAll([n])) == "a(b(c),b(d))";
    TrimKeeps("ROOT");
    assert CreateNode("ROOT", Some("a(b(c),b(d))")) == Success(Node("ROOT", Present([n])));
    MergeUnmerged();
    MergedTreeRendering();
  }
}
