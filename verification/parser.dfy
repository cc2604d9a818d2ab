/** `NodeParser`: turns a path expression such as `a,b(c,d)` into a tree of
    `Node`s under a synthetic `ROOT` node, then merges siblings that share a key. */
module NodeParser {
  import opened Wrappers
  import opened Text
  import opened Nodes
  import opened Splitter
  import opened NodeMerger

  /** The `IllegalArgumentException` thrown for a token that the node pattern rejects. */
  datatype ParseError = InvalidNodeFormat(token: string)

  /** What a successful match of the node pattern captures: group 1 (the key
      part) and group 3 (the text between the outer parentheses, `None` when
      the optional group did not take part in the match). */
  datatype PatternMatch = PatternMatch(group1: string, group3: Option<string>)

  /** The node pattern `^([a-zA-Z0-9_\s]*)(\(([a-zA-Z0-9,()_\s]*)\))?$`, matched
      against a whole token, accepts `t` with the captures `g`. */
  ghost predicate PatternAccepts(t: string, g: PatternMatch) {
    && AllKeyChars(g.group1)
    && match g.group3
       case None => t == g.group1
       case Some(m) => AllInnerChars(m) && t == g.group1 + "(" + m + ")"
  }

  /** Length of the longest prefix of `t` made of key characters. */
  function KeyPrefixLength(t: string): (i: nat)
    ensures i <= |t|
    ensures AllKeyChars(t[..i])
    ensures i < |t| ==> !IsKeyChar(t[i])
  {
    if |t| == 0 || !IsKeyChar(t[0]) then 0
    else
      var i := 1 + KeyPrefixLength(t[1..]);
      assert t[..i] == [t[0]] + t[1..][..i - 1];
      i
  }

  /** Whatever captures the pattern accepts `t` with, group 1 ends where the
      longest key-character prefix ends. */
  lemma PatternSplitsAtKeyPrefix(t: string, g: PatternMatch)
    requires PatternAccepts(t, g)
    ensures g.group3.None? ==> KeyPrefixLength(t) == |t|
    ensures g.group3.Some? ==> KeyPrefixLength(t) == |g.group1| && g.group1 == t[..|g.group1|]
  {
    var i := |g.group1|;
    if g.group3.Some? {
      assert t[i] == '(';
      assert t[..i] == g.group1;
    } else {
      assert t[..i] == t;
    }
    KeyPrefixLengthAt(t, i);
  }

  /** A key-character prefix of `t` that no key character follows is the longest one. */
  lemma {:induction false} KeyPrefixLengthAt(t: string, i: nat)
    requires i <= |t| && AllKeyChars(t[..i]) && (i < |t| ==> !IsKeyChar(t[i]))
    ensures KeyPrefixLength(t) == i
  {
    if i > 0 {
      assert IsKeyChar(t[..i][0]);
      assert t[1..][..i - 1] == t[..i][1..];
      KeyPrefixLengthAt(t[1..], i - 1);
    }
  }

  /** `Matcher.matches()` for the node pattern. No character of group 1 can be
      `(`, so group 1 is the longest key-character prefix and the match, when
      there is one, is unique. */
  function MatchNode(t: string): (r: Option<PatternMatch>)
    ensures r.Some? ==> PatternAccepts(t, r.value)
    ensures forall g :: PatternAccepts(t, g) ==> r == Some(g)
  {
    var i := KeyPrefixLength(t);
    forall g | PatternAccepts(t, g)
      ensures g == PatternCaptures(t)
    {
      PatternGroups(t, g);
    }
    if i == |t| then
      assert t[..i] == t;
      Some(PatternMatch(t, None))
    else if t[i] == '(' && i + 2 <= |t| && t[|t| - 1] == ')' && AllInnerChars(t[i + 1..|t| - 1]) then
      assert t == t[..i] + "(" + t[i + 1..|t| - 1] + ")";
      Some(PatternMatch(t[..i], Some(t[i + 1..|t| - 1])))
    else
      None
  }

  /** The only captures the pattern can accept `t` with: the longest key
      prefix, and the text between the parentheses when the prefix stops short. */
  function PatternCaptures(t: string): PatternMatch {
    var i := KeyPrefixLength(t);
    if i == |t| || |t| < i + 2 then PatternMatch(t[..i], None)
    else PatternMatch(t[..i], Some(t[i + 1..|t| - 1]))
  }

  lemma PatternGroups(t: string, g: PatternMatch)
    requires PatternAccepts(t, g)
    ensures g == PatternCaptures(t)
  {
    PatternSplitsAtKeyPrefix(t, g);
    if g.group3.Some? {
      assert t[KeyPrefixLength(t) + 1..|t| - 1] == g.group3.value;
    } else {
      assert t[..|t|] == t;
    }
  }

  /** Every key in a parsed tree is a trimmed string of key characters. */
  ghost predicate KeyWellFormed(k: string) {
    AllKeyChars(k) && (|k| > 0 ==> !IsTrimmable(k[0]) && !IsTrimmable(k[|k| - 1]))
  }

  /** The shape of every tree the parser produces: well-formed keys, and no
      empty child list anywhere (each list holds at least one token's node). */
  ghost predicate WellFormed(n: Node) {
    KeyWellFormed(n.key) && WellFormedSub(n.subNodes)
  }

  ghost predicate WellFormedSub(s: SubNodes) {
    match s
    case Absent => true
    case Present(cs) => |cs| > 0 && forall i :: 0 <= i < |cs| ==> WellFormed(cs[i])
  }

  /** Termination measure for the optional text of a node's children: a
      missing text is smaller than any text, the empty one included. */
  function Length(s: Option<string>): nat {
    if s.None? then 0 else |s.value| + 1
  }

  lemma TrimmedKeyWellFormed(key: string)
    requires AllKeyChars(key)
    ensures KeyWellFormed(Trim(key))
  {
    var r := Trim(key);
    TrimSpec(key);
    var a, b :| 0 <= a <= b <= |key| && r == key[a..b] && (|r| > 0 ==> !IsTrimmable(r[0]) && !IsTrimmable(r[|r| - 1]));
    assert forall i :: 0 <= i < |r| ==> r[i] == key[a + i];
  }

  /** `createNode`: the key trimmed, the sub-nodes parsed from the optional text. */
  function CreateNode(key: string, nodes: Option<string>): (r: Result<Node, ParseError>)
    ensures r.Success? ==> r.value.key == Trim(key)
    ensures r.Success? ==> (r.value.subNodes.Absent? <==> nodes.None?)
    ensures r.Success? ==> WellFormedSub(r.value.subNodes)
    ensures r.Failure? ==> nodes.Some? && MatchNode(r.error.token).None?
    decreases Length(nodes), 3, 0
  {
    var subs :- ParseNodes(nodes);
    Success(Node(Trim(key), subs))
  }

  /** `parseNode`: a token the pattern rejects fails with that token; otherwise
      group 1 is the key and group 3, when present, the children. */
  function ParseNode(t: string): (r: Result<Node, ParseError>)
    ensures MatchNode(t).None? ==> r == Failure(InvalidNodeFormat(t))
    ensures r.Success? ==> WellFormed(r.value)
    ensures r.Success? ==> (r.value.subNodes.Absent? <==> AllKeyChars(t))
    ensures AllKeyChars(t) ==> r == Success(Node(Trim(t), Absent))
    ensures r.Failure? ==> MatchNode(r.error.token).None?
    decreases |t| + 1, 0, 0
  {
    match MatchNode(t)
    case None => Failure(InvalidNodeFormat(t))
    case Some(g) =>
      assert Length(g.group3) < |t| + 1;
      assert g.group3.None? <==> AllKeyChars(t) by {
        if g.group3.Some? {
          assert t[|g.group1|] == '(';
        }
      }
      TrimmedKeyWellFormed(g.group1);
      CreateNode(g.group1, g.group3)
  }

  /** The key of a parsed token is group 1 of its match, trimmed. */
  lemma ParseNodeKey(t: string)
    ensures ParseNode(t).Success? ==> MatchNode(t).Some? && ParseNode(t).value.key == Trim(MatchNode(t).value.group1)
  {
  }

  /** White space around a key is insignificant: a key-only token padded with
      `\s` characters parses to the node of the bare key. */
  lemma PaddedKey(w1: string, k: string, w2: string)
    requires AllRegexSpace(w1) && AllRegexSpace(w2) && AllKeyChars(k)
    requires |k| > 0 ==> !IsTrimmable(k[0]) && !IsTrimmable(k[|k| - 1])
    ensures ParseNode(w1 + k + w2) == Success(Node(k, Absent))
  {
    PaddedKeyChars(w1, k, w2);
    TrimPadded(w1, k, w2);
  }

  /** White space around the key of a token with a parenthesised part is
      insignificant too: the token parses as the one with the bare key. */
  lemma PaddedKeyBeforeList(w1: string, k: string, w2: string, inner: string)
    requires AllRegexSpace(w1) && AllRegexSpace(w2) && AllKeyChars(k) && AllInnerChars(inner)
    requires |k| > 0 ==> !IsTrimmable(k[0]) && !IsTrimmable(k[|k| - 1])
    ensures ParseNode(w1 + k + w2 + "(" + inner + ")") == ParseNode(k + "(" + inner + ")")
    ensures ParseNode(k + "(" + inner + ")").Success? ==> ParseNode(k + "(" + inner + ")").value.key == k
  {
    var g := w1 + k + w2;
    PaddedKeyChars(w1, k, w2);
    ParseNodeWithList(g, inner);
    ParseNodeWithList(k, inner);
    TrimPadded(w1, k, w2);
    TrimKeeps(k);
  }

  lemma PaddedKeyChars(w1: string, k: string, w2: string)
    requires AllRegexSpace(w1) && AllRegexSpace(w2) && AllKeyChars(k)
    ensures AllKeyChars(w1 + k + w2) && AllTrimmable(w1) && AllTrimmable(w2)
  {
    var t := w1 + k + w2;
    forall i | 0 <= i < |t|
      ensures IsKeyChar(t[i])
    {
      if i < |w1| {
        assert t[i] == w1[i];
      } else if i < |w1| + |k| {
        assert t[i] == k[i - |w1|];
      } else {
        assert t[i] == w2[i - |w1| - |k|];
      }
    }
  }

  /** A key followed by a parenthesised part parses as `createNode` of the two. */
  lemma ParseNodeWithList(g: string, inner: string)
    requires AllKeyChars(g) && AllInnerChars(inner)
    ensures ParseNode(g + "(" + inner + ")") == CreateNode(g, Some(inner))
  {
    assert PatternAccepts(g + "(" + inner + ")", PatternMatch(g, Some(inner)));
  }

  /** The stream over the tokens: each token parsed in order, the first
      failure thrown out of the whole parse. */
  function ParseTokens(bound: nat, toks: seq<string>): (r: Result<seq<Node>, ParseError>)
    requires forall i :: 0 <= i < |toks| ==> |toks[i]| <= bound
    ensures r.Success? <==> forall i :: 0 <= i < |toks| ==> ParseNode(toks[i]).Success?
    ensures r.Success? ==> |r.value| == |toks|
    ensures r.Success? ==> forall i :: 0 <= i < |toks| ==> r.value[i] == ParseNode(toks[i]).value
    ensures r.Failure? ==> exists i :: 0 <= i < |toks| && ParseNode(toks[i]) == Failure(r.error)
                                   && forall j :: 0 <= j < i ==> ParseNode(toks[j]).Success?
    decreases bound + 1, 1, |toks|
  {
    if |toks| == 0 then Success([])
    else
      var n :- ParseNode(toks[0]);
      var rest :- ParseTokens(bound, toks[1..]);
      Success([n] + rest)
  }

  /** `parseNodes`: no text means no sub-nodes (`null`); otherwise one node per
      top-level token. */
  function ParseNodes(input: Option<string>): (r: Result<SubNodes, ParseError>)
    ensures input.None? ==> r == Success(Absent)
    ensures r.Success? && input.Some? ==>
      r.value.Present? && |r.value.nodes| == |Tokens(input.value)| == 1 + TopLevelCommaCount(input.value)
    ensures r.Success? ==> WellFormedSub(r.value)
    ensures r.Failure? ==> input.Some? && MatchNode(r.error.token).None?
    decreases Length(input), 2, 0
  {
    match input
    case None => Success(Absent)
    case Some(s) =>
      TokenCount(s);
      var ns :- ParseTokens(|s|, Tokens(s));
      Success(Present(ns))
  }

  /** `parse`: the expression's nodes under a `ROOT` node, merged. A missing
      expression gives a bare `ROOT`. */
  function Parse(input: Option<string>): (r: Result<Node, ParseError>)
    ensures input.None? ==> r == Success(Node("ROOT", Absent))
    ensures r.Success? ==> r.value.key == "ROOT" && IsMerged(r.value) && WellFormed(r.value)
    ensures r.Success? ==> (r.value.subNodes.Present? <==> input.Some?)
    ensures r.Failure? ==> input.Some? && MatchNode(r.error.token).None?
  {
    var parsed :- CreateNode("ROOT", input);
    TrimKeeps("ROOT");
    MergeKeepsWellFormed(parsed);
    Success(MergeNode(parsed))
  }

  // ---------------------------------------------------------------------------
  // Merging keeps the parsed shape

  ghost predicate EntriesWellFormed(es: seq<Entry>) {
    forall i :: 0 <= i < |es| ==> KeyWellFormed(es[i].0) && WellFormedSub(es[i].1)
  }

  lemma AbsorbWellFormed(es: seq<Entry>, n: Node)
    requires EntriesWellFormed(es) && WellFormed(n)
    ensures EntriesWellFormed(Absorb(es, n))
  {
    var i := FindEntry(es, n.key);
    if n.subNodes.Present? && i >= 0 && es[i].1.Present? {
      var l := es[i].1.nodes;
      var cs := n.subNodes.nodes;
      assert forall j :: 0 <= j < |l + cs| ==> (l + cs)[j] == if j < |l| then l[j] else cs[j - |l|];
    }
  }

  lemma {:induction false} CollectWellFormed(ns: seq<Node>)
    requires forall i :: 0 <= i < |ns| ==> WellFormed(ns[i])
    ensures EntriesWellFormed(Collect(ns))
    decreases |ns|
  {
    if |ns| > 0 {
      CollectWellFormed(ns[..|ns| - 1]);
      AbsorbWellFormed(Collect(ns[..|ns| - 1]), ns[|ns| - 1]);
    }
  }

  lemma {:induction false} EntrySizeElement(es: seq<Entry>, i: nat)
    requires i < |es|
    ensures SubSize(es[i].1) <= EntrySize(es)
    decreases i
  {
    if i > 0 {
      EntrySizeElement(es[1..], i - 1);
    }
  }

  lemma {:induction false} MergeSubKeepsWellFormed(s: SubNodes)
    requires WellFormedSub(s)
    ensures WellFormedSub(MergeSubNodes(s))
    decreases SubSize(s), 2
  {
    match s
    case Absent =>
    case Present(ns) => MergeListKeepsWellFormed(ns);
  }

  lemma {:induction false} MergeListKeepsWellFormed(ns: seq<Node>)
    requires forall i :: 0 <= i < |ns| ==> WellFormed(ns[i])
    ensures forall i :: 0 <= i < |MergeList(ns)| ==> WellFormed(MergeList(ns)[i])
    decreases ListSize(ns), 1
  {
    CollectWellFormed(ns);
    CollectSize(ns);
    EmitKeepsWellFormed(Collect(ns));
  }

  lemma {:induction false} EmitKeepsWellFormed(es: seq<Entry>)
    requires EntriesWellFormed(es)
    ensures forall i :: 0 <= i < |Emit(es)| ==> WellFormed(Emit(es)[i])
    decreases EntrySize(es) + |es|, 0
  {
    forall i | 0 <= i < |es|
      ensures WellFormed(Emit(es)[i])
    {
      EmitAt(es, i);
      EntrySizeElement(es, i);
      MergeSubKeepsWellFormed(es[i].1);
    }
  }

  /** The merge keeps every key and never empties a list, so a parsed tree
      keeps its shape. */
  lemma MergeKeepsWellFormed(n: Node)
    requires WellFormed(n)
    ensures WellFormed(MergeNode(n))
  {
    MergeSubKeepsWellFormed(n.subNodes);
  }
}
