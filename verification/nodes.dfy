/** The path tree (`Node.java`): a key plus either no stated sub-paths or an
    ordered, possibly empty, list of child nodes, and its rendering back to
    path syntax. Equality of nodes is Dafny's structural equality on
    `(key, subNodes)`, which is what `Node.equals` compares. */
module Nodes {
  import opened Wrappers
  import opened Text

  /** One parsed path segment. */
  datatype Node = Node(key: string, subNodes: SubNodes)

  /** Java's nullable `List<Node>`: `Absent` is `null` (a terminal path),
      `Present([])` is the empty list, which renders as `key()`. */
  datatype SubNodes = Absent | Present(nodes: seq<Node>)

  /** `Node.toString`: the bare key when there are no sub-nodes, otherwise the
      key followed by the comma-joined renderings of the children in parentheses. */
  function Render(n: Node): (r: string)
    ensures |n.key| <= |r| && r[..|n.key|] == n.key
    ensures n.subNodes.Absent? <==> |r| == |n.key|
    ensures n.subNodes.Present? ==> r[|n.key|] == '(' && r[|r| - 1] == ')'
  {
    match n.subNodes
    case Absent => n.key
    case Present(cs) => n.key + "(" + JoinComma(RenderAll(cs)) + ")"
  }

  /** The renderings of a list of nodes, one per node, in order. */
  function RenderAll(ns: seq<Node>): (r: seq<string>)
    ensures |r| == |ns|
    ensures forall i :: 0 <= i < |ns| ==> r[i] == Render(ns[i])
  {
    if |ns| == 0 then [] else [Render(ns[0])] + RenderAll(ns[1..])
  }

  /** The keys of a list of nodes, in order. */
  function KeysOf(ns: seq<Node>): (ks: seq<string>)
    ensures |ks| == |ns|
    ensures forall i :: 0 <= i < |ns| ==> ks[i] == ns[i].key
  {
    seq(|ns|, i requires 0 <= i < |ns| => ns[i].key)
  }

  /** The first node of the list with key `k`, if any. */
  function FindChild(ns: seq<Node>, k: string): (r: Option<Node>)
    ensures r.None? <==> k !in KeysOf(ns)
    ensures r.Some? ==> r.value.key == k && r.value in ns
  {
    if |ns| == 0 then None
    else
      assert KeysOf(ns) == [ns[0].key] + KeysOf(ns[1..]);
      if ns[0].key == k then Some(ns[0]) else FindChild(ns[1..], k)
  }

  lemma {:induction false} FindChildSnoc(ns: seq<Node>, x: Node, k: string)
    ensures FindChild(ns + [x], k) ==
      if k in KeysOf(ns) then FindChild(ns, k) else if x.key == k then Some(x) else None
  {
    if |ns| > 0 {
      assert (ns + [x])[1..] == ns[1..] + [x];
      assert KeysOf(ns) == [ns[0].key] + KeysOf(ns[1..]);
      FindChildSnoc(ns[1..], x, k);
    }
  }

  /** No two nodes of the list share a key. */
  predicate DistinctKeys(ns: seq<Node>) {
    forall i, j :: 0 <= i < j < |ns| ==> ns[i].key != ns[j].key
  }

  /** Number of nodes in a forest; the termination measure of the merger. */
  function ListSize(ns: seq<Node>): nat
  {
    if |ns| == 0 then 0 else 1 + SubSize(ns[0].subNodes) + ListSize(ns[1..])
  }

  function SubSize(s: SubNodes): nat
  {
    match s
    case Absent => 0
    case Present(cs) => ListSize(cs)
  }

  function NodeSize(n: Node): nat
  {
    1 + SubSize(n.subNodes)
  }

  lemma {:induction false} ListSizeAppend(a: seq<Node>, b: seq<Node>)
    ensures ListSize(a + b) == ListSize(a) + ListSize(b)
  {
    if |a| > 0 {
      assert (a + b)[1..] == a[1..] + b;
      ListSizeAppend(a[1..], b);
    } else {
      assert a + b == b;
    }
  }

  lemma {:induction false} ListSizeElement(ns: seq<Node>, i: nat)
    requires i < |ns|
    ensures NodeSize(ns[i]) <= ListSize(ns)
  {
    if i > 0 {
      ListSizeElement(ns[1..], i - 1);
    }
  }

  /** Every key in the tree is over `[a-zA-Z0-9_]`. */
  ghost predicate WordKeys(n: Node) {
    && AllWordChars(n.key)
    && match n.subNodes
       case Absent => true
       case Present(cs) => forall i :: 0 <= i < |cs| ==> WordKeys(cs[i])
  }

  /** The class `[a-zA-Z0-9,()_]` of the documented string representation. */
  predicate IsDocInnerChar(c: char) {
    IsWordChar(c) || c == ',' || c == '(' || c == ')'
  }

  /** The string representation documented on `Node`:
      `^([a-zA-Z0-9_]*)(\(([a-zA-Z0-9,()_]*)\))?$`. */
  ghost predicate MatchesDocumentedPattern(t: string) {
    || AllWordChars(t)
    || exists k, m ::
         && t == k + "(" + m + ")"
         && AllWordChars(k)
         && (forall i :: 0 <= i < |m| ==> IsDocInnerChar(m[i]))
  }

  lemma {:induction false} RenderDocChars(n: Node)
    requires WordKeys(n)
    ensures forall i :: 0 <= i < |Render(n)| ==> IsDocInnerChar(Render(n)[i])
  {
    match n.subNodes
    case Absent =>
    case Present(cs) =>
      var parts := RenderAll(cs);
      forall i | 0 <= i < |cs| {
        RenderDocChars(cs[i]);
      }
      var joined := JoinComma(parts);
      forall j | 0 <= j < |joined|
        ensures IsDocInnerChar(joined[j])
      {
        JoinCommaChars(parts, j);
      }
      var r := Render(n);
      assert r == n.key + "(" + joined + ")";
      forall j | 0 <= j < |r|
        ensures IsDocInnerChar(r[j])
      {
        if j < |n.key| {
          assert r[j] == n.key[j];
        } else if |n.key| < j < |r| - 1 {
          assert r[j] == joined[j - |n.key| - 1];
        }
      }
  }

  /** With keys over `[a-zA-Z0-9_]`, every rendering has the documented shape. */
  lemma RenderMatchesDocumentedPattern(n: Node)
    requires WordKeys(n)
    ensures MatchesDocumentedPattern(Render(n))
  {
    RenderDocChars(n);
    match n.subNodes
    case Absent =>
    case Present(cs) =>
      var m := JoinComma(RenderAll(cs));
      var r := Render(n);
      assert r == n.key + "(" + m + ")";
      forall i | 0 <= i < |m|
        ensures IsDocInnerChar(m[i])
      {
        assert m[i] == r[|n.key| + 1 + i];
      }
  }

  /** A node without sub-nodes and a node with an empty sub-node list are
      different nodes, and they render differently (`a` against `a()`). */
  lemma AbsentDiffersFromEmpty(k: string)
    ensures Node(k, Absent) != Node(k, Present([]))
    ensures Render(Node(k, Absent)) == k
    ensures Render(Node(k, Present([]))) == k + "()"
  {
  }
}
