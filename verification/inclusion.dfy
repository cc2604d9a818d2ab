/** `InclusionFilter`: keeps only the parts of a JSON value that the path
    expression names. */
module InclusionFilter {
  import opened Wrappers
  import opened Nodes
  import opened Json
  import opened NodeParser
  import opened NodeMerger

  /** The public `apply`: parse the expression (which may be missing), then
      filter. A malformed expression makes the whole call fail. */
  function Apply(source: Json, nodes: Option<string>): (r: Result<Json, ParseError>)
    ensures r.Failure? <==> Parse(nodes).Failure?
    ensures r.Failure? ==> r.error == Parse(nodes).error
    ensures nodes.None? ==> r == Success(source)
    ensures r.Success? && WellFormedJson(source) ==> WellFormedJson(r.value)
    ensures r.Success? ==> r.value == Include(source, Parse(nodes).value)
  {
    match Parse(nodes)
    case Failure(e) => Failure(e)
    case Success(root) =>
      assert nodes.None? ==> Include(source, root) == source by {
        if nodes.None? {
          TerminalKeepsEverything(source, root);
        }
      }
      assert WellFormedJson(source) ==> WellFormedJson(Include(source, root)) by {
        if WellFormedJson(source) {
          IncludeKeepsWellFormed(source, root);
        }
      }
      Success(Include(source, root))
  }

  /** The private `apply(JsonElement, Node)`. JSON null stays null, primitives
      are copied, a node without sub-nodes copies an object whole, arrays are
      filtered element by element with the same node, and an object is
      rebuilt from the sub-nodes it names. */
  function Include(source: Json, node: Node): (r: Json)
    ensures source.JNull? ==> r == JNull
    ensures source.IsPrimitive() ==> r == source
    ensures source.JObject? && node.subNodes.Absent? ==> r == source
    ensures source.JArray? ==> r.JArray? && |r.elems| == |source.elems|
    ensures source.JArray? ==> forall i :: 0 <= i < |r.elems| ==> r.elems[i] == Include(source.elems[i], node)
    ensures source.JObject? && node.subNodes.Present? ==> r.JObject? && DistinctMemberKeys(r.members)
    ensures source.JObject? && node.subNodes.Present? ==> forall k ::
      Has(r.members, k) <==> Has(source.members, k) && k in KeysOf(node.subNodes.nodes)
    decreases node, 1, source
  {
    match source
    case JNull => JNull
    case JObject(ms) =>
      if node.subNodes.Absent? then source
      else
        assert node.subNodes.nodes[..|node.subNodes.nodes|] == node.subNodes.nodes;
        JObject(Pick(ms, node, |node.subNodes.nodes|))
    case JArray(es) => JArray(seq(|es|, i requires 0 <= i < |es| => Include(es[i], node)))
    case _ => source
  }

  /** `filterJsonObject` after the loop has seen the first `n` sub-nodes: each
      sub-node whose key the source has adds (or, for a repeated key, replaces)
      that key with the source value filtered by the sub-node. */
  function Pick(ms: seq<Member>, node: Node, n: nat): (r: seq<Member>)
    requires node.subNodes.Present? && n <= |node.subNodes.nodes|
    ensures DistinctMemberKeys(r)
    ensures forall k :: Has(r, k) <==> Has(ms, k) && k in KeysOf(node.subNodes.nodes[..n])
    decreases node, 0, n
  {
    if n == 0 then []
    else
      var subs := node.subNodes.nodes;
      var acc := Pick(ms, node, n - 1);
      var sub := subs[n - 1];
      assert KeysOf(subs[..n]) == KeysOf(subs[..n - 1]) + [sub.key];
      if Has(ms, sub.key) then
        PutKeepsDistinct(acc, sub.key, Include(Get(ms, sub.key), sub));
        forall k | k != sub.key
          ensures Has(Put(acc, sub.key, Include(Get(ms, sub.key), sub)), k) <==> Has(acc, k)
        {
          GetPutOther(acc, sub.key, Include(Get(ms, sub.key), sub), k);
        }
        Put(acc, sub.key, Include(Get(ms, sub.key), sub))
      else acc
  }

  // ---------------------------------------------------------------------------
  // Reference description of an object's inclusion

  /** The members an object keeps, described child by child: every sub-node
      whose key the source has contributes one member, in sub-node order. */
  function Selected(ms: seq<Member>, subs: seq<Node>): seq<Member> {
    if |subs| == 0 then []
    else
      var sub := subs[|subs| - 1];
      Selected(ms, subs[..|subs| - 1])
        + (if Has(ms, sub.key) then [(sub.key, Include(Get(ms, sub.key), sub))] else [])
  }

  /** With distinct sub-node keys (as after the merge), no sub-node overwrites
      another, so the loop builds exactly the reference description. */
  lemma {:induction false} PickIsSelected(ms: seq<Member>, node: Node, n: nat)
    requires node.subNodes.Present? && n <= |node.subNodes.nodes|
    requires DistinctKeys(node.subNodes.nodes)
    ensures Pick(ms, node, n) == Selected(ms, node.subNodes.nodes[..n])
    decreases n
  {
    if n > 0 {
      var subs := node.subNodes.nodes;
      PickIsSelected(ms, node, n - 1);
      assert subs[..n][..n - 1] == subs[..n - 1];
      var sub := subs[n - 1];
      if Has(ms, sub.key) {
        assert sub.key !in KeysOf(subs[..n - 1]);
      }
    }
  }

  /** The keys `ks` that the object has, in order. */
  function KeysIn(ks: seq<string>, ms: seq<Member>): (r: seq<string>)
    ensures forall k :: k in r <==> k in ks && Has(ms, k)
  {
    if |ks| == 0 then []
    else
      var front := KeysIn(ks[..|ks| - 1], ms);
      Snoc(ks);
      front + (if Has(ms, ks[|ks| - 1]) then [ks[|ks| - 1]] else [])
  }

  /** Member `m` is what the reference description makes of key `m.0`: the
      source has the key, a sub-node names it, and the value is the source
      value filtered by that sub-node. */
  predicate KeptFrom(ms: seq<Member>, subs: seq<Node>, m: Member) {
    && Has(ms, m.0)
    && FindChild(subs, m.0).Some?
    && m.1 == Include(Get(ms, m.0), FindChild(subs, m.0).value)
  }

  /** A sub-node with a new key does not change what earlier members were made from. */
  lemma KeptFromSnoc(ms: seq<Member>, front: seq<Node>, last: Node, m: Member)
    requires last.key !in KeysOf(front)
    requires KeptFrom(ms, front, m)
    ensures KeptFrom(ms, front + [last], m)
  {
    FindChildSnoc(front, last, m.0);
  }

  /** The member a sub-node with a new key contributes. */
  lemma KeptFromLast(ms: seq<Member>, front: seq<Node>, last: Node)
    requires last.key !in KeysOf(front) && Has(ms, last.key)
    ensures KeptFrom(ms, front + [last], (last.key, Include(Get(ms, last.key), last)))
  {
    FindChildSnoc(front, last, last.key);
  }

  /** One more sub-node extends the reference description by at most its own member. */
  lemma SelectedSnoc(ms: seq<Member>, subs: seq<Node>)
    requires |subs| > 0
    ensures Selected(ms, subs) == Selected(ms, subs[..|subs| - 1]) +
      (if Has(ms, subs[|subs| - 1].key) then [(subs[|subs| - 1].key, Include(Get(ms, subs[|subs| - 1].key), subs[|subs| - 1]))] else [])
  {
  }

  /** The reference description keeps exactly the sub-node keys the source has, in sub-node order. */
  lemma {:induction false} SelectedKeys(ms: seq<Member>, subs: seq<Node>)
    ensures MemberKeys(Selected(ms, subs)) == KeysIn(KeysOf(subs), ms)
    decreases |subs|
  {
    if |subs| > 0 {
      var front := subs[..|subs| - 1];
      var last := subs[|subs| - 1];
      SelectedKeys(ms, front);
      assert KeysOf(subs)[..|subs| - 1] == KeysOf(front);
      SelectedSnoc(ms, subs);
      var tail := if Has(ms, last.key) then [(last.key, Include(Get(ms, last.key), last))] else [];
      MemberKeysAppend(Selected(ms, front), tail);
    }
  }

  /** Each member of the reference description is its key's source value
      filtered by the sub-node of that key. */
  lemma {:induction false} SelectedValues(ms: seq<Member>, subs: seq<Node>)
    requires DistinctKeys(subs)
    ensures forall i :: 0 <= i < |Selected(ms, subs)| ==> KeptFrom(ms, subs, Selected(ms, subs)[i])
    decreases |subs|
  {
    if |subs| > 0 {
      var front := subs[..|subs| - 1];
      var last := subs[|subs| - 1];
      assert subs == front + [last];
      SelectedValues(ms, front);
      assert last.key !in KeysOf(front) by {
        assert forall j :: 0 <= j < |front| ==> front[j] == subs[j];
      }
      SelectedSnoc(ms, subs);
      var rf := Selected(ms, front);
      forall i | 0 <= i < |Selected(ms, subs)|
        ensures KeptFrom(ms, subs, Selected(ms, subs)[i])
      {
        if i < |rf| {
          KeptFromSnoc(ms, front, last, rf[i]);
        } else {
          KeptFromLast(ms, front, last);
        }
      }
    }
  }

  /** Both halves of the reference description, for a merged sub-node list. */
  lemma SelectedMembers(ms: seq<Member>, subs: seq<Node>)
    requires DistinctKeys(subs)
    ensures MemberKeys(Selected(ms, subs)) == KeysIn(KeysOf(subs), ms)
    ensures forall i :: 0 <= i < |Selected(ms, subs)| ==> KeptFrom(ms, subs, Selected(ms, subs)[i])
  {
    SelectedKeys(ms, subs);
    SelectedValues(ms, subs);
  }

  /** An object filtered by a merged node is the reference description. */
  lemma IncludeObject(ms: seq<Member>, node: Node)
    requires node.subNodes.Present? && DistinctKeys(node.subNodes.nodes)
    ensures Include(JObject(ms), node) == JObject(Selected(ms, node.subNodes.nodes))
  {
    PickIsSelected(ms, node, |node.subNodes.nodes|);
    assert node.subNodes.nodes[..|node.subNodes.nodes|] == node.subNodes.nodes;
  }

  // ---------------------------------------------------------------------------
  // Further properties

  /** A node without sub-nodes keeps everything: objects are copied whole and
      arrays element by element. */
  lemma {:induction false} TerminalKeepsEverything(source: Json, node: Node)
    requires node.subNodes.Absent?
    ensures Include(source, node) == source
    decreases source
  {
    if source.JArray? {
      forall i | 0 <= i < |source.elems|
        ensures Include(source.elems[i], node) == source.elems[i]
      {
        TerminalKeepsEverything(source.elems[i], node);
      }
    }
  }

  /** Filtering keeps the keys of every object distinct. */
  lemma {:induction false} IncludeKeepsWellFormed(source: Json, node: Node)
    requires WellFormedJson(source)
    ensures WellFormedJson(Include(source, node))
    decreases node, 1, source
  {
    match source
    case JArray(es) =>
      forall i | 0 <= i < |es|
        ensures WellFormedJson(Include(es[i], node))
      {
        IncludeKeepsWellFormed(es[i], node);
      }
    case JObject(ms) =>
      if node.subNodes.Present? {
        PickKeepsWellFormed(ms, node, |node.subNodes.nodes|);
      }
    case _ =>
  }

  /** One iteration of the loop in `Pick`. */
  lemma PickStep(ms: seq<Member>, node: Node, n: nat)
    requires node.subNodes.Present? && 0 < n <= |node.subNodes.nodes|
    ensures var sub := node.subNodes.nodes[n - 1];
      Pick(ms, node, n) ==
        if Has(ms, sub.key) then Put(Pick(ms, node, n - 1), sub.key, Include(Get(ms, sub.key), sub))
        else Pick(ms, node, n - 1)
  {
  }

  lemma {:induction false} PickKeepsWellFormed(ms: seq<Member>, node: Node, n: nat)
    requires node.subNodes.Present? && n <= |node.subNodes.nodes|
    requires ValuesWellFormed(ms)
    ensures ValuesWellFormed(Pick(ms, node, n))
    decreases node, 0, n
  {
    if n > 0 {
      SelectedKeepsWellFormed(ms, node.subNodes.nodes[n - 1]);
      PickKeepsWellFormed(ms, node, n - 1);
      PickStepWellFormed(ms, node, n);
    }
  }

  /** The value a sub-node selects is well formed after filtering. */
  lemma SelectedKeepsWellFormed(ms: seq<Member>, sub: Node)
    requires ValuesWellFormed(ms)
    ensures Has(ms, sub.key) ==> WellFormedJson(Include(Get(ms, sub.key), sub))
    decreases sub, 2
  {
    if Has(ms, sub.key) {
      GetWellFormed(ms, sub.key);
      IncludeKeepsWellFormed(Get(ms, sub.key), sub);
    }
  }

  /** One iteration of `Pick` keeps the values well formed when the value it
      adds is. */
  lemma PickStepWellFormed(ms: seq<Member>, node: Node, n: nat)
    requires node.subNodes.Present? && 0 < n <= |node.subNodes.nodes|
    requires ValuesWellFormed(Pick(ms, node, n - 1))
    requires var sub := node.subNodes.nodes[n - 1];
      Has(ms, sub.key) ==> WellFormedJson(Include(Get(ms, sub.key), sub))
    ensures ValuesWellFormed(Pick(ms, node, n))
  {
    var sub := node.subNodes.nodes[n - 1];
    PickStep(ms, node, n);
    if Has(ms, sub.key) {
      PutKeepsValues(Pick(ms, node, n - 1), sub.key, Include(Get(ms, sub.key), sub));
    }
  }

}
