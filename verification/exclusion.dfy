/** `ExclusionFilter`: removes from a JSON value the parts that the path
    expression names, using JSON null as the "remove this member" signal. */
module ExclusionFilter {
  import opened Wrappers
  import opened Nodes
  import opened Json
  import opened NodeParser

  /** The public `apply`: parse the expression (which may be missing), then
      filter. A malformed expression makes the whole call fail. */
  function Apply(source: Json, nodes: Option<string>): (r: Result<Json, ParseError>)
    ensures r.Failure? <==> Parse(nodes).Failure?
    ensures r.Failure? ==> r.error == Parse(nodes).error
    ensures nodes.None? ==> r == Success(JNull)
    ensures r.Success? && WellFormedJson(source) ==> WellFormedJson(r.value)
    ensures r.Success? ==> r.value == Filter(source, Some(Parse(nodes).value))
  {
    match Parse(nodes)
    case Failure(e) => Failure(e)
    case Success(root) =>
      assert WellFormedJson(source) ==> WellFormedJson(Exclude(source, root)) by {
        if WellFormedJson(source) {
          ExcludeKeepsWellFormed(source, root);
        }
      }
      Success(Filter(source, Some(root)))
  }

  /** `filter(JsonElement, Node)`, including its branch for a `null` node,
      which leaves a non-null source as it is. */
  function Filter(source: Json, node: Option<Node>): (r: Json)
    ensures source.JNull? ==> r == JNull
    ensures !source.JNull? && node.None? ==> r == source
    ensures node.Some? ==> r == Exclude(source, node.value)
  {
    match node
    case None => source
    case Some(n) => Exclude(source, n)
  }

  /** The filter for a node: JSON null stays null, a node without sub-nodes
      removes the value (JSON null), primitives are copied, arrays are filtered
      element by element with the same node (removed elements stay as JSON
      null), and objects lose or change the members the sub-nodes name. */
  function Exclude(source: Json, node: Node): (r: Json)
    ensures r.JNull? <==> source.JNull? || node.subNodes.Absent?
    ensures node.subNodes.Present? && source.IsPrimitive() ==> r == source
    ensures node.subNodes.Present? && source.JArray? ==> r.JArray? && |r.elems| == |source.elems|
    ensures node.subNodes.Present? && source.JArray? ==>
      forall i :: 0 <= i < |r.elems| ==> r.elems[i] == Exclude(source.elems[i], node)
    ensures node.subNodes.Present? && source.JObject? ==> r.JObject?
    ensures node.subNodes.Present? && source.JObject? ==>
      forall k :: Has(r.members, k) ==> Has(source.members, k)
    ensures node.subNodes.Present? && source.JObject? ==>
      forall k :: Has(source.members, k) && k !in KeysOf(node.subNodes.nodes) ==>
        Has(r.members, k) && Get(r.members, k) == Get(source.members, k)
    decreases node, 1, source
  {
    if source.JNull? || node.subNodes.Absent? then JNull
    else if source.JObject? then
      assert node.subNodes.nodes[..|node.subNodes.nodes|] == node.subNodes.nodes;
      JObject(Drop(source.members, node, |node.subNodes.nodes|))
    else if source.JArray? then
      var es := source.elems;
      JArray(seq(|es|, i requires 0 <= i < |es| => Exclude(es[i], node)))
    else source
  }

  /** `filterJsonObject` after the loop has seen the first `n` sub-nodes. */
  function Drop(ms: seq<Member>, node: Node, n: nat): (r: seq<Member>)
    requires node.subNodes.Present? && n <= |node.subNodes.nodes|
    ensures forall k :: Has(r, k) ==> Has(ms, k)
    ensures forall k :: Has(ms, k) && k !in KeysOf(node.subNodes.nodes[..n]) ==>
      Has(r, k) && Get(r, k) == Get(ms, k)
    decreases node, 0, n
  {
    if n == 0 then ms
    else
      var subs := node.subNodes.nodes;
      assert KeysOf(subs[..n]) == KeysOf(subs[..n - 1]) + [subs[n - 1].key];
      Step(Drop(ms, node, n - 1), subs[n - 1])
  }

  /** One iteration of that loop, for sub-node `sub`: when the (edited) copy
      still has the sub-node's key, the member's value is filtered by the
      sub-node; a JSON null result removes the member, anything else replaces
      its value in place. */
  function Step(acc: seq<Member>, sub: Node): (r: seq<Member>)
    ensures forall k :: Has(r, k) ==> Has(acc, k)
    ensures forall k :: k != sub.key && Has(acc, k) ==> Has(r, k) && Get(r, k) == Get(acc, k)
    decreases sub, 2, 0
  {
    if Has(acc, sub.key) then
      var filtered := Exclude(Get(acc, sub.key), sub);
      if filtered.JNull? then
        forall k | k != sub.key
          ensures Has(Remove(acc, sub.key), k) <==> Has(acc, k)
          ensures Has(acc, k) ==> Get(Remove(acc, sub.key), k) == Get(acc, k)
        {
          GetRemoveOther(acc, sub.key, k);
        }
        Remove(acc, sub.key)
      else
        forall k | k != sub.key
          ensures Has(Put(acc, sub.key, filtered), k) <==> Has(acc, k)
          ensures Has(acc, k) ==> Get(Put(acc, sub.key, filtered), k) == Get(acc, k)
        {
          GetPutOther(acc, sub.key, filtered, k);
        }
        Put(acc, sub.key, filtered)
    else acc
  }

  // ---------------------------------------------------------------------------
  // Reference description of an object's exclusion

  /** What the filter leaves of an object, described member by member: a
      member no sub-node names stays as it is; a named member is dropped when
      its filtered value is JSON null and otherwise keeps its place with the
      filtered value. */
  function Pruned(ms: seq<Member>, subs: seq<Node>): seq<Member>
  {
    if |ms| == 0 then [] else PrunedMember(ms[0], subs) + Pruned(ms[1..], subs)
  }

  /** The reference description keeps a subset of the source's keys, and keeps them distinct. */
  lemma {:induction false} PrunedKeys(ms: seq<Member>, subs: seq<Node>)
    ensures forall k :: Has(Pruned(ms, subs), k) ==> Has(ms, k)
    ensures DistinctMemberKeys(ms) ==> DistinctMemberKeys(Pruned(ms, subs))
    decreases |ms|
  {
    if |ms| > 0 {
      PrunedKeys(ms[1..], subs);
      var h := PrunedMember(ms[0], subs);
      var rest := Pruned(ms[1..], subs);
      forall k
        ensures Has(h + rest, k) <==> Has(h, k) || Has(rest, k)
      {
        GetAppend(h, rest, k);
      }
      if DistinctMemberKeys(ms) {
        HeadKeyUnique(ms);
        DistinctPrepend(h, rest, ms[0].0);
      }
    }
  }

  /** What becomes of one member: kept as it is when no sub-node names it,
      dropped when its filtered value is JSON null, else kept with that value. */
  function PrunedMember(m: Member, subs: seq<Node>): (r: seq<Member>)
    ensures |r| <= 1 && (|r| == 1 ==> r[0].0 == m.0)
  {
    match FindChild(subs, m.0)
    case None => [m]
    case Some(sub) =>
      var filtered := Exclude(m.1, sub);
      if filtered.JNull? then [] else [(m.0, filtered)]
  }

  /** `Step` for a key other than the first member's passes over that member. */
  lemma StepPassesHead(m: Member, rest: seq<Member>, sub: Node)
    requires m.0 != sub.key
    ensures Step([m] + rest, sub) == [m] + Step(rest, sub)
  {
    var ms := [m] + rest;
    assert ms[1..] == rest;
    if Has(rest, sub.key) {
      var filtered := Exclude(Get(rest, sub.key), sub);
      if filtered.JNull? {
        assert Remove(ms, sub.key) == [m] + Remove(rest, sub.key);
      } else {
        assert Put(ms, sub.key, filtered) == [m] + Put(rest, sub.key, filtered);
      }
    }
  }

  /** One more sub-node, with a key not named before, acts on the reference
      description exactly as one loop iteration acts on the copy. */
  lemma {:induction false} PrunedSnoc(ms: seq<Member>, subs: seq<Node>, sub: Node)
    requires DistinctMemberKeys(ms)
    requires sub.key !in KeysOf(subs)
    ensures Pruned(ms, subs + [sub]) == Step(Pruned(ms, subs), sub)
    decreases |ms|
  {
    if |ms| > 0 {
      var m := ms[0];
      var rest := ms[1..];
      HeadKeyUnique(ms);
      PrunedSnoc(rest, subs, sub);
      FindChildSnoc(subs, sub, m.0);
      if m.0 == sub.key {
        PrunedKeys(rest, subs);
        NamedHeadStep(m, Pruned(rest, subs), sub);
      } else {
        OtherHeadStep(PrunedMember(m, subs), Pruned(rest, subs), sub);
      }
    }
  }

  /** The loop iteration for the first member's own key. */
  lemma NamedHeadStep(m: Member, rest: seq<Member>, sub: Node)
    requires m.0 == sub.key && !Has(rest, sub.key)
    ensures Step([m] + rest, sub) ==
      (var f := Exclude(m.1, sub); if f.JNull? then [] else [(m.0, f)]) + Step(rest, sub)
  {
    var ms := [m] + rest;
    assert ms[1..] == rest;
    var f := Exclude(m.1, sub);
    if !f.JNull? {
      assert Put(ms, sub.key, f) == [(m.0, f)] + rest;
    }
  }

  /** The loop iteration for another key passes over what became of the first member. */
  lemma OtherHeadStep(h: seq<Member>, rest: seq<Member>, sub: Node)
    requires |h| <= 1 && (|h| == 1 ==> h[0].0 != sub.key)
    ensures Step(h + rest, sub) == h + Step(rest, sub)
  {
    if |h| == 0 {
      assert h + rest == rest;
    } else {
      assert h == [h[0]];
      StepPassesHead(h[0], rest, sub);
    }
  }

  /** With distinct sub-node keys (as after the merge) and an object with
      distinct keys, the loop leaves exactly the reference description. */
  lemma {:induction false} DropIsPruned(ms: seq<Member>, node: Node, n: nat)
    requires node.subNodes.Present? && n <= |node.subNodes.nodes|
    requires DistinctKeys(node.subNodes.nodes) && DistinctMemberKeys(ms)
    ensures Drop(ms, node, n) == Pruned(ms, node.subNodes.nodes[..n])
    decreases n
  {
    var subs := node.subNodes.nodes;
    if n == 0 {
      PrunedNoChildren(ms);
      assert subs[..0] == [];
    } else {
      DropIsPruned(ms, node, n - 1);
      FreshLastKey(subs, n);
      PrunedSnoc(ms, subs[..n - 1], subs[n - 1]);
    }
  }

  /** In a list with distinct keys, each node's key is new among those before it. */
  lemma FreshLastKey(subs: seq<Node>, n: nat)
    requires DistinctKeys(subs) && 0 < n <= |subs|
    ensures subs[n - 1].key !in KeysOf(subs[..n - 1])
    ensures subs[..n - 1] + [subs[n - 1]] == subs[..n]
  {
    assert forall j :: 0 <= j < n - 1 ==> KeysOf(subs[..n - 1])[j] == subs[j].key;
  }

  lemma {:induction false} PrunedNoChildren(ms: seq<Member>)
    ensures Pruned(ms, []) == ms
    decreases |ms|
  {
    if |ms| > 0 {
      PrunedNoChildren(ms[1..]);
    }
  }

  /** An object filtered by a merged node is the reference description. */
  lemma ExcludeObject(ms: seq<Member>, node: Node)
    requires node.subNodes.Present? && DistinctKeys(node.subNodes.nodes) && DistinctMemberKeys(ms)
    ensures Exclude(JObject(ms), node) == JObject(Pruned(ms, node.subNodes.nodes))
  {
    DropIsPruned(ms, node, |node.subNodes.nodes|);
    assert node.subNodes.nodes[..|node.subNodes.nodes|] == node.subNodes.nodes;
  }

  // ---------------------------------------------------------------------------
  // Further properties

  /** A member whose value is JSON null is removed whenever a sub-node names
      it, whatever that sub-node's own sub-nodes. */
  lemma NamedNullMemberRemoved(ms: seq<Member>, node: Node, k: string)
    requires node.subNodes.Present? && DistinctKeys(node.subNodes.nodes) && DistinctMemberKeys(ms)
    requires Has(ms, k) && Get(ms, k) == JNull && k in KeysOf(node.subNodes.nodes)
    ensures !Has(Exclude(JObject(ms), node).members, k)
  {
    ExcludeObject(ms, node);
    PrunedMembership(ms, node.subNodes.nodes, k);
  }

  /** Membership in the reference description: a source key stays exactly when
      no sub-node names it or its filtered value is not JSON null. */
  lemma {:induction false} PrunedMembership(ms: seq<Member>, subs: seq<Node>, k: string)
    requires DistinctMemberKeys(ms)
    ensures Has(Pruned(ms, subs), k) <==>
      Has(ms, k) && (FindChild(subs, k).None? || !Exclude(Get(ms, k), FindChild(subs, k).value).JNull?)
    ensures Has(Pruned(ms, subs), k) ==>
      Get(Pruned(ms, subs), k) == if FindChild(subs, k).None? then Get(ms, k) else Exclude(Get(ms, k), FindChild(subs, k).value)
    decreases |ms|
  {
    if |ms| > 0 {
      HeadKeyUnique(ms);
      PrunedMembership(ms[1..], subs, k);
      GetAppend(PrunedMember(ms[0], subs), Pruned(ms[1..], subs), k);
      if ms[0].0 == k {
        PrunedMemberReads(ms[0], subs);
      }
    }
  }

  /** Reading the member's own key in what becomes of it. */
  lemma PrunedMemberReads(m: Member, subs: seq<Node>)
    ensures Has(PrunedMember(m, subs), m.0) <==>
      FindChild(subs, m.0).None? || !Exclude(m.1, FindChild(subs, m.0).value).JNull?
    ensures Has(PrunedMember(m, subs), m.0) ==>
      Get(PrunedMember(m, subs), m.0) == if FindChild(subs, m.0).None? then m.1 else Exclude(m.1, FindChild(subs, m.0).value)
  {
  }

  /** Filtering keeps the keys of every object distinct. */
  lemma {:induction false} ExcludeKeepsWellFormed(source: Json, node: Node)
    requires WellFormedJson(source)
    ensures WellFormedJson(Exclude(source, node))
    decreases node, 1, source
  {
    if !source.JNull? && node.subNodes.Present? {
      match source
      case JArray(es) =>
        forall i | 0 <= i < |es|
          ensures WellFormedJson(Exclude(es[i], node))
        {
          ExcludeKeepsWellFormed(es[i], node);
        }
      case JObject(ms) =>
        DropKeepsWellFormed(ms, node, |node.subNodes.nodes|);
      case _ =>
    }
  }

  lemma {:induction false} DropKeepsWellFormed(ms: seq<Member>, node: Node, n: nat)
    requires node.subNodes.Present? && n <= |node.subNodes.nodes|
    requires DistinctMemberKeys(ms) && ValuesWellFormed(ms)
    ensures DistinctMemberKeys(Drop(ms, node, n)) && ValuesWellFormed(Drop(ms, node, n))
    decreases node, 0, n
  {
    if n > 0 {
      var sub := node.subNodes.nodes[n - 1];
      DropKeepsWellFormed(ms, node, n - 1);
      FilteredKeepsWellFormed(Drop(ms, node, n - 1), sub);
      DropStepWellFormed(ms, node, n);
    }
  }

  /** The value a sub-node filters is well formed after filtering. */
  lemma FilteredKeepsWellFormed(acc: seq<Member>, sub: Node)
    requires ValuesWellFormed(acc)
    ensures Has(acc, sub.key) ==> WellFormedJson(Exclude(Get(acc, sub.key), sub))
    decreases sub, 2
  {
    if Has(acc, sub.key) {
      GetWellFormed(acc, sub.key);
      ExcludeKeepsWellFormed(Get(acc, sub.key), sub);
    }
  }

  /** One iteration of `Drop` keeps the object well formed. */
  lemma DropStepWellFormed(ms: seq<Member>, node: Node, n: nat)
    requires node.subNodes.Present? && 0 < n <= |node.subNodes.nodes|
    requires DistinctMemberKeys(Drop(ms, node, n - 1)) && ValuesWellFormed(Drop(ms, node, n - 1))
    requires var sub := node.subNodes.nodes[n - 1];
      Has(Drop(ms, node, n - 1), sub.key) ==> WellFormedJson(Exclude(Get(Drop(ms, node, n - 1), sub.key), sub))
    ensures DistinctMemberKeys(Drop(ms, node, n)) && ValuesWellFormed(Drop(ms, node, n))
  {
    StepKeepsWellFormed(Drop(ms, node, n - 1), node.subNodes.nodes[n - 1]);
  }

  lemma StepKeepsWellFormed(acc: seq<Member>, sub: Node)
    requires DistinctMemberKeys(acc) && ValuesWellFormed(acc)
    requires Has(acc, sub.key) ==> WellFormedJson(Exclude(Get(acc, sub.key), sub))
    ensures DistinctMemberKeys(Step(acc, sub)) && ValuesWellFormed(Step(acc, sub))
  {
    if Has(acc, sub.key) {
      var filtered := Exclude(Get(acc, sub.key), sub);
      if filtered.JNull? {
        RemoveKeepsDistinct(acc, sub.key);
        RemoveKeepsValues(acc, sub.key);
      } else {
        PutKeepsDistinct(acc, sub.key, filtered);
        PutKeepsValues(acc, sub.key, filtered);
      }
    }
  }

}
