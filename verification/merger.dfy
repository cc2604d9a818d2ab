/** `NodeMerger`: folds sibling nodes that share a key into one node, keeping
    the order in which keys were first seen, and merges the collected
    children recursively. */
module NodeMerger {
  import opened Wrappers
  import opened Nodes

  /** One entry of the insertion-ordered map the source fills: a key and what
      it is mapped to, `Absent` standing for a mapping to `null`. */
  type Entry = (string, SubNodes)

  function EntryKeys(es: seq<Entry>): (ks: seq<string>)
    ensures |ks| == |es|
    ensures forall i :: 0 <= i < |es| ==> ks[i] == es[i].0
  {
    seq(|es|, i requires 0 <= i < |es| => es[i].0)
  }

  predicate DistinctEntryKeys(es: seq<Entry>) {
    forall i, j :: 0 <= i < j < |es| ==> es[i].0 != es[j].0
  }

  /** Position of the entry for `k`, or -1 when the map has no entry for it
      (`containsKey` is false). */
  function FindEntry(es: seq<Entry>, k: string): (i: int)
    ensures -1 <= i < |es|
    ensures 0 <= i ==> es[i].0 == k
    ensures i < 0 <==> k !in EntryKeys(es)
    ensures 0 <= i ==> forall j :: 0 <= j < i ==> es[j].0 != k
  {
    if |es| == 0 then -1
    else if es[0].0 == k then 0
    else
      var i := FindEntry(es[1..], k);
      assert EntryKeys(es) == [es[0].0] + EntryKeys(es[1..]);
      if i < 0 then -1 else i + 1
  }

  /** One iteration of the source's loop over the siblings. A node without
      sub-nodes records its key as `null` only when the key is new; a node with
      a list puts a fresh list unless the key is mapped to a list already (a
      key mapped to `null` counts as missing for `putIfAbsent`), then appends
      its children to that list. */
  function Absorb(acc: seq<Entry>, n: Node): seq<Entry>
  {
    var i := FindEntry(acc, n.key);
    match n.subNodes
    case Absent =>
      if i < 0 then acc + [(n.key, Absent)] else acc
    case Present(cs) =>
      if i < 0 then acc + [(n.key, Present(cs))]
      else
        match acc[i].1
        case Absent => acc[i := (n.key, Present(cs))]
        case Present(l) => acc[i := (n.key, Present(l + cs))]
  }

  /** The map after the loop has seen every sibling of `ns`, in order. */
  function Collect(ns: seq<Node>): seq<Entry>
  {
    if |ns| == 0 then [] else Absorb(Collect(ns[..|ns| - 1]), ns[|ns| - 1])
  }

  /** `merge(Node)`: a `null` node stays `null`. */
  function Merge(n: Option<Node>): (r: Option<Node>)
    ensures r.None? <==> n.None?
    ensures r.Some? ==> r.value.key == n.value.key && IsMerged(r.value)
  {
    match n
    case None => None
    case Some(node) => Some(MergeNode(node))
  }

  /** `merge(Node)` on a node: same key, merged sub-nodes. */
  function MergeNode(n: Node): (r: Node)
    ensures r.key == n.key
    ensures r.subNodes.Absent? <==> n.subNodes.Absent?
    ensures r.subNodes.Present? ==> (|r.subNodes.nodes| == 0 <==> |n.subNodes.nodes| == 0)
    ensures IsMerged(r)
  {
    Node(n.key, MergeSubNodes(n.subNodes))
  }

  /** The private `merge(List<Node>)`: a `null` list stays `null`. */
  function MergeSubNodes(s: SubNodes): (r: SubNodes)
    ensures r.Absent? <==> s.Absent?
    ensures r.Present? ==> (|r.nodes| == 0 <==> |s.nodes| == 0)
    ensures MergedSub(r)
    decreases SubSize(s), 2, 0
  {
    match s
    case Absent => Absent
    case Present(ns) => Present(MergeList(ns))
  }

  /** A concrete list of siblings, consolidated: one node per distinct key. */
  function MergeList(ns: seq<Node>): (r: seq<Node>)
    ensures |r| == |Collect(ns)|
    ensures forall i :: 0 <= i < |r| ==> r[i].key == Collect(ns)[i].0
    ensures forall i :: 0 <= i < |r| ==> (r[i].subNodes.Absent? <==> Collect(ns)[i].1.Absent?)
    ensures forall i :: 0 <= i < |r| ==> IsMerged(r[i])
    ensures DistinctKeys(r)
    ensures |r| == 0 <==> |ns| == 0
    decreases ListSize(ns), 1, 0
  {
    CollectSize(ns);
    CollectTracks(ns);
    var r := Emit(Collect(ns));
    assert |ns| > 0 ==> ns[0].key in KeysOf(ns);
    r
  }

  /** One output node per map entry, in entry order, its list merged in turn. */
  function Emit(es: seq<Entry>): (r: seq<Node>)
    ensures |r| == |es|
    ensures forall i :: 0 <= i < |r| ==> r[i].key == es[i].0
    ensures forall i :: 0 <= i < |r| ==> (r[i].subNodes.Absent? <==> es[i].1.Absent?)
    ensures forall i :: 0 <= i < |r| ==> IsMerged(r[i])
    decreases EntrySize(es) + |es|, 0, 0
  {
    if |es| == 0 then []
    else [Node(es[0].0, MergeSubNodes(es[0].1))] + Emit(es[1..])
  }

  /** A node is merged when no list in it holds two siblings with the same key. */
  ghost predicate IsMerged(n: Node) {
    MergedSub(n.subNodes)
  }

  ghost predicate MergedSub(s: SubNodes) {
    match s
    case Absent => true
    case Present(cs) => DistinctKeys(cs) && forall i :: 0 <= i < |cs| ==> IsMerged(cs[i])
  }

  // ---------------------------------------------------------------------------
  // Termination measure

  function EntrySize(es: seq<Entry>): nat {
    if |es| == 0 then 0 else SubSize(es[0].1) + EntrySize(es[1..])
  }

  lemma {:induction false} EntrySizeSnoc(es: seq<Entry>, e: Entry)
    ensures EntrySize(es + [e]) == EntrySize(es) + SubSize(e.1)
  {
    if |es| > 0 {
      assert (es + [e])[1..] == es[1..] + [e];
      EntrySizeSnoc(es[1..], e);
    }
  }

  lemma {:induction false} EntrySizeUpdate(es: seq<Entry>, i: nat, e: Entry)
    requires i < |es|
    ensures EntrySize(es[i := e]) == EntrySize(es) - SubSize(es[i].1) + SubSize(e.1)
  {
    if i > 0 {
      assert es[i := e][1..] == es[1..][i - 1 := e];
      EntrySizeUpdate(es[1..], i - 1, e);
    }
  }

  lemma ListSizeSnoc(ns: seq<Node>, n: Node)
    ensures ListSize(ns + [n]) == ListSize(ns) + NodeSize(n)
  {
    ListSizeAppend(ns, [n]);
  }

  /** The lists the map holds are built from the siblings' children, so they are
      smaller than the siblings together. */
  lemma {:induction false} CollectSize(ns: seq<Node>)
    ensures EntrySize(Collect(ns)) + |Collect(ns)| <= ListSize(ns)
    decreases |ns|
  {
    if |ns| > 0 {
      var front := ns[..|ns| - 1];
      var n := ns[|ns| - 1];
      var acc := Collect(front);
      CollectSize(front);
      Snoc(ns);
      ListSizeSnoc(front, n);
      var i := FindEntry(acc, n.key);
      match n.subNodes
      case Absent =>
        if i < 0 {
          EntrySizeSnoc(acc, (n.key, Absent));
        }
      case Present(cs) =>
        if i < 0 {
          EntrySizeSnoc(acc, (n.key, Present(cs)));
        } else {
          match acc[i].1
          case Absent =>
            EntrySizeUpdate(acc, i, (n.key, Present(cs)));
          case Present(l) =>
            EntrySizeUpdate(acc, i, (n.key, Present(l + cs)));
            ListSizeAppend(l, cs);
        }
    }
  }

  // ---------------------------------------------------------------------------
  // Reference description of the map the loop builds

  /** Position of the first occurrence of `k` in `ks`. */
  function FirstIndex(ks: seq<string>, k: string): (r: nat)
    requires k in ks
    ensures r < |ks| && ks[r] == k
    ensures forall j :: 0 <= j < r ==> ks[j] != k
  {
    if ks[0] == k then 0 else 1 + FirstIndex(ks[1..], k)
  }

  lemma FirstIndexIs(ks: seq<string>, k: string, r: nat)
    requires r < |ks| && ks[r] == k
    requires forall j :: 0 <= j < r ==> ks[j] != k
    ensures FirstIndex(ks, k) == r
  {
  }

  /** Every sibling with key `k` has no sub-nodes (vacuously so when there is none). */
  predicate AllAbsent(ns: seq<Node>, k: string) {
    forall i :: 0 <= i < |ns| && ns[i].key == k ==> ns[i].subNodes.Absent?
  }

  /** The children of all siblings with key `k` that have a list, concatenated in sibling order. */
  function Gathered(ns: seq<Node>, k: string): seq<Node> {
    if |ns| == 0 then []
    else
      var n := ns[|ns| - 1];
      Gathered(ns[..|ns| - 1], k) + (if n.key == k && n.subNodes.Present? then n.subNodes.nodes else [])
  }

  /** What the merge gives key `k`: no sub-nodes when no occurrence had a list,
      otherwise the concatenation of all the lists. */
  function Accumulated(ns: seq<Node>, k: string): SubNodes {
    if AllAbsent(ns, k) then Absent else Present(Gathered(ns, k))
  }

  /** `es` is the map the loop holds after reading `ns`: the right keys, the
      right values and the right order. */
  ghost predicate Tracks(es: seq<Entry>, ns: seq<Node>) {
    KeysTracked(es, ns) && ValuesTracked(es, ns) && OrderTracked(es, ns)
  }

  /** One entry per distinct key of `ns`, and no other entries. */
  ghost predicate KeysTracked(es: seq<Entry>, ns: seq<Node>) {
    && DistinctEntryKeys(es)
    && (forall k :: k in EntryKeys(es) <==> k in KeysOf(ns))
    && (forall i :: 0 <= i < |es| ==> es[i].0 in KeysOf(ns))
  }

  /** Each entry holds the accumulation of its key. */
  ghost predicate ValuesTracked(es: seq<Entry>, ns: seq<Node>) {
    forall i :: 0 <= i < |es| ==> es[i].1 == Accumulated(ns, es[i].0)
  }

  /** Entries are ordered by the first occurrence of their keys in `ns`. */
  ghost predicate OrderTracked(es: seq<Entry>, ns: seq<Node>) {
    && (forall i :: 0 <= i < |es| ==> es[i].0 in KeysOf(ns))
    && (forall i, j :: 0 <= i < j < |es| ==> FirstIndex(KeysOf(ns), es[i].0) < FirstIndex(KeysOf(ns), es[j].0))
  }

  lemma {:induction false} GatheredWhenAllAbsent(ns: seq<Node>, k: string)
    requires AllAbsent(ns, k)
    ensures Gathered(ns, k) == []
    decreases |ns|
  {
    if |ns| > 0 {
      GatheredWhenAllAbsent(ns[..|ns| - 1], k);
    }
  }

  lemma SnocFacts(ns: seq<Node>, n: Node, k: string)
    ensures KeysOf(ns + [n]) == KeysOf(ns) + [n.key]
    ensures AllAbsent(ns + [n], k) == (AllAbsent(ns, k) && (n.key == k ==> n.subNodes.Absent?))
    ensures Gathered(ns + [n], k) == Gathered(ns, k) + (if n.key == k && n.subNodes.Present? then n.subNodes.nodes else [])
    ensures k in KeysOf(ns) ==> FirstIndex(KeysOf(ns + [n]), k) == FirstIndex(KeysOf(ns), k)
    ensures k !in KeysOf(ns) && k == n.key ==> FirstIndex(KeysOf(ns + [n]), k) == |ns|
  {
    assert (ns + [n])[..|ns|] == ns;
    var ks := KeysOf(ns + [n]);
    assert ks == KeysOf(ns) + [n.key];
    if k in KeysOf(ns) {
      FirstIndexIs(ks, k, FirstIndex(KeysOf(ns), k));
    } else if k == n.key {
      FirstIndexIs(ks, k, |ns|);
    }
    if AllAbsent(ns, k) && (n.key == k ==> n.subNodes.Absent?) {
      forall i | 0 <= i < |ns + [n]| && (ns + [n])[i].key == k
        ensures (ns + [n])[i].subNodes.Absent?
      {
        if i < |ns| {
          assert (ns + [n])[i] == ns[i];
        }
      }
    }
    if AllAbsent(ns + [n], k) {
      assert (ns + [n])[|ns|] == n;
      forall i | 0 <= i < |ns| && ns[i].key == k
        ensures ns[i].subNodes.Absent?
      {
        assert (ns + [n])[i] == ns[i];
      }
    }
  }

  /** Accumulations of keys other than the new sibling's are unaffected by it. */
  lemma OtherKeysUnaffected(ns: seq<Node>, n: Node, k: string)
    requires k != n.key
    ensures Accumulated(ns + [n], k) == Accumulated(ns, k)
  {
    SnocFacts(ns, n, k);
  }

  /** Keys already in the map keep their first-seen position when a sibling is read. */
  lemma PositionsKept(es: seq<Entry>, ns: seq<Node>, n: Node)
    requires forall j :: 0 <= j < |es| ==> es[j].0 in KeysOf(ns)
    ensures KeysOf(ns + [n]) == KeysOf(ns) + [n.key]
    ensures forall j :: 0 <= j < |es| ==>
      FirstIndex(KeysOf(ns + [n]), es[j].0) == FirstIndex(KeysOf(ns), es[j].0) < |ns|
  {
    SnocFacts(ns, n, n.key);
    forall j | 0 <= j < |es|
      ensures FirstIndex(KeysOf(ns + [n]), es[j].0) == FirstIndex(KeysOf(ns), es[j].0) < |ns|
    {
      SnocFacts(ns, n, es[j].0);
    }
  }

  /** A sibling whose key is new appends an entry holding its own sub-nodes. */
  lemma NewKeyAppends(es: seq<Entry>, ns: seq<Node>, n: Node)
    requires KeysTracked(es, ns)
    requires FindEntry(es, n.key) < 0
    ensures n.key !in KeysOf(ns)
    ensures Absorb(es, n) == es + [(n.key, Accumulated(ns + [n], n.key))]
  {
    var k := n.key;
    SnocFacts(ns, n, k);
    assert k !in KeysOf(ns);
    assert AllAbsent(ns, k) by {
      assert forall i :: 0 <= i < |ns| ==> KeysOf(ns)[i] == ns[i].key;
    }
    GatheredWhenAllAbsent(ns, k);
    match n.subNodes
    case Absent =>
      assert AllAbsent(ns + [n], k);
    case Present(cs) =>
      assert !AllAbsent(ns + [n], k);
      assert Gathered(ns + [n], k) == [] + cs == cs;
  }

  lemma AppendKeysTracked(es: seq<Entry>, ns: seq<Node>, n: Node, s: SubNodes)
    requires KeysTracked(es, ns) && n.key !in KeysOf(ns)
    ensures KeysTracked(es + [(n.key, s)], ns + [n])
  {
    SnocFacts(ns, n, n.key);
    assert EntryKeys(es + [(n.key, s)]) == EntryKeys(es) + [n.key];
  }

  lemma AppendValuesTracked(es: seq<Entry>, ns: seq<Node>, n: Node)
    requires ValuesTracked(es, ns)
    requires forall i :: 0 <= i < |es| ==> es[i].0 != n.key
    ensures ValuesTracked(es + [(n.key, Accumulated(ns + [n], n.key))], ns + [n])
  {
    var r := es + [(n.key, Accumulated(ns + [n], n.key))];
    forall j | 0 <= j < |r|
      ensures r[j].1 == Accumulated(ns + [n], r[j].0)
    {
      if j < |es| {
        OtherKeysUnaffected(ns, n, es[j].0);
      }
    }
  }

  lemma AppendOrderTracked(es: seq<Entry>, ns: seq<Node>, n: Node, s: SubNodes)
    requires OrderTracked(es, ns) && n.key !in KeysOf(ns)
    ensures OrderTracked(es + [(n.key, s)], ns + [n])
  {
    PositionsKept(es, ns, n);
    SnocFacts(ns, n, n.key);
    var r := es + [(n.key, s)];
    var ks := KeysOf(ns + [n]);
    forall i | 0 <= i < |r|
      ensures r[i].0 in ks
    {
      if i < |es| {
        assert r[i] == es[i];
      }
    }
    forall i, j | 0 <= i < j < |r|
      ensures FirstIndex(ks, r[i].0) < FirstIndex(ks, r[j].0)
    {
      assert r[i] == es[i];
      if j < |es| {
        assert r[j] == es[j];
      }
    }
  }

  /** A sibling whose key is new appends an entry at the end of the map. */
  lemma AbsorbNewKey(es: seq<Entry>, ns: seq<Node>, n: Node)
    requires Tracks(es, ns)
    requires FindEntry(es, n.key) < 0
    ensures Tracks(Absorb(es, n), ns + [n])
  {
    var s := Accumulated(ns + [n], n.key);
    NewKeyAppends(es, ns, n);
    AppendKeysTracked(es, ns, n, s);
    AppendValuesTracked(es, ns, n);
    AppendOrderTracked(es, ns, n, s);
  }

  /** For a key in the map already, the iteration stores the new accumulation in place. */
  lemma AbsorbKnownValue(es: seq<Entry>, ns: seq<Node>, n: Node, i: nat)
    requires i == FindEntry(es, n.key)
    requires es[i].1 == Accumulated(ns, n.key)
    ensures Absorb(es, n) == es[i := (n.key, Accumulated(ns + [n], n.key))]
  {
    var k := n.key;
    SnocFacts(ns, n, k);
    match n.subNodes
    case Absent =>
      assert Accumulated(ns + [n], k) == Accumulated(ns, k);
      assert es[i := (k, es[i].1)] == es;
    case Present(cs) =>
      assert !AllAbsent(ns + [n], k);
      if es[i].1.Absent? {
        GatheredWhenAllAbsent(ns, k);
        assert Gathered(ns + [n], k) == cs;
      } else {
        assert Gathered(ns + [n], k) == es[i].1.nodes + cs;
      }
  }

  /** Replacing the entry of the new sibling's key by its new accumulation keeps the map in step. */
  lemma UpdateTracks(es: seq<Entry>, ns: seq<Node>, n: Node, i: nat)
    requires Tracks(es, ns)
    requires i < |es| && es[i].0 == n.key
    ensures Tracks(es[i := (n.key, Accumulated(ns + [n], n.key))], ns + [n])
  {
    var s := Accumulated(ns + [n], n.key);
    UpdateKeysTracked(es, ns, n, i, s);
    UpdateValuesTracked(es, ns, n, i);
    UpdateOrderTracked(es, ns, n, i, s);
  }

  lemma UpdateKeysTracked(es: seq<Entry>, ns: seq<Node>, n: Node, i: nat, s: SubNodes)
    requires KeysTracked(es, ns) && i < |es| && es[i].0 == n.key
    ensures KeysTracked(es[i := (n.key, s)], ns + [n])
  {
    SnocFacts(ns, n, n.key);
    assert EntryKeys(es[i := (n.key, s)]) == EntryKeys(es);
  }

  lemma UpdateValuesTracked(es: seq<Entry>, ns: seq<Node>, n: Node, i: nat)
    requires ValuesTracked(es, ns) && DistinctEntryKeys(es) && i < |es| && es[i].0 == n.key
    ensures ValuesTracked(es[i := (n.key, Accumulated(ns + [n], n.key))], ns + [n])
  {
    var r := es[i := (n.key, Accumulated(ns + [n], n.key))];
    forall j | 0 <= j < |r|
      ensures r[j].1 == Accumulated(ns + [n], r[j].0)
    {
      if j != i {
        OtherKeysUnaffected(ns, n, es[j].0);
      }
    }
  }

  lemma UpdateOrderTracked(es: seq<Entry>, ns: seq<Node>, n: Node, i: nat, s: SubNodes)
    requires OrderTracked(es, ns) && i < |es| && es[i].0 == n.key
    ensures OrderTracked(es[i := (n.key, s)], ns + [n])
  {
    PositionsKept(es, ns, n);
    SnocFacts(ns, n, n.key);
    var r := es[i := (n.key, s)];
    assert forall j :: 0 <= j < |es| ==> r[j].0 == es[j].0;
  }

  /** A sibling whose key is in the map already updates that entry in place. */
  lemma AbsorbKnownKey(es: seq<Entry>, ns: seq<Node>, n: Node)
    requires Tracks(es, ns)
    requires FindEntry(es, n.key) >= 0
    ensures Tracks(Absorb(es, n), ns + [n])
  {
    AbsorbKnownValue(es, ns, n, FindEntry(es, n.key));
    UpdateTracks(es, ns, n, FindEntry(es, n.key));
  }

  /** One loop iteration keeps the map in step with the siblings read so far. */
  lemma AbsorbTracks(es: seq<Entry>, ns: seq<Node>, n: Node)
    requires Tracks(es, ns)
    ensures Tracks(Absorb(es, n), ns + [n])
  {
    if FindEntry(es, n.key) < 0 {
      AbsorbNewKey(es, ns, n);
    } else {
      AbsorbKnownKey(es, ns, n);
    }
  }

  /** The map after the loop: one entry per distinct key, in first-seen order,
      each holding what `Accumulated` says. */
  lemma {:induction false} CollectTracks(ns: seq<Node>)
    ensures Tracks(Collect(ns), ns)
    decreases |ns|
  {
    if |ns| > 0 {
      var front := ns[..|ns| - 1];
      CollectTracks(front);
      AbsorbTracks(Collect(front), front, ns[|ns| - 1]);
      Snoc(ns);
    }
  }

  // ---------------------------------------------------------------------------
  // What the merge computes

  lemma {:induction false} EmitAt(es: seq<Entry>, i: nat)
    requires i < |es|
    ensures Emit(es)[i] == Node(es[i].0, MergeSubNodes(es[i].1))
    decreases i
  {
    if i > 0 {
      EmitAt(es[1..], i - 1);
    }
  }

  /** The merged siblings: exactly the distinct keys of the input, in the order
      of their first occurrence, each carrying no sub-nodes when no occurrence
      had a list and otherwise the merge of all occurrences' children,
      concatenated in sibling order. */
  lemma MergeListSpec(ns: seq<Node>)
    ensures DistinctKeys(MergeList(ns))
    ensures forall k :: k in KeysOf(MergeList(ns)) <==> k in KeysOf(ns)
    ensures forall i, j :: 0 <= i < j < |MergeList(ns)| ==>
      FirstIndex(KeysOf(ns), MergeList(ns)[i].key) < FirstIndex(KeysOf(ns), MergeList(ns)[j].key)
    ensures forall i :: 0 <= i < |MergeList(ns)| ==>
      MergeList(ns)[i].subNodes ==
        (if AllAbsent(ns, MergeList(ns)[i].key) then Absent
         else Present(MergeList(Gathered(ns, MergeList(ns)[i].key))))
  {
    var es := Collect(ns);
    var r := MergeList(ns);
    CollectTracks(ns);
    assert KeysOf(r) == EntryKeys(es);
    forall i | 0 <= i < |r|
      ensures r[i].subNodes == MergeSubNodes(Accumulated(ns, r[i].key))
    {
      EmitAt(es, i);
    }
  }

  /** Siblings with distinct keys each land in their own entry, in order. */
  lemma {:induction false} CollectDistinct(ns: seq<Node>)
    requires DistinctKeys(ns)
    ensures |Collect(ns)| == |ns|
    ensures forall i :: 0 <= i < |ns| ==> Collect(ns)[i] == (ns[i].key, ns[i].subNodes)
    decreases |ns|
  {
    if |ns| > 0 {
      var front := ns[..|ns| - 1];
      var n := ns[|ns| - 1];
      CollectDistinct(front);
      var es := Collect(front);
      assert n.key !in EntryKeys(es) by {
        forall i | 0 <= i < |es|
          ensures es[i].0 != n.key
        {
          assert es[i].0 == ns[i].key;
        }
      }
      assert Collect(ns) == es + [(n.key, n.subNodes)] by {
        NewEntryAppends(es, n);
      }
    }
  }

  lemma NewEntryAppends(es: seq<Entry>, n: Node)
    requires n.key !in EntryKeys(es)
    ensures Absorb(es, n) == es + [(n.key, n.subNodes)]
  {
  }

  /** Merging what is merged already changes nothing. */
  lemma {:induction false} MergeSubNodesKeepsMerged(s: SubNodes)
    requires MergedSub(s)
    ensures MergeSubNodes(s) == s
    decreases SubSize(s), 1
  {
    match s
    case Absent =>
    case Present(ns) => MergeListKeepsMerged(ns);
  }

  lemma {:induction false} MergeListKeepsMerged(ns: seq<Node>)
    requires DistinctKeys(ns)
    requires forall i :: 0 <= i < |ns| ==> IsMerged(ns[i])
    ensures MergeList(ns) == ns
    decreases ListSize(ns), 0
  {
    CollectDistinct(ns);
    var r := MergeList(ns);
    forall i | 0 <= i < |ns|
      ensures r[i] == ns[i]
    {
      EmitAt(Collect(ns), i);
      ListSizeElement(ns, i);
      MergeSubNodesKeepsMerged(ns[i].subNodes);
    }
  }

  /** A merged node is a fixed point of the merge. */
  lemma MergeNodeKeepsMerged(n: Node)
    requires IsMerged(n)
    ensures MergeNode(n) == n
  {
    MergeSubNodesKeepsMerged(n.subNodes);
  }

  /** Merging twice is merging once. */
  lemma MergeIdempotent(n: Option<Node>)
    ensures Merge(Merge(n)) == Merge(n)
  {
    if n.Some? {
      MergeNodeKeepsMerged(MergeNode(n.value));
    }
  }
}
