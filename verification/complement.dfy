/** How the two filters relate: for a flat list of keys (no child names any
    sub-paths), inclusion and exclusion split an object's members between
    them, each side keeping the source values unchanged. */
module Complement {
  import opened Nodes
  import opened Json
  import InclusionFilter
  import ExclusionFilter

  /** Every child of the node is terminal, as in the expression `a,b,c`. */
  predicate FlatList(node: Node) {
    node.subNodes.Present? && forall i :: 0 <= i < |node.subNodes.nodes| ==> node.subNodes.nodes[i].subNodes.Absent?
  }

  lemma IncludedValues(ms: seq<Member>, node: Node, k: string)
    requires FlatList(node) && DistinctKeys(node.subNodes.nodes)
    requires Has(InclusionFilter.Include(JObject(ms), node).members, k)
    ensures Get(InclusionFilter.Include(JObject(ms), node).members, k) == Get(ms, k)
  {
    var subs := node.subNodes.nodes;
    InclusionFilter.IncludeObject(ms, node);
    var sel := InclusionFilter.Selected(ms, subs);
    InclusionFilter.SelectedMembers(ms, subs);
    var i :| 0 <= i < |sel| && MemberKeys(sel)[i] == k;
    GetAt(sel, i);
    var sub := FindChild(subs, k).value;
    InclusionFilter.TerminalKeepsEverything(Get(ms, k), sub);
  }

  lemma ExcludedMembership(ms: seq<Member>, node: Node, k: string)
    requires FlatList(node) && DistinctKeys(node.subNodes.nodes) && DistinctMemberKeys(ms)
    ensures Has(ExclusionFilter.Exclude(JObject(ms), node).members, k) <==>
      Has(ms, k) && k !in KeysOf(node.subNodes.nodes)
    ensures Has(ExclusionFilter.Exclude(JObject(ms), node).members, k) ==>
      Get(ExclusionFilter.Exclude(JObject(ms), node).members, k) == Get(ms, k)
  {
    ExclusionFilter.ExcludeObject(ms, node);
    ExclusionFilter.PrunedMembership(ms, node.subNodes.nodes, k);
  }

  /** For a flat key list and an object with distinct keys: every source key
      lands on exactly one side, each side holds only source keys, and every
      kept value is the source's own. */
  lemma FlatListPartitions(ms: seq<Member>, node: Node)
    requires FlatList(node) && DistinctKeys(node.subNodes.nodes) && DistinctMemberKeys(ms)
    ensures InclusionFilter.Include(JObject(ms), node).JObject?
    ensures ExclusionFilter.Exclude(JObject(ms), node).JObject?
    ensures forall k :: Has(ms, k) ==>
      (Has(InclusionFilter.Include(JObject(ms), node).members, k) <==>
       !Has(ExclusionFilter.Exclude(JObject(ms), node).members, k))
    ensures forall k ::
      (Has(InclusionFilter.Include(JObject(ms), node).members, k) ||
       Has(ExclusionFilter.Exclude(JObject(ms), node).members, k)) ==> Has(ms, k)
    ensures forall k :: Has(InclusionFilter.Include(JObject(ms), node).members, k) ==>
      Get(InclusionFilter.Include(JObject(ms), node).members, k) == Get(ms, k)
    ensures forall k :: Has(ExclusionFilter.Exclude(JObject(ms), node).members, k) ==>
      Get(ExclusionFilter.Exclude(JObject(ms), node).members, k) == Get(ms, k)
  {
    forall k
      ensures Has(ExclusionFilter.Exclude(JObject(ms), node).members, k) <==>
        Has(ms, k) && k !in KeysOf(node.subNodes.nodes)
      ensures Has(ExclusionFilter.Exclude(JObject(ms), node).members, k) ==>
        Get(ExclusionFilter.Exclude(JObject(ms), node).members, k) == Get(ms, k)
    {
      ExcludedMembership(ms, node, k);
    }
    forall k | Has(InclusionFilter.Include(JObject(ms), node).members, k)
      ensures Get(InclusionFilter.Include(JObject(ms), node).members, k) == Get(ms, k)
    {
      IncludedValues(ms, node, k);
    }
  }
}
