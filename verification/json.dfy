/** The JSON values the filters walk: Gson's `JsonElement` hierarchy as an
    immutable sum type. A `JsonObject` is an insertion-ordered map, modelled as
    a sequence of members; copies are the values themselves. */
module Json {

  datatype Json =
    | JNull
    | JBool(b: bool)
    | JNumber(text: string)
    | JString(s: string)
    | JArray(elems: seq<Json>)
    | JObject(members: seq<Member>)
  {
    /** A `JsonPrimitive`: neither null, array nor object. */
    predicate IsPrimitive() {
      JBool? || JNumber? || JString?
    }
  }

  type Member = (string, Json)

  function MemberKeys(ms: seq<Member>): (ks: seq<string>)
    ensures |ks| == |ms|
    ensures forall i :: 0 <= i < |ms| ==> ks[i] == ms[i].0
  {
    if |ms| == 0 then [] else [ms[0].0] + MemberKeys(ms[1..])
  }

  predicate DistinctMemberKeys(ms: seq<Member>) {
    forall i, j :: 0 <= i < j < |ms| ==> ms[i].0 != ms[j].0
  }

  /** Gson keeps the keys of every object distinct. */
  ghost predicate WellFormedJson(j: Json) {
    match j
    case JArray(es) => forall i :: 0 <= i < |es| ==> WellFormedJson(es[i])
    case JObject(ms) => DistinctMemberKeys(ms) && forall i :: 0 <= i < |ms| ==> WellFormedJson(ms[i].1)
    case _ => true
  }

  /** Every member value of an object is well formed. */
  ghost predicate ValuesWellFormed(ms: seq<Member>) {
    forall i :: 0 <= i < |ms| ==> WellFormedJson(ms[i].1)
  }

  /** A value read from well-formed members is well formed. */
  lemma GetWellFormed(ms: seq<Member>, k: string)
    requires ValuesWellFormed(ms) && Has(ms, k)
    ensures WellFormedJson(Get(ms, k))
  {
  }

  /** `remove` keeps the remaining values well formed. */
  lemma {:induction false} RemoveKeepsValues(ms: seq<Member>, k: string)
    requires ValuesWellFormed(ms)
    ensures ValuesWellFormed(Remove(ms, k))
    decreases |ms|
  {
    if |ms| > 0 && ms[0].0 != k {
      RemoveKeepsValues(ms[1..], k);
      assert Remove(ms, k) == [ms[0]] + Remove(ms[1..], k);
    }
  }

  /** `add` of a well-formed value keeps the values well formed. */
  lemma {:induction false} PutKeepsValues(ms: seq<Member>, k: string, v: Json)
    requires ValuesWellFormed(ms) && WellFormedJson(v)
    ensures ValuesWellFormed(Put(ms, k, v))
    decreases |ms|
  {
    if |ms| > 0 && ms[0].0 != k {
      PutKeepsValues(ms[1..], k, v);
      assert Put(ms, k, v) == [ms[0]] + Put(ms[1..], k, v);
    }
  }

  /** `JsonObject.has`. */
  predicate Has(ms: seq<Member>, k: string)
    ensures Has(ms, k) <==> k in MemberKeys(ms)
  {
    |ms| > 0 && (ms[0].0 == k || Has(ms[1..], k))
  }

  /** `JsonObject.get` for a key the object has: the value of its member. */
  function Get(ms: seq<Member>, k: string): (v: Json)
    requires Has(ms, k)
    ensures exists i :: 0 <= i < |ms| && ms[i] == (k, v)
  {
    if ms[0].0 == k then ms[0].1 else Get(ms[1..], k)
  }

  /** `JsonObject.add`: a key the object has keeps its position and takes the
      new value; a new key is appended. */
  function Put(ms: seq<Member>, k: string, v: Json): (r: seq<Member>)
    ensures Has(r, k) && Get(r, k) == v
    ensures Has(ms, k) ==> MemberKeys(r) == MemberKeys(ms)
    ensures !Has(ms, k) ==> MemberKeys(r) == MemberKeys(ms) + [k]
    ensures !Has(ms, k) ==> r == ms + [(k, v)]
  {
    AddMemberReads(ms, k, v);
    if Has(ms, k) then
      AddMemberKeysKnown(ms, k, v);
      AddMember(ms, k, v)
    else
      AddMemberNew(ms, k, v);
      AddMemberKeysNew(ms, k, v);
      AddMember(ms, k, v)
  }

  /** The member list `add` builds: the first member with the key is replaced
      in place, or the new member goes at the end. */
  function AddMember(ms: seq<Member>, k: string, v: Json): seq<Member>
  {
    if |ms| == 0 then [(k, v)]
    else if ms[0].0 == k then [(k, v)] + ms[1..]
    else [ms[0]] + AddMember(ms[1..], k, v)
  }

  lemma {:induction false} AddMemberNew(ms: seq<Member>, k: string, v: Json)
    requires !Has(ms, k)
    ensures AddMember(ms, k, v) == ms + [(k, v)]
  {
    if |ms| > 0 {
      AddMemberNew(ms[1..], k, v);
      assert ms == [ms[0]] + ms[1..];
    }
  }

  lemma {:induction false} AddMemberReads(ms: seq<Member>, k: string, v: Json)
    ensures Has(AddMember(ms, k, v), k) && Get(AddMember(ms, k, v), k) == v
  {
    if |ms| > 0 && ms[0].0 != k {
      AddMemberReads(ms[1..], k, v);
      assert AddMember(ms, k, v)[1..] == AddMember(ms[1..], k, v);
    }
  }

  lemma {:induction false} AddMemberKeysKnown(ms: seq<Member>, k: string, v: Json)
    requires Has(ms, k)
    ensures MemberKeys(AddMember(ms, k, v)) == MemberKeys(ms)
  {
    var r := AddMember(ms, k, v);
    if ms[0].0 != k {
      AddMemberKeysKnown(ms[1..], k, v);
      assert r[1..] == AddMember(ms[1..], k, v);
    }
    assert |r| == |ms|;
  }

  lemma AddMemberKeysNew(ms: seq<Member>, k: string, v: Json)
    requires !Has(ms, k)
    ensures MemberKeys(AddMember(ms, k, v)) == MemberKeys(ms) + [k]
  {
    AddMemberNew(ms, k, v);
  }

  /** `JsonObject.remove`: the member with the key goes, the others keep their order. */
  function Remove(ms: seq<Member>, k: string): (r: seq<Member>)
    ensures DistinctMemberKeys(ms) ==> !Has(r, k)
    ensures !Has(ms, k) ==> r == ms
    ensures Has(ms, k) ==> |r| == |ms| - 1
  {
    if |ms| == 0 then ms
    else if ms[0].0 == k then
      ms[1..]
    else
      var r := [ms[0]] + Remove(ms[1..], k);
      assert r[1..] == Remove(ms[1..], k);
      r
  }

  // ---------------------------------------------------------------------------
  // Laws of the object operations

  /** Reading a key in a concatenation of member lists: the first list wins. */
  lemma {:induction false} GetAppend(a: seq<Member>, b: seq<Member>, k: string)
    ensures Has(a + b, k) <==> Has(a, k) || Has(b, k)
    ensures Has(a, k) ==> Get(a + b, k) == Get(a, k)
    ensures !Has(a, k) && Has(b, k) ==> Get(a + b, k) == Get(b, k)
  {
    if |a| > 0 {
      assert (a + b)[0] == a[0] && (a + b)[1..] == a[1..] + b;
      GetAppend(a[1..], b, k);
    } else {
      assert a + b == b;
    }
  }

  /** A member list of at most one member with key `k`, put before a list
      without `k`, gives distinct keys when the list has them. */
  lemma DistinctPrepend(h: seq<Member>, rest: seq<Member>, k: string)
    requires |h| <= 1 && (|h| == 1 ==> h[0].0 == k)
    requires !Has(rest, k) && DistinctMemberKeys(rest)
    ensures DistinctMemberKeys(h + rest)
  {
    if |h| == 1 {
      assert h == [h[0]];
      ConsDistinct(h[0], rest);
    } else {
      assert h + rest == rest;
    }
  }

  lemma ConsDistinct(m: Member, rest: seq<Member>)
    requires !Has(rest, m.0) && DistinctMemberKeys(rest)
    ensures DistinctMemberKeys([m] + rest)
  {
    var r := [m] + rest;
    forall i, j | 0 <= i < j < |r|
      ensures r[i].0 != r[j].0
    {
      assert r[j] == rest[j - 1];
      if i == 0 {
        assert MemberKeys(rest)[j - 1] == rest[j - 1].0;
      } else {
        assert r[i] == rest[i - 1];
      }
    }
  }

  lemma MemberKeysAppend(a: seq<Member>, b: seq<Member>)
    ensures MemberKeys(a + b) == MemberKeys(a) + MemberKeys(b)
  {
  }

  lemma {:induction false} AddMemberOther(ms: seq<Member>, k: string, v: Json, k': string)
    requires k' != k
    ensures Has(AddMember(ms, k, v), k') <==> Has(ms, k')
    ensures Has(ms, k') ==> Get(AddMember(ms, k, v), k') == Get(ms, k')
  {
    if |ms| > 0 && ms[0].0 != k {
      var r := AddMember(ms, k, v);
      assert r[0] == ms[0] && r[1..] == AddMember(ms[1..], k, v);
      AddMemberOther(ms[1..], k, v, k');
    }
  }

  /** A value read back after `add` under another key is the old one. */
  lemma GetPutOther(ms: seq<Member>, k: string, v: Json, k': string)
    requires k' != k
    ensures Has(Put(ms, k, v), k') <==> Has(ms, k')
    ensures Has(ms, k') ==> Get(Put(ms, k, v), k') == Get(ms, k')
  {
    AddMemberOther(ms, k, v, k');
  }

  /** `remove` leaves the other keys readable with their old values. */
  lemma {:induction false} GetRemoveOther(ms: seq<Member>, k: string, k': string)
    requires k' != k
    ensures Has(Remove(ms, k), k') <==> Has(ms, k')
    ensures Has(ms, k') ==> Get(Remove(ms, k), k') == Get(ms, k')
  {
    if |ms| > 0 && ms[0].0 != k {
      var r := Remove(ms, k);
      assert r[0] == ms[0] && r[1..] == Remove(ms[1..], k);
      GetRemoveOther(ms[1..], k, k');
    }
  }

  /** `add` keeps the keys of an object distinct. */
  lemma PutKeepsDistinct(ms: seq<Member>, k: string, v: Json)
    requires DistinctMemberKeys(ms)
    ensures DistinctMemberKeys(Put(ms, k, v))
  {
    var r := Put(ms, k, v);
    assert forall i :: 0 <= i < |r| ==> r[i].0 == MemberKeys(r)[i];
    assert forall i :: 0 <= i < |ms| ==> ms[i].0 == MemberKeys(ms)[i];
  }

  /** `remove` keeps the keys of an object distinct and drops exactly the removed key. */
  lemma {:induction false} RemoveKeepsDistinct(ms: seq<Member>, k: string)
    requires DistinctMemberKeys(ms)
    ensures DistinctMemberKeys(Remove(ms, k))
    ensures MemberKeys(Remove(ms, k)) == RemoveKey(MemberKeys(ms), k)
  {
    if |ms| > 0 {
      RemoveKeepsDistinct(ms[1..], k);
      var r := Remove(ms, k);
      if ms[0].0 != k {
        assert r[0] == ms[0] && r[1..] == Remove(ms[1..], k);
        assert !Has(ms[1..], ms[0].0);
        GetRemoveOther(ms[1..], k, ms[0].0);
        assert MemberKeys(r) == [ms[0].0] + MemberKeys(r[1..]);
      } else {
        assert !Has(ms[1..], k);
      }
    }
  }

  /** The keys `ks` without `k`, in order. */
  function RemoveKey(ks: seq<string>, k: string): (r: seq<string>)
    ensures forall x :: x in r <==> x in ks && x != k
  {
    if |ks| == 0 then []
    else if ks[0] == k then RemoveKey(ks[1..], k)
    else [ks[0]] + RemoveKey(ks[1..], k)
  }

  /** In an object with distinct keys, the first member's key does not recur. */
  lemma HeadKeyUnique(ms: seq<Member>)
    requires DistinctMemberKeys(ms) && |ms| > 0
    ensures !Has(ms[1..], ms[0].0) && DistinctMemberKeys(ms[1..])
  {
  }

  /** In an object with distinct keys, `get` returns the value of the one member with that key. */
  lemma GetAt(ms: seq<Member>, i: nat)
    requires DistinctMemberKeys(ms) && i < |ms|
    ensures Has(ms, ms[i].0) && Get(ms, ms[i].0) == ms[i].1
  {
    assert MemberKeys(ms)[i] == ms[i].0;
  }
}
