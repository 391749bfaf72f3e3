/** Which merge two lists get, and where the merged items come from. */
module ListMerge {
  import opened Wrappers
  import opened KeyedLists

  // ---------------------------------------------------------------- which merge two lists get

  lemma HaveConcat(a: seq<Val>, b: seq<Val>, field: string)
    ensures AllHave(a + b, field) <==> AllHave(a, field) && AllHave(b, field)
  {
    assert forall x :: x in a + b <==> x in a || x in b;
  }

  lemma DetectConcat(a: seq<Val>, b: seq<Val>)
    ensures Detect(a + b) ==
            if a + b == [] then None
            else if AllHave(a, "code") && AllHave(b, "code") then Some("code")
            else if AllHave(a, "id") && AllHave(b, "id") then Some("id")
            else None
  {
    HaveConcat(a, b, "code");
    HaveConcat(a, b, "id");
  }

  /** Two lists that share a field in all their items are merged by it, place by place. */
  lemma MergedBy(a: seq<Val>, b: seq<Val>, field: string)
    requires Detect(a + b) == Some(field)
    ensures AllHave(a, field) && AllHave(b, field)
    ensures MergeLists(a, b) == PutAll(a, b, field) == Placed(a, b, field)
    ensures AllHave(MergeLists(a, b), field) && (a != [] || b != [] ==> MergeLists(a, b) != [])
  {
    DetectConcat(a, b);
    TablesAll(a, field);
    KeyedMerge(a, b, field);
    PutAllLonger(a, b, field);
  }

  lemma {:induction false} PutAllLonger(r: seq<Val>, items: seq<Val>, field: string)
    ensures |PutAll(r, items, field)| >= |r| && (items != [] ==> PutAll(r, items, field) != [])
  {
    if items != [] { PutAllLonger(r, items[..|items| - 1], field); }
  }

  /** `Placed`, for lists that are merged by a field. */
  ghost function PlacedBy(a: seq<Val>, b: seq<Val>, field: string): (r: seq<Val>)
    requires Detect(a + b) == Some(field)
    ensures r == MergeLists(a, b)
  {
    MergedBy(a, b, field);
    Placed(a, b, field)
  }

  // ---------------------------------------------------------------- where merged items come from

  /** The last position of a key. */
  function LastPos(ks: seq<Key>, k: Key): (i: nat)
    requires k in ks
    ensures LastKey(ks, k, i)
  {
    if ks[|ks| - 1] == k then |ks| - 1 else LastPos(ks[..|ks| - 1], k)
  }

  /** The base place at `i` goes to an override item. */
  predicate Overridden(bs: seq<Key>, os: seq<Key>, i: int)
    requires 0 <= i < |bs|
  {
    LastKey(bs, bs[i], i) && bs[i] in os
  }

  /** For each place of a keyed merge, the position of its item in the two lists end to end, read off their
      keys alone. */
  function KeyLanding(bs: seq<Key>, os: seq<Key>): (r: seq<nat>)
    ensures |r| == |bs| + |NewKeys(os, bs)| && forall i | 0 <= i < |r| :: r[i] < |bs| + |os|
  {
    var added := NewKeys(os, bs);
    seq(|bs|, i requires 0 <= i < |bs| => if Overridden(bs, os, i) then |bs| + LastPos(os, bs[i]) else i) +
    seq(|added|, j requires 0 <= j < |added| => assert added[j] in added; |bs| + LastPos(os, added[j]))
  }

  function Identity(n: nat): seq<nat> {
    seq(n, i => i)
  }

  /** The same for the merge of any two lists: appended lists stay as they are. */
  function Landing(a: seq<Val>, b: seq<Val>): (r: seq<nat>)
    ensures forall i | 0 <= i < |r| :: r[i] < |a| + |b|
  {
    match Detect(a + b)
    case None => Identity(|a| + |b|)
    case Some(field) =>
      DetectConcat(a, b);
      KeyLanding(KeysOf(a, field), KeysOf(b, field))
  }

  /** The items at some positions. */
  function Took(items: seq<Val>, places: seq<nat>): (r: seq<Val>)
    requires forall i | 0 <= i < |places| :: places[i] < |items|
    ensures |r| == |places|
  {
    seq(|places|, i requires 0 <= i < |places| => items[places[i]])
  }

  lemma LastAtPos(items: seq<Val>, field: string, k: Key)
    requires AllHave(items, field) && k in KeysOf(items, field)
    ensures LastAt(items, field, k) == Some(LastPos(KeysOf(items, field), k))
  {
    LastAtKey(items, field, k, LastPos(KeysOf(items, field), k));
  }

  lemma BaseLands(base: seq<Val>, over: seq<Val>, field: string, i: nat)
    requires AllHave(base, field) && AllHave(over, field) && i < |base|
    ensures Heir(base, over, field, i) == (base + over)[KeyLanding(KeysOf(base, field), KeysOf(over, field))[i]]
  {
    hide Placed, NewKeys, LastAt;
    var bs, os := KeysOf(base, field), KeysOf(over, field);
    KeyInList(over, field, bs[i]);
    if bs[i] in os { LastAtPos(over, field, bs[i]); }
  }

  lemma NewLands(base: seq<Val>, over: seq<Val>, field: string, j: nat)
    requires AllHave(base, field) && AllHave(over, field)
    requires j < |NewKeys(KeysOf(over, field), KeysOf(base, field))|
    ensures var k := NewKeys(KeysOf(over, field), KeysOf(base, field))[j];
            LastAt(over, field, k).Some? &&
            Newcomer(over, field, k) ==
              (base + over)[KeyLanding(KeysOf(base, field), KeysOf(over, field))[|base| + j]]
  {
    hide Placed, LastAt;
    var added := NewKeys(KeysOf(over, field), KeysOf(base, field));
    assert added[j] in added;
    LastAtPos(over, field, added[j]);
  }

  lemma LandsInPlace(base: seq<Val>, over: seq<Val>, field: string, i: nat)
    requires AllHave(base, field) && AllHave(over, field) && i < |Placed(base, over, field)|
    ensures Placed(base, over, field)[i] == (base + over)[KeyLanding(KeysOf(base, field), KeysOf(over, field))[i]]
  {
    var bs, os := KeysOf(base, field), KeysOf(over, field);
    PlacedAt(base, over, field, i);
    if i < |base| {
      BaseLands(base, over, field, i);
    } else {
      NewLands(base, over, field, i - |base|);
      assert (bs + NewKeys(os, bs))[i] == NewKeys(os, bs)[i - |base|];
    }
    hide Placed, KeyLanding, Heir, Newcomer, NewKeys;
  }

  /** A merge takes its items from where they land. */
  lemma MergeLands(a: seq<Val>, b: seq<Val>)
    ensures MergeLists(a, b) == Took(a + b, Landing(a, b))
  {
    match Detect(a + b)
    case None =>
    case Some(field) =>
      MergedBy(a, b, field);
      forall i: nat | i < |Placed(a, b, field)| { LandsInPlace(a, b, field, i); }
      hide Placed, KeyLanding, MergeLists;
  }

  // ---------------------------------------------------------------- lists that carry the same keys

  predicate SameKey(u: Val, v: Val, field: string) {
    (Has(u, field) <==> Has(v, field)) && (Has(u, field) ==> ItemKey(u, field) == ItemKey(v, field))
  }

  /** Place by place, the items carry the same fields and the same keys in them. */
  predicate SameKeys(a: seq<Val>, b: seq<Val>) {
    |a| == |b| && forall i | 0 <= i < |a| :: SameKey(a[i], b[i], "code") && SameKey(a[i], b[i], "id")
  }

  lemma SameHave(a: seq<Val>, b: seq<Val>, field: string)
    requires SameKeys(a, b) && (field == "code" || field == "id")
    ensures AllHave(a, field) <==> AllHave(b, field)
    ensures AllHave(a, field) ==> KeysOf(a, field) == KeysOf(b, field)
  {
    forall i | 0 <= i < |a| ensures SameKey(a[i], b[i], field) && a[i] in a && b[i] in b {}
  }

  lemma SameConcat(a: seq<Val>, b: seq<Val>, a': seq<Val>, b': seq<Val>)
    requires SameKeys(a, a') && SameKeys(b, b')
    ensures SameKeys(a + b, a' + b')
  {
  }

  /** Where merged items come from depends on keys alone, and so do the keys of the merged list. */
  lemma LandingByKeys(a: seq<Val>, b: seq<Val>, a': seq<Val>, b': seq<Val>)
    requires SameKeys(a, a') && SameKeys(b, b')
    ensures Landing(a, b) == Landing(a', b')
    ensures SameKeys(Took(a + b, Landing(a, b)), Took(a' + b', Landing(a', b')))
  {
    hide KeyLanding;
    SameConcat(a, b, a', b');
    SameHave(a + b, a' + b', "code");
    SameHave(a + b, a' + b', "id");
    SameHave(a, a', "code");
    SameHave(b, b', "code");
    SameHave(a, a', "id");
    SameHave(b, b', "id");
    DetectConcat(a, b);
    DetectConcat(a', b');
  }
}
