/** Parsed TOML values, and the merge of two lists of them. */
module KeyedLists {
  import opened Wrappers

  datatype Scalar =
    | Str(s: string)
    | Int(n: int)
    | Bool(b: bool)
    | Float(x: real)
    | Stamp(text: string)   // TOML dates and times

  /** A parsed TOML value. A table keeps its keys in insertion order, as a Python dict does. */
  datatype Val =
    | Leaf(scalar: Scalar)
    | Table(keys: seq<string>, vals: map<string, Val>)
    | Items(items: seq<Val>)

  predicate Distinct<T(==)>(s: seq<T>) {
    forall i, j | 0 <= i < j < |s| :: s[i] != s[j]
  }

  ghost predicate WellFormed(v: Val) {
    match v
    case Leaf(_) => true
    case Table(keys, vals) =>
      Distinct(keys) && (forall k :: k in keys <==> k in vals) && forall k | k in vals :: WellFormed(vals[k])
    case Items(items) => forall x | x in items :: WellFormed(x)
  }

  // ---------------------------------------------------------------- merging lists

  /** A dict key up to Python equality: `1`, `1.0` and `True` are one key; tables and lists cannot be hashed. */
  datatype Key = KStr(s: string) | KNum(x: real) | KStamp(text: string) | Unhashable(v: Val)

  function KeyOf(v: Val): Key {
    match v
    case Leaf(Str(s)) => KStr(s)
    case Leaf(Int(n)) => KNum(n as real)
    case Leaf(Bool(b)) => KNum(if b then 1.0 else 0.0)
    case Leaf(Float(x)) => KNum(x)
    case Leaf(Stamp(t)) => KStamp(t)
    case _ => Unhashable(v)
  }

  predicate Has(item: Val, field: string) {
    item.Table? && field in item.vals
  }

  function ItemKey(item: Val, field: string): Key
    requires Has(item, field)
  {
    KeyOf(item.vals[field])
  }

  predicate AllHave(items: seq<Val>, field: string) {
    forall x | x in items :: Has(x, field)
  }

  /** The identifier every item of a non-empty list of tables carries: `code` before `id`. */
  function Detect(items: seq<Val>): Option<string> {
    if items == [] then None
    else if AllHave(items, "code") then Some("code")
    else if AllHave(items, "id") then Some("id")
    else None
  }

  /** A merge is keyed by `code` exactly when there are items, all of them tables with a `code`; by `id` when
      not, but all are tables with an `id`. */
  lemma DetectExact(items: seq<Val>)
    ensures Detect(items) == Some("code") <==> items != [] && forall x | x in items :: x.Table? && "code" in x.vals
    ensures Detect(items) == Some("id") <==>
            items != [] && (forall x | x in items :: x.Table? && "id" in x.vals) &&
            exists x :: x in items && !(x.Table? && "code" in x.vals)
    ensures Detect(items) in {Some("code"), Some("id"), None}
  {
    assert forall x, field :: Has(x, field) <==> x.Table? && field in x.vals;
  }

  /** The number a value is to Python's `==`: a Boolean is 0 or 1. */
  function AsNumber(v: Val): Option<real> {
    match v
    case Leaf(Int(n)) => Some(n as real)
    case Leaf(Float(x)) => Some(x)
    case Leaf(Bool(b)) => Some(if b then 1.0 else 0.0)
    case _ => None
  }

  /** Two values are one dict key exactly when they are equal, or are equal as numbers; lists and tables are
      no keys. */
  lemma SameKeyExactly(u: Val, v: Val)
    ensures KeyOf(u) == KeyOf(v) <==> u == v || (AsNumber(u).Some? && AsNumber(u) == AsNumber(v))
    ensures KeyOf(u).Unhashable? <==> !u.Leaf?
  {
  }

  /** So for the keys of two items: their values under the field are compared. */
  lemma ItemKeysExactly(u: Val, v: Val, field: string)
    requires Has(u, field) && Has(v, field)
    ensures ItemKey(u, field) == ItemKey(v, field) <==>
            u.vals[field] == v.vals[field] ||
            (AsNumber(u.vals[field]).Some? && AsNumber(u.vals[field]) == AsNumber(v.vals[field]))
  {
    SameKeyExactly(u.vals[field], v.vals[field]);
  }

  function Tables(items: seq<Val>): seq<Val> {
    if items == [] then []
    else Tables(items[..|items| - 1]) + if items[|items| - 1].Table? then [items[|items| - 1]] else []
  }

  /** The last position in `r` that holds key `k`. */
  function LastAt(r: seq<Val>, field: string, k: Key): (i: Option<nat>)
    ensures i.Some? ==> i.value < |r| && Has(r[i.value], field) && ItemKey(r[i.value], field) == k
  {
    if r == [] then None
    else if Has(r[|r| - 1], field) && ItemKey(r[|r| - 1], field) == k then Some(|r| - 1)
    else LastAt(r[..|r| - 1], field, k)
  }

  lemma {:induction false} LastAtIsLast(r: seq<Val>, field: string, k: Key)
    ensures forall j | 0 <= j < |r| && Has(r[j], field) && ItemKey(r[j], field) == k ::
              LastAt(r, field, k).Some? && j <= LastAt(r, field, k).value
  {
    if r != [] { LastAtIsLast(r[..|r| - 1], field, k); }
  }

  /** One override item: it replaces the item with its key, or is appended. */
  function Put(r: seq<Val>, item: Val, field: string): seq<Val> {
    if Has(item, field) && LastAt(r, field, ItemKey(item, field)).Some?
    then r[LastAt(r, field, ItemKey(item, field)).value := item]
    else r + [item]
  }

  function PutAll(r: seq<Val>, items: seq<Val>, field: string): seq<Val> {
    if items == [] then r
    else Put(PutAll(r, items[..|items| - 1], field), items[|items| - 1], field)
  }

  function MergeLists(base: seq<Val>, over: seq<Val>): seq<Val> {
    match Detect(base + over)
    case Some(field) => PutAll(Tables(base), over, field)
    case None => base + over
  }

  predicate UnhashableKey(item: Val, field: string) {
    Has(item, field) && ItemKey(item, field).Unhashable?
  }

  /** An item cannot be indexed exactly when it is a table whose value under the field is a table or a list. */
  lemma UnhashableExact(item: Val, field: string)
    ensures UnhashableKey(item, field) <==> item.Table? && field in item.vals && !item.vals[field].Leaf?
  {
  }

  datatype TypeError = UnhashableType

  /** The index map agrees with the list it indexes. */
  ghost predicate IndexExact(result: seq<Val>, index: map<Key, nat>, field: string) {
    forall k :: && (k in index <==> LastAt(result, field, k).Some?)
                && (k in index ==> LastAt(result, field, k) == Some(index[k]))
  }

  lemma LastAtAppend(r: seq<Val>, item: Val, field: string, k: Key)
    ensures LastAt(r + [item], field, k) ==
            if Has(item, field) && ItemKey(item, field) == k then Some(|r|) else LastAt(r, field, k)
  {
    assert (r + [item])[..|r|] == r;
  }

  lemma {:induction false} LastAtReplace(r: seq<Val>, i: nat, item: Val, field: string, k: Key)
    requires i < |r| && Has(item, field) && Has(r[i], field) && ItemKey(item, field) == ItemKey(r[i], field)
    ensures LastAt(r[i := item], field, k) == LastAt(r, field, k)
  {
    var n := |r| - 1;
    if i == n {
      assert r[i := item][..n] == r[..n];
    } else {
      assert r[i := item][..n] == r[..n][i := item];
      LastAtReplace(r[..n], i, item, field, k);
    }
  }

  lemma IndexAppend(result: seq<Val>, index: map<Key, nat>, item: Val, field: string)
    requires IndexExact(result, index, field)
    ensures var next := if Has(item, field) then index[ItemKey(item, field) := |result|] else index;
            IndexExact(result + [item], next, field)
  {
    forall k { LastAtAppend(result, item, field, k); }
  }

  lemma IndexReplace(result: seq<Val>, index: map<Key, nat>, item: Val, field: string)
    requires IndexExact(result, index, field) && Has(item, field) && ItemKey(item, field) in index
    ensures index[ItemKey(item, field)] < |result|
    ensures Put(result, item, field) == result[index[ItemKey(item, field)] := item]
    ensures IndexExact(Put(result, item, field), index, field)
  {
    forall k { LastAtReplace(result, index[ItemKey(item, field)], item, field, k); }
  }

  lemma TablesSnoc(items: seq<Val>, item: Val)
    ensures Tables(items + [item]) == Tables(items) + if item.Table? then [item] else []
  {
    assert (items + [item])[..|items|] == items;
  }

  lemma PutAllSnoc(r: seq<Val>, items: seq<Val>, item: Val, field: string)
    ensures PutAll(r, items + [item], field) == Put(PutAll(r, items, field), item, field)
  {
    assert (items + [item])[..|items|] == items;
  }

  /** `_merge_by_key`: two loops over a growing list and a dict of positions into it. */
  method MergeByKey(base: seq<Val>, over: seq<Val>, field: string) returns (r: Result<seq<Val>, TypeError>)
    ensures r.Err? <==> exists x :: x in base + over && UnhashableKey(x, field)
    ensures r.Ok? ==> r.value == PutAll(Tables(base), over, field)
  {
    var result: seq<Val> := [];
    var index: map<Key, nat> := map[];
    for i := 0 to |base|
      invariant result == Tables(base[..i])
      invariant IndexExact(result, index, field)
      invariant forall x | x in base[..i] :: !UnhashableKey(x, field)
    {
      var item := base[i];
      assert base[..i + 1] == base[..i] + [item];
      TablesSnoc(base[..i], item);
      if item.Table? {
        IndexAppend(result, index, item, field);
        if field in item.vals {
          if ItemKey(item, field).Unhashable? {
            assert item in base + over;
            return Err(UnhashableType);
          }
          index := index[ItemKey(item, field) := |result|];
        }
        result := result + [item];
      }
    }
    assert base[..|base|] == base;
    for i := 0 to |over|
      invariant result == PutAll(Tables(base), over[..i], field)
      invariant IndexExact(result, index, field)
      invariant forall x | x in over[..i] :: !UnhashableKey(x, field)
    {
      var item := over[i];
      assert over[..i + 1] == over[..i] + [item];
      PutAllSnoc(Tables(base), over[..i], item, field);
      if !item.Table? {
        IndexAppend(result, index, item, field);
        result := result + [item];
      } else {
        if field in item.vals && ItemKey(item, field).Unhashable? {
          assert item in base + over;
          return Err(UnhashableType);
        }
        if field in item.vals && ItemKey(item, field) in index {
          IndexReplace(result, index, item, field);
          result := result[index[ItemKey(item, field)] := item];
        } else {
          IndexAppend(result, index, item, field);
          if field in item.vals {
            index := index[ItemKey(item, field) := |result|];
          }
          result := result + [item];
        }
      }
    }
    assert over[..|over|] == over;
    r := Ok(result);
  }

  // ---------------------------------------------------------------- what a keyed merge holds

  function KeysOf(items: seq<Val>, field: string): seq<Key>
    requires AllHave(items, field)
  {
    seq(|items|, i requires 0 <= i < |items| => assert items[i] in items; ItemKey(items[i], field))
  }

  /** The keys of `ks` not in `seen`, each once, in order of first appearance. */
  function NewKeys(ks: seq<Key>, seen: seq<Key>): (r: seq<Key>)
    ensures forall k :: k in r <==> k in ks && k !in seen
    ensures Distinct(r)
  {
    if ks == [] then []
    else
      var front, last := NewKeys(ks[..|ks| - 1], seen), ks[|ks| - 1];
      assert forall k :: k in ks <==> k in ks[..|ks| - 1] || k == last;
      if last in seen || last in front then front else front + [last]
  }

  lemma {:induction false} TablesAll(items: seq<Val>, field: string)
    requires AllHave(items, field)
    ensures Tables(items) == items
  {
    if items != [] {
      assert items == items[..|items| - 1] + [items[|items| - 1]];
      assert items[|items| - 1] in items;
      TablesAll(items[..|items| - 1], field);
    }
  }

  lemma {:induction false} PutAllHave(r: seq<Val>, over: seq<Val>, field: string)
    requires AllHave(r, field) && AllHave(over, field)
    ensures AllHave(PutAll(r, over, field), field)
  {
    if over != [] {
      assert over[|over| - 1] in over;
      PutAllHave(r, over[..|over| - 1], field);
    }
  }

  lemma KeyInList(items: seq<Val>, field: string, k: Key)
    requires AllHave(items, field)
    ensures k in KeysOf(items, field) <==> LastAt(items, field, k).Some?
  {
    LastAtIsLast(items, field, k);
    assert forall i | 0 <= i < |items| :: items[i] in items && KeysOf(items, field)[i] == ItemKey(items[i], field);
  }

  /** No later item of the list has the key of the item at `i`. */
  predicate LastPlace(items: seq<Val>, i: int, field: string)
    requires AllHave(items, field) && 0 <= i < |items|
  {
    forall j | i < j < |items| :: KeysOf(items, field)[j] != KeysOf(items, field)[i]
  }

  /** The item that ends up in place `i` of the base: the last override item with its key, when it is the
      last place of that key. */
  function Heir(base: seq<Val>, over: seq<Val>, field: string, i: int): Val
    requires AllHave(base, field) && 0 <= i < |base|
  {
    if LastPlace(base, i, field) && LastAt(over, field, KeysOf(base, field)[i]).Some?
    then over[LastAt(over, field, KeysOf(base, field)[i]).value]
    else base[i]
  }

  function Newcomer(over: seq<Val>, field: string, k: Key): Val
    requires LastAt(over, field, k).Some?
  {
    over[LastAt(over, field, k).value]
  }

  /** A keyed merge read off the keys: every base place with its heir, then one item for each new key in
      order of first appearance, the last one with that key. */
  function Placed(base: seq<Val>, over: seq<Val>, field: string): (r: seq<Val>)
    requires AllHave(base, field) && AllHave(over, field)
    ensures |r| == |base| + |NewKeys(KeysOf(over, field), KeysOf(base, field))|
  {
    var added := NewKeys(KeysOf(over, field), KeysOf(base, field));
    seq(|base|, i requires 0 <= i < |base| => Heir(base, over, field, i)) +
    seq(|added|, j requires 0 <= j < |added| => KeyInList(over, field, added[j]); Newcomer(over, field, added[j]))
  }

  /** `r` has the base keys, then the new ones, and the items of `Placed`. */
  ghost predicate KeyedResult(r: seq<Val>, base: seq<Val>, over: seq<Val>, field: string)
    requires AllHave(base, field) && AllHave(over, field)
  {
    && AllHave(r, field)
    && KeysOf(r, field) == KeysOf(base, field) + NewKeys(KeysOf(over, field), KeysOf(base, field))
    && r == Placed(base, over, field)
  }

  lemma NewKeysSnoc(ks: seq<Key>, k: Key, seen: seq<Key>)
    ensures NewKeys(ks + [k], seen) ==
            NewKeys(ks, seen) + if k in seen || k in NewKeys(ks, seen) then [] else [k]
  {
    assert (ks + [k])[..|ks|] == ks;
  }

  lemma KeysSnoc(items: seq<Val>, item: Val, field: string)
    requires AllHave(items, field) && Has(item, field)
    ensures AllHave(items + [item], field)
    ensures KeysOf(items + [item], field) == KeysOf(items, field) + [ItemKey(item, field)]
  {
    assert forall x | x in items + [item] :: x in items || x == item;
  }

  lemma PutKeys(r: seq<Val>, item: Val, field: string)
    requires AllHave(r, field) && Has(item, field)
    ensures AllHave(Put(r, item, field), field)
    ensures KeysOf(Put(r, item, field), field) ==
            KeysOf(r, field) + if ItemKey(item, field) in KeysOf(r, field) then [] else [ItemKey(item, field)]
  {
    var k, s := ItemKey(item, field), Put(r, item, field);
    KeyInList(r, field, k);
    if LastAt(r, field, k).Some? {
      forall x | x in s ensures Has(x, field) {}
      forall i | 0 <= i < |r| ensures KeysOf(s, field)[i] == KeysOf(r, field)[i] { assert r[i] in r && s[i] in s; }
      assert KeysOf(s, field) == KeysOf(r, field) + [];
    } else {
      KeysSnoc(r, item, field);
    }
  }

  lemma NewKeysGrow(seen: seq<Key>, ks: seq<Key>, k: Key)
    ensures seen + NewKeys(ks + [k], seen) ==
            (seen + NewKeys(ks, seen)) + if k in seen + NewKeys(ks, seen) then [] else [k]
  {
    NewKeysSnoc(ks, k, seen);
    var added := NewKeys(ks, seen);
    hide NewKeys;
    assert k in seen + added <==> k in seen || k in added;
    assert (seen + added) + [k] == seen + (added + [k]);
    assert (seen + added) + [] == seen + (added + []);
  }

  lemma KeyedStepKeys(r: seq<Val>, base: seq<Val>, front: seq<Val>, item: Val, field: string)
    requires AllHave(base, field) && AllHave(front, field) && Has(item, field)
    requires AllHave(r, field)
    requires KeysOf(r, field) == KeysOf(base, field) + NewKeys(KeysOf(front, field), KeysOf(base, field))
    ensures AllHave(Put(r, item, field), field) && AllHave(front + [item], field)
    ensures KeysOf(Put(r, item, field), field) ==
            KeysOf(base, field) + NewKeys(KeysOf(front + [item], field), KeysOf(base, field))
  {
    hide AllHave, KeysOf, Put;
    PutKeys(r, item, field);
    KeysSnoc(front, item, field);
    NewKeysGrow(KeysOf(base, field), KeysOf(front, field), ItemKey(item, field));
  }

  /** Position `i` holds the last `k` of a list of keys. */
  predicate LastKey(ks: seq<Key>, k: Key, i: int) {
    0 <= i < |ks| && ks[i] == k && forall j | i < j < |ks| :: ks[j] != k
  }

  lemma LastAtKey(items: seq<Val>, field: string, k: Key, i: nat)
    requires AllHave(items, field)
    ensures LastAt(items, field, k) == Some(i) <==> LastKey(KeysOf(items, field), k, i)
  {
    LastAtIsLast(items, field, k);
    forall j | 0 <= j < |items| ensures Has(items[j], field) && KeysOf(items, field)[j] == ItemKey(items[j], field) {
      assert items[j] in items;
    }
  }

  lemma LastKeyConcat(a: seq<Key>, b: seq<Key>, k: Key, i: int)
    requires Distinct(b) && forall x | x in b :: x !in a
    ensures LastKey(a + b, k, i) <==>
            0 <= i < |a + b| && (a + b)[i] == k && (i < |a| ==> forall j | i < j < |a| :: a[j] != k)
  {
    var ks := a + b;
    assert forall j | 0 <= j < |a| :: ks[j] == a[j] && a[j] in a;
    assert forall j | |a| <= j < |ks| :: ks[j] == b[j - |a|] && b[j - |a|] in b;
  }

  /** Where an override item goes in a list that `KeyedResult` describes. */
  lemma KeyedTarget(r: seq<Val>, base: seq<Val>, front: seq<Val>, field: string, k: Key, i: nat)
    requires AllHave(base, field) && AllHave(front, field) && KeyedResult(r, base, front, field) && i < |r|
    ensures KeysOf(r, field)[i] == k && (i < |base| ==> LastPlace(base, i, field)) <==> LastAt(r, field, k) == Some(i)
  {
    var bs := KeysOf(base, field);
    LastAtKey(r, field, k, i);
    LastKeyConcat(bs, NewKeys(KeysOf(front, field), bs), k, i);
    hide KeyedResult, NewKeys, LastAt;
    assert i < |base| ==> KeysOf(r, field)[i] == bs[i];
  }

  lemma HeirStep(base: seq<Val>, front: seq<Val>, item: Val, field: string, i: nat)
    requires AllHave(base, field) && Has(item, field) && i < |base|
    ensures Heir(base, front + [item], field, i) ==
            if LastPlace(base, i, field) && KeysOf(base, field)[i] == ItemKey(item, field) then item
            else Heir(base, front, field, i)
  {
    LastAtAppend(front, item, field, KeysOf(base, field)[i]);
  }

  lemma NewcomerStep(front: seq<Val>, item: Val, field: string, k: Key)
    requires Has(item, field) && LastAt(front + [item], field, k).Some?
    ensures k != ItemKey(item, field) ==> LastAt(front, field, k).Some?
    ensures Newcomer(front + [item], field, k) == if k == ItemKey(item, field) then item else Newcomer(front, field, k)
  {
    LastAtAppend(front, item, field, k);
  }

  /** The item in a place of a keyed merge. */
  lemma PlacedAt(base: seq<Val>, over: seq<Val>, field: string, i: nat)
    requires AllHave(base, field) && AllHave(over, field) && i < |Placed(base, over, field)|
    ensures i < |base| ==> Placed(base, over, field)[i] == Heir(base, over, field, i)
    ensures i >= |base| ==>
              var k := (KeysOf(base, field) + NewKeys(KeysOf(over, field), KeysOf(base, field)))[i];
              LastAt(over, field, k).Some? && Placed(base, over, field)[i] == Newcomer(over, field, k)
  {
    var added := NewKeys(KeysOf(over, field), KeysOf(base, field));
    if i >= |base| {
      assert added[i - |base|] in added;
      KeyInList(over, field, added[i - |base|]);
    }
  }

  lemma KeyedStepItems(r: seq<Val>, base: seq<Val>, front: seq<Val>, item: Val, field: string, i: nat)
    requires AllHave(base, field) && AllHave(front, field) && Has(item, field) && AllHave(front + [item], field)
    requires KeyedResult(r, base, front, field) && i < |Put(r, item, field)|
    requires AllHave(Put(r, item, field), field)
    requires KeysOf(Put(r, item, field), field) ==
             KeysOf(base, field) + NewKeys(KeysOf(front + [item], field), KeysOf(base, field))
    ensures Put(r, item, field)[i] == Placed(base, front + [item], field)[i]
  {
    var k, s := ItemKey(item, field), Put(r, item, field);
    PlacedAt(base, front + [item], field, i);
    if i < |base| {
      HeirStep(base, front, item, field, i);
    } else {
      NewcomerStep(front, item, field, KeysOf(s, field)[i]);
    }
    if i < |r| {
      assert r[i] in r && s[i] in s;
      KeyedTarget(r, base, front, field, k, i);
      PlacedAt(base, front, field, i);
      assert i < |base| ==> KeysOf(r, field)[i] == KeysOf(base, field)[i];
      PutKeepsKey(r, item, field, i);
    }
    hide Placed, Heir, Newcomer, LastAt, NewKeys;
  }

  lemma PutKeepsKey(r: seq<Val>, item: Val, field: string, i: nat)
    requires AllHave(r, field) && Has(item, field) && i < |r| && AllHave(Put(r, item, field), field)
    ensures KeysOf(Put(r, item, field), field)[i] == KeysOf(r, field)[i]
  {
    assert r[i] in r && Put(r, item, field)[i] in Put(r, item, field);
  }

  /** A keyed merge, for any lists that carry the field: repeated keys in either list included. */
  lemma {:induction false} KeyedMerge(base: seq<Val>, over: seq<Val>, field: string)
    requires AllHave(base, field) && AllHave(over, field)
    ensures KeyedResult(PutAll(base, over, field), base, over, field)
  {
    if over == [] {
      assert KeysOf(base, field) + [] == KeysOf(base, field);
      assert Placed(base, over, field) == base;
    } else {
      var front, item := over[..|over| - 1], over[|over| - 1];
      assert over == front + [item] && item in over;
      KeyedMerge(base, front, field);
      var r := PutAll(base, front, field);
      KeyedStepKeys(r, base, front, item, field);
      forall i | 0 <= i < |Put(r, item, field)| { KeyedStepItems(r, base, front, item, field, i); }
      assert |KeysOf(Put(r, item, field), field)| == |Put(r, item, field)|;
    }
  }
}
