/** When layers can be merged in either grouping. */
module Regroup {
  import opened Wrappers
  import opened KeyedLists
  import opened ConfigMerge
  import opened ListMerge
  import opened ListRegroup

  // ---------------------------------------------------------------- layers that add nothing

  /** Merging the list `z` over `x` gives `z`: they are keyed alike, `z` starts with the keys of `x` and goes
      on with new keys, and `x` agrees with it wherever a later place has the same key. */
  ghost predicate ListAbsorbed(x: seq<Val>, z: seq<Val>) {
    match Detect(x + z)
    case None => x == []
    case Some(field) =>
      DetectConcat(x, z);
      var xs, zs := KeysOf(x, field), KeysOf(z, field);
      && xs <= zs && New(zs[|x|..], xs)
      && (forall i | 0 <= i < |x| :: LastPlace(x, i, field) || x[i] == z[i])
  }

  /** Distinct keys, none of them among `seen`. */
  predicate New(ks: seq<Key>, seen: seq<Key>) {
    Distinct(ks) && forall k | k in ks :: k !in seen
  }

  lemma {:induction false} NewKeysNone(ks: seq<Key>, seen: seq<Key>)
    requires forall k | k in ks :: k in seen
    ensures NewKeys(ks, seen) == []
  {
    if ks != [] {
      assert ks[|ks| - 1] in ks;
      NewKeysNone(ks[..|ks| - 1], seen);
    }
  }

  lemma {:induction false} NewKeysTail(a: seq<Key>, b: seq<Key>)
    requires New(b, a)
    ensures NewKeys(a + b, a) == b
  {
    if b == [] {
      assert a + b == a;
      NewKeysNone(a, a);
    } else {
      var front, last := b[..|b| - 1], b[|b| - 1];
      assert b == front + [last] && last in b;
      NewKeysTail(a, front);
      assert a + b == (a + front) + [last];
      NewKeysSnoc(a + front, last, a);
      assert last !in front;
    }
  }

  /** Where the keys go on with new ones, the last item with a key is the one in its last place. */
  lemma AbsorbedLast(x: seq<Val>, z: seq<Val>, field: string, i: nat)
    requires AllHave(x, field) && AllHave(z, field) && KeysOf(x, field) <= KeysOf(z, field) && i < |z|
    requires New(KeysOf(z, field)[|x|..], KeysOf(x, field)) && (i < |x| ==> LastPlace(x, i, field))
    ensures LastAt(z, field, KeysOf(z, field)[i]) == Some(i)
  {
    var xs, zs := KeysOf(x, field), KeysOf(z, field);
    assert zs == xs + zs[|x|..];
    LastKeyConcat(xs, zs[|x|..], zs[i], i);
    LastAtKey(z, field, zs[i], i);
    assert i < |x| ==> xs[i] == zs[i];
  }

  lemma AbsorbedIsPlaced(x: seq<Val>, z: seq<Val>, field: string)
    requires Detect(x + z) == Some(field) && ListAbsorbed(x, z)
    ensures AllHave(x, field) && AllHave(z, field) && Placed(x, z, field) == z
  {
    DetectConcat(x, z);
    var xs, zs, r := KeysOf(x, field), KeysOf(z, field), Placed(x, z, field);
    assert zs == xs + zs[|x|..];
    NewKeysTail(xs, zs[|x|..]);
    forall i: nat | i < |z| ensures r[i] == z[i] {
      PlacedAt(x, z, field, i);
      assert i < |x| ==> xs[i] == zs[i];
      if i < |x| ==> LastPlace(x, i, field) { AbsorbedLast(x, z, field, i); }
    }
  }

  lemma PlacedIsAbsorbed(x: seq<Val>, z: seq<Val>, field: string)
    requires Detect(x + z) == Some(field) && MergeLists(x, z) == z
    ensures ListAbsorbed(x, z)
  {
    MergedBy(x, z, field);
    KeyedMerge(x, z, field);
    var xs, zs := KeysOf(x, field), KeysOf(z, field);
    assert zs[|x|..] == NewKeys(zs, xs);
    forall i: nat | i < |x| ensures LastPlace(x, i, field) || x[i] == z[i] {
      PlacedAt(x, z, field, i);
    }
  }

  lemma ListAbsorbedExactly(x: seq<Val>, z: seq<Val>)
    ensures MergeLists(x, z) == z <==> ListAbsorbed(x, z)
  {
    match Detect(x + z)
    case None =>
      assert [] + z == z;
      CancelBack(x, [], z);
    case Some(field) =>
      MergedBy(x, z, field);
      if ListAbsorbed(x, z) { AbsorbedIsPlaced(x, z, field); }
      if MergeLists(x, z) == z { PlacedIsAbsorbed(x, z, field); }
  }

  /** Merging `c` over `a` gives `c`: wherever both have a table, the keys of `c` start with those of `a`. */
  ghost predicate Absorbed(a: Val, c: Val) {
    match (a, c)
    case (Table(ak, av), Table(ck, cv)) => ak <= ck && forall k | k in av && k in cv :: Absorbed(av[k], cv[k])
    case (Items(x), Items(z)) => ListAbsorbed(x, z)
    case _ => true
  }

  lemma {:induction false} FreshNone(keys: seq<string>, taken: set<string>)
    requires forall k | k in keys :: k in taken
    ensures Fresh(keys, taken) == []
  {
    if keys != [] {
      assert keys[|keys| - 1] in keys;
      FreshNone(keys[..|keys| - 1], taken);
    }
  }

  lemma {:induction false} FreshAll(a: seq<string>, b: seq<string>, taken: set<string>)
    requires (forall k | k in a :: k in taken) && forall k | k in b :: k !in taken
    ensures Fresh(a + b, taken) == b
  {
    if b == [] {
      assert a + b == a;
      FreshNone(a, taken);
    } else {
      var front, last := b[..|b| - 1], b[|b| - 1];
      assert last in b && a + b == (a + front) + [last] && b == front + [last];
      FreshAll(a, front, taken);
      FreshSnoc(a + front, last, taken);
    }
  }

  lemma DistinctParts(a: seq<string>, b: seq<string>)
    requires Distinct(a + b)
    ensures forall k | k in b :: k !in a
  {
    forall i, j | 0 <= i < |a| && 0 <= j < |b| ensures a[i] != b[j] {
      assert (a + b)[i] == a[i] && (a + b)[|a| + j] == b[j];
    }
  }

  /** The merged keys are the override's exactly when they start with the base's. */
  lemma KeysAbsorbed(ak: seq<string>, ck: seq<string>, av: set<string>)
    requires Distinct(ck) && forall k :: k in ak <==> k in av
    ensures ak + Fresh(ck, av) == ck <==> ak <= ck
  {
    if ak <= ck {
      var rest := ck[|ak|..];
      assert ck == ak + rest;
      DistinctParts(ak, rest);
      FreshAll(ak, rest, av);
    }
  }

  lemma {:induction false} AbsorbedExactly(a: Val, c: Val)
    requires WellFormed(a) && WellFormed(c)
    ensures Merge(a, c) == c <==> Absorbed(a, c)
    decreases a
  {
    match (a, c)
    case (Table(ak, av), Table(ck, cv)) =>
      forall k | k in av && k in cv ensures Merge(av[k], cv[k]) == cv[k] <==> Absorbed(av[k], cv[k]) {
        AbsorbedExactly(av[k], cv[k]);
      }
      TableAbsorbed(a, c);
    case (Items(x), Items(z)) => ListAbsorbedExactly(x, z);
    case _ =>
  }

  lemma TableAbsorbed(a: Val, c: Val)
    requires WellFormed(a) && WellFormed(c) && a.Table? && c.Table?
    ensures Merge(a, c) == c <==>
            a.keys <= c.keys && forall k | k in a.vals && k in c.vals :: Merge(a.vals[k], c.vals[k]) == c.vals[k]
  {
    var m := Merge(a, c);
    MergeTables(a, c);
    KeysAbsorbed(a.keys, c.keys, a.vals.Keys);
    if a.keys <= c.keys && forall k | k in a.vals && k in c.vals :: Merge(a.vals[k], c.vals[k]) == c.vals[k] {
      forall k ensures Look(m.vals, k) == Look(c.vals, k) {
        assert k in a.vals ==> k in a.keys && k in c.keys;
      }
      SameMap(m.vals, c.vals);
    }
    if m == c {
      forall k | k in a.vals && k in c.vals ensures Merge(a.vals[k], c.vals[k]) == c.vals[k] {
        assert Look(m.vals, k) == Combine(Look(a.vals, k), Look(c.vals, k));
      }
    }
  }

  // ---------------------------------------------------------------- regrouping documents

  lemma {:induction false} FreshFresh(b: seq<string>, c: seq<string>, av: set<string>, bv: set<string>)
    requires forall k :: k in b <==> k in bv
    ensures Fresh(b + Fresh(c, bv), av) == Fresh(b, av) + Fresh(c, av + bv)
  {
    if c == [] {
      assert b + [] == b;
    } else {
      var front, k := c[..|c| - 1], c[|c| - 1];
      assert c == front + [k];
      FreshSnoc(front, k, bv);
      FreshSnoc(front, k, av + bv);
      FreshFresh(b, front, av, bv);
      if k !in bv {
        assert b + Fresh(c, bv) == (b + Fresh(front, bv)) + [k];
        FreshSnoc(b + Fresh(front, bv), k, av);
      } else {
        assert b + Fresh(c, bv) == b + Fresh(front, bv);
      }
    }
  }

  /** What regrouping asks for, read off the layers: nothing where one of the three is silent; at a path all
      three define, tables between tables, and lists between lists that regroup. When the middle layer turns
      a table or list into something else, the first must add nothing to the last. */
  ghost predicate Regroups(a: Val, b: Val, c: Val) {
    match (a, c)
    case (Table(_, av), Table(_, cv)) =>
      if b.Table? then forall k | k in av && k in b.vals && k in cv :: Regroups(av[k], b.vals[k], cv[k])
      else Absorbed(a, c)
    case (Items(x), Items(z)) => if b.Items? then ListsRegroup(x, b.items, z) else Absorbed(a, c)
    case _ => true
  }

  ghost predicate Associates(a: Val, b: Val, c: Val) {
    Merge(Merge(a, b), c) == Merge(a, Merge(b, c))
  }

  lemma MapsAssociate(a: map<string, Val>, b: map<string, Val>, c: map<string, Val>,
                      ab: map<string, Val>, bc: map<string, Val>, l: map<string, Val>, r: map<string, Val>)
    requires forall k :: Look(ab, k) == Combine(Look(a, k), Look(b, k))
    requires forall k :: Look(bc, k) == Combine(Look(b, k), Look(c, k))
    requires forall k :: Look(l, k) == Combine(Look(ab, k), Look(c, k))
    requires forall k :: Look(r, k) == Combine(Look(a, k), Look(bc, k))
    ensures l == r <==> forall k | k in a && k in b && k in c :: Associates(a[k], b[k], c[k])
  {
    forall k ensures Look(l, k) == Look(r, k) <==> (k in a && k in b && k in c ==> Associates(a[k], b[k], c[k])) {
      assert Look(ab, k) == Combine(Look(a, k), Look(b, k));
      assert Look(bc, k) == Combine(Look(b, k), Look(c, k));
    }
    if forall k | k in a && k in b && k in c :: Associates(a[k], b[k], c[k]) {
      SameMap(l, r);
    }
  }

  lemma KeysAssociate(a: seq<string>, b: seq<string>, c: seq<string>, av: set<string>, bv: set<string>)
    requires forall k :: k in b <==> k in bv
    ensures (a + Fresh(b, av)) + Fresh(c, av + bv) == a + Fresh(b + Fresh(c, bv), av)
  {
    FreshFresh(b, c, av, bv);
  }

  lemma TablesAssociate(a: Val, b: Val, c: Val, ab: Val, bc: Val)
    requires WellFormed(b) && a.Table? && b.Table? && c.Table?
    requires ab == Merge(a, b) && bc == Merge(b, c)
    ensures Merge(ab, c) == Merge(a, bc) <==>
            forall k | k in a.vals && k in b.vals && k in c.vals :: Associates(a.vals[k], b.vals[k], c.vals[k])
  {
    KeysAssociate(a.keys, b.keys, c.keys, a.vals.Keys, b.vals.Keys);
    MergeTables(a, b);
    MergeTables(b, c);
    var l, r := Merge(ab, c), Merge(a, bc);
    MergeTables(ab, c);
    MergeTables(a, bc);
    MapsAssociate(a.vals, b.vals, c.vals, ab.vals, bc.vals, l.vals, r.vals);
  }

  /** Merging is associative, key order included, exactly for the layers that regroup. */
  lemma {:induction false} MergeAssociative(a: Val, b: Val, c: Val)
    requires WellFormed(a) && WellFormed(b) && WellFormed(c)
    ensures Merge(Merge(a, b), c) == Merge(a, Merge(b, c)) <==> Regroups(a, b, c)
    decreases a
  {
    if a.Table? && b.Table? && c.Table? {
      forall k | k in a.vals && k in b.vals && k in c.vals
        ensures Associates(a.vals[k], b.vals[k], c.vals[k]) <==> Regroups(a.vals[k], b.vals[k], c.vals[k])
      {
        MergeAssociative(a.vals[k], b.vals[k], c.vals[k]);
      }
      TablesAssociate(a, b, c, Merge(a, b), Merge(b, c));
      assert Regroups(a, b, c) <==>
             forall k | k in a.vals && k in b.vals && k in c.vals :: Regroups(a.vals[k], b.vals[k], c.vals[k]);
    } else if a.Items? && b.Items? && c.Items? {
      ListsRegroupExactly(a.items, b.items, c.items);
    } else {
      AbsorbedExactly(a, c);
    }
  }

  /** A condition that is easily met: the same kind where all three define a path, and at every list the
      same key field throughout, or none. */
  ghost predicate LayersAgree(a: Val, b: Val, c: Val) {
    match (a, c)
    case (Table(_, av), Table(_, cv)) =>
      b.Table? && forall k | k in av && k in b.vals && k in cv :: LayersAgree(av[k], b.vals[k], cv[k])
    case (Items(x), Items(z)) => b.Items? && ListsAgree(x, b.items, z)
    case _ => true
  }

  /** The lists detect one field or are empty, or none detects any; over an empty base, ids must read
      alike by code where all merged items have one. */
  ghost predicate ListsAgree(x: seq<Val>, y: seq<Val>, z: seq<Val>) {
    || (Detect(x) == None && Detect(y) == None && Detect(z) == None)
    || (DetectsAs(x, "code") && DetectsAs(y, "code") && DetectsAs(z, "code"))
    || (DetectsAs(x, "id") && DetectsAs(y, "id") && DetectsAs(z, "id") &&
        (x == [] && y + z != [] ==> (EmptyBaseExactly(y, z); EmptyBase(y, z))))
  }

  lemma AgreeingListsRegroup(x: seq<Val>, y: seq<Val>, z: seq<Val>)
    requires ListsAgree(x, y, z)
    ensures ListsRegroup(x, y, z)
  {
    ListsRegroupExactly(x, y, z);
    if Detect(x) == None && Detect(y) == None && Detect(z) == None {
      DetectNeither(x, y);
      DetectNeither(y, z);
      BothAppend(x, y, z);
    } else if DetectsAs(x, "code") && DetectsAs(y, "code") && DetectsAs(z, "code") {
      SameField(x, y, z, "code");
    } else if x != [] {
      SameField(x, y, z, "id");
    } else if y + z == [] {
      EmptyOverride([]);
    } else {
      EmptyBaseExactly(y, z);
    }
  }

  lemma DetectNeither(x: seq<Val>, y: seq<Val>)
    requires Detect(x) == None && Detect(y) == None
    ensures Detect(x + y) == None
  {
    DetectConcat(x, y);
    assert x + [] == x && [] + y == y;
    DetectConcat(x, []);
    DetectConcat([], y);
  }

  lemma {:induction false} AgreeingLayersRegroup(a: Val, b: Val, c: Val)
    requires LayersAgree(a, b, c)
    ensures Regroups(a, b, c)
    decreases a
  {
    match (a, c)
    case (Table(_, av), Table(_, cv)) =>
      forall k | k in av && k in b.vals && k in cv ensures Regroups(av[k], b.vals[k], cv[k]) {
        AgreeingLayersRegroup(av[k], b.vals[k], cv[k]);
      }
    case (Items(x), Items(z)) => AgreeingListsRegroup(x, b.items, z);
    case _ =>
  }

  // ---------------------------------------------------------------- where regrouping fails

  function One(key: string, v: Val): Val {
    Table([key], map[key := v])
  }

  /** A table, a scalar, a table: the middle layer erases the base for one grouping only. */
  lemma ScalarBetweenTables()
    ensures var a, b, c := One("x", Leaf(Int(1))), Leaf(Int(0)), One("y", Leaf(Int(2)));
            Merge(Merge(a, b), c) != Merge(a, Merge(b, c))
  {
    assert "x" in Merge(One("x", Leaf(Int(1))), One("y", Leaf(Int(2)))).keys;
  }

}
