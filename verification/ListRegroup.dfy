/** When three lists can be merged in either grouping. */
module ListRegroup {
  import opened Wrappers
  import opened KeyedLists
  import opened ListMerge

  // ---------------------------------------------------------------- keyed merges regroup

  lemma PutPut(r: seq<Val>, x: Val, y: Val, field: string)
    requires Has(x, field) && Has(y, field) && ItemKey(x, field) == ItemKey(y, field)
    ensures Put(Put(r, y, field), x, field) == Put(r, x, field)
  {
    var k := ItemKey(x, field);
    match LastAt(r, field, k)
    case Some(i) => LastAtReplace(r, i, y, field, k);
    case None => LastAtAppend(r, y, field, k);
  }

  lemma PutCommutes(r: seq<Val>, x: Val, y: Val, field: string)
    requires Has(x, field) && LastAt(r, field, ItemKey(x, field)).Some?
    requires !Has(y, field) || ItemKey(y, field) != ItemKey(x, field)
    ensures Put(Put(r, x, field), y, field) == Put(Put(r, y, field), x, field)
  {
    var i := LastAt(r, field, ItemKey(x, field)).value;
    if Has(y, field) {
      LastAtReplace(r, i, x, field, ItemKey(y, field));
    }
    if Has(y, field) && LastAt(r, field, ItemKey(y, field)).Some? {
      var j := LastAt(r, field, ItemKey(y, field)).value;
      LastAtReplace(r, j, y, field, ItemKey(x, field));
      hide LastAt;
      assert Put(Put(r, x, field), y, field) == r[i := x][j := y];
      assert Put(Put(r, y, field), x, field) == r[j := y][i := x];
      assert i != j;
    } else {
      LastAtAppend(r, y, field, ItemKey(x, field));
      hide LastAt;
      assert Put(Put(r, x, field), y, field) == r[i := x] + [y];
      assert Put(Put(r, y, field), x, field) == (r + [y])[i := x];
    }
  }

  lemma {:induction false} PutAllFinds(r: seq<Val>, items: seq<Val>, field: string, k: Key)
    requires LastAt(items, field, k).Some?
    ensures LastAt(PutAll(r, items, field), field, k).Some?
  {
    var front, last := items[..|items| - 1], items[|items| - 1];
    assert items == front + [last];
    LastAtAppend(front, last, field, k);
    var s := PutAll(r, front, field);
    if Has(last, field) && LastAt(s, field, ItemKey(last, field)).Some? {
      LastAtReplace(s, LastAt(s, field, ItemKey(last, field)).value, last, field, k);
    } else {
      LastAtAppend(s, last, field, k);
    }
    if !(Has(last, field) && ItemKey(last, field) == k) {
      PutAllFinds(r, front, field, k);
    }
  }

  /** Putting an item into an override list first, or into the merged list afterwards, is the same. */
  lemma {:induction false} PutInside(a: seq<Val>, b: seq<Val>, x: Val, field: string)
    ensures PutAll(a, Put(b, x, field), field) == Put(PutAll(a, b, field), x, field)
  {
    if Has(x, field) && LastAt(b, field, ItemKey(x, field)).Some? {
      var k := ItemKey(x, field);
      var i := LastAt(b, field, k).value;
      var front, y := b[..|b| - 1], b[|b| - 1];
      assert b == front + [y];
      LastAtAppend(front, y, field, k);
      if i == |b| - 1 {
        assert Put(b, x, field) == front + [x];
        assert (front + [x])[..|front|] == front;
        PutPut(PutAll(a, front, field), x, y, field);
      } else {
        PutInside(a, front, x, field);
        var fx := Put(front, x, field);
        assert Put(b, x, field) == fx + [y];
        assert (fx + [y])[..|fx|] == fx;
        PutAllFinds(a, front, field, k);
        PutCommutes(PutAll(a, front, field), x, y, field);
      }
    } else {
      assert (b + [x])[..|b|] == b;
    }
  }

  lemma {:induction false} PutAllRegroups(a: seq<Val>, b: seq<Val>, c: seq<Val>, field: string)
    ensures PutAll(PutAll(a, b, field), c, field) == PutAll(a, PutAll(b, c, field), field)
  {
    if c != [] {
      PutAllRegroups(a, b, c[..|c| - 1], field);
      PutInside(a, PutAll(b, c[..|c| - 1], field), c[|c| - 1], field);
    }
  }

  // ---------------------------------------------------------------- merges that replace nothing

  /** Every override item is appended: none finds its key before it. */
  ghost predicate NothingReplaced(r: seq<Val>, items: seq<Val>, field: string) {
    forall i | 0 <= i < |items| && Has(items[i], field) :: LastAt(r + items[..i], field, ItemKey(items[i], field)).None?
  }

  lemma NothingReplacedSnoc(r: seq<Val>, items: seq<Val>, x: Val, field: string)
    ensures NothingReplaced(r, items + [x], field) <==>
            NothingReplaced(r, items, field) && (Has(x, field) ==> LastAt(r + items, field, ItemKey(x, field)).None?)
  {
    var all := items + [x];
    assert all[..|items|] == items && all[|items|] == x;
    forall i | 0 <= i < |items| ensures all[..i] == items[..i] && all[i] == items[i] {}
  }

  lemma CancelBack<T>(a: seq<T>, b: seq<T>, back: seq<T>)
    ensures a + back == b + back <==> a == b
  {
    if a + back == b + back {
      assert |a| == |b|;
      assert a == (a + back)[..|a|] == (b + back)[..|b|] == b;
    }
  }

  lemma CancelFront<T>(a: seq<T>, b: seq<T>, front: seq<T>)
    ensures front + a == front + b <==> a == b
  {
    if front + a == front + b { assert a == (front + a)[|front|..] == (front + b)[|front|..] == b; }
  }

  lemma PutAppends(s: seq<Val>, whole: seq<Val>, x: Val, field: string)
    requires |s| <= |whole|
    ensures |Put(s, x, field)| <= |whole| + 1
    ensures |Put(s, x, field)| == |whole| + 1 ==> |s| == |whole| && Put(s, x, field) == s + [x]
    ensures Put(s, x, field) == whole + [x] <==>
            s == whole && (Has(x, field) ==> LastAt(whole, field, ItemKey(x, field)).None?)
  {
    if !(Has(x, field) && LastAt(s, field, ItemKey(x, field)).Some?) {
      CancelBack(s, whole, [x]);
    }
  }

  /** What is known of a merge when some items have been put: it is no longer than the lists end to end,
      and it is them exactly when nothing was replaced. */
  ghost predicate Appends(s: seq<Val>, r: seq<Val>, items: seq<Val>, field: string) {
    && |s| <= |r| + |items| && (|s| == |r| + |items| ==> s == r + items)
    && (s == r + items <==> NothingReplaced(r, items, field))
  }

  lemma AppendStep(s: seq<Val>, r: seq<Val>, front: seq<Val>, x: Val, field: string)
    requires Appends(s, r, front, field)
    ensures Appends(Put(s, x, field), r, front + [x], field)
  {
    NothingReplacedSnoc(r, front, x, field);
    PutAppends(s, r + front, x, field);
    hide NothingReplaced, Put, LastAt;
    assert r + (front + [x]) == r + front + [x];
    assert Put(s, x, field) == r + front + [x] <==> NothingReplaced(r, front + [x], field);
  }

  lemma {:induction false} PutAllAppends(r: seq<Val>, items: seq<Val>, field: string)
    ensures Appends(PutAll(r, items, field), r, items, field)
  {
    if items == [] {
      assert r + [] == r;
    } else {
      hide Appends, Put;
      var front, x := items[..|items| - 1], items[|items| - 1];
      PutAllAppends(r, front, field);
      AppendStep(PutAll(r, front, field), r, front, x, field);
      assert items == front + [x];
    }
  }

  // ---------------------------------------------------------------- lists of three

  ghost predicate SameGrouped(a: seq<Val>, b: seq<Val>, c: seq<Val>) {
    MergeLists(MergeLists(a, b), c) == MergeLists(a, MergeLists(b, c))
  }

  lemma NoLonger(a: seq<Val>, b: seq<Val>)
    ensures |MergeLists(a, b)| <= |a| + |b|
  {
    match Detect(a + b)
    case None =>
    case Some(field) =>
      MergedBy(a, b, field);
      PutAllAppends(a, b, field);
  }

  // ---------------------------------------------------------------- where the items of three lists land

  /** For each place of the three lists merged from the left, the position of its item in them end to end. */
  function LeftLanding(x: seq<Val>, y: seq<Val>, z: seq<Val>): (r: seq<nat>)
    ensures forall i | 0 <= i < |r| :: r[i] < |x| + |y| + |z|
  {
    var inner := Landing(x, y);
    var outer := Landing(Took(x + y, inner), z);
    seq(|outer|, i requires 0 <= i < |outer| =>
      if outer[i] < |inner| then inner[outer[i]] else outer[i] - |inner| + |x| + |y|)
  }

  /** The same for the three merged from the right. */
  function RightLanding(x: seq<Val>, y: seq<Val>, z: seq<Val>): (r: seq<nat>)
    ensures forall i | 0 <= i < |r| :: r[i] < |x| + |y| + |z|
  {
    var inner := Landing(y, z);
    var outer := Landing(x, Took(y + z, inner));
    seq(|outer|, i requires 0 <= i < |outer| =>
      if outer[i] < |x| then outer[i] else |x| + inner[outer[i] - |x|])
  }

  /** Both groupings take equal items. */
  predicate LandAlike(x: seq<Val>, y: seq<Val>, z: seq<Val>) {
    Took(x + y + z, LeftLanding(x, y, z)) == Took(x + y + z, RightLanding(x, y, z))
  }

  lemma GroupedLands(x: seq<Val>, y: seq<Val>, z: seq<Val>)
    ensures MergeLists(MergeLists(x, y), z) == Took(x + y + z, LeftLanding(x, y, z))
    ensures MergeLists(x, MergeLists(y, z)) == Took(x + y + z, RightLanding(x, y, z))
  {
    hide Landing, MergeLists;
    MergeLands(x, y);
    MergeLands(y, z);
    MergeLands(MergeLists(x, y), z);
    MergeLands(x, MergeLists(y, z));
  }

  lemma TookDistinct(items: seq<Val>, p: seq<nat>, q: seq<nat>)
    requires Distinct(items) && forall i | 0 <= i < |p| :: p[i] < |items|
    requires forall i | 0 <= i < |q| :: q[i] < |items|
    ensures Took(items, p) == Took(items, q) <==> p == q
  {
    if Took(items, p) == Took(items, q) {
      assert |p| == |q|;
      forall i | 0 <= i < |p| ensures p[i] == q[i] {
        assert items[p[i]] == Took(items, p)[i] == Took(items, q)[i] == items[q[i]];
      }
    }
  }

  /** Lists without a repeated item regroup exactly when both groupings take each place's item from the same
      position. */
  lemma DistinctRegroup(x: seq<Val>, y: seq<Val>, z: seq<Val>)
    requires Distinct(x + y + z)
    ensures SameGrouped(x, y, z) <==> LeftLanding(x, y, z) == RightLanding(x, y, z)
  {
    GroupedLands(x, y, z);
    TookDistinct(x + y + z, LeftLanding(x, y, z), RightLanding(x, y, z));
  }

  lemma LandByKeys(x: seq<Val>, y: seq<Val>, z: seq<Val>, x': seq<Val>, y': seq<Val>, z': seq<Val>)
    requires SameKeys(x, x') && SameKeys(y, y') && SameKeys(z, z')
    ensures LeftLanding(x, y, z) == LeftLanding(x', y', z') && RightLanding(x, y, z) == RightLanding(x', y', z')
  {
    hide Landing, SameKeys;
    LandingByKeys(x, y, x', y');
    LandingByKeys(y, z, y', z');
    LandingByKeys(Took(x + y, Landing(x, y)), z, Took(x' + y', Landing(x', y')), z');
    LandingByKeys(x, Took(y + z, Landing(y, z)), x', Took(y' + z', Landing(y', z')));
    SameLengths(x, x');
    SameLengths(y, y');
  }

  lemma SameLengths(a: seq<Val>, b: seq<Val>)
    requires SameKeys(a, b)
    ensures |a| == |b|
  {
  }

  /** For lists without a repeated item the keys alone decide whether they regroup. */
  lemma KeysDecide(x: seq<Val>, y: seq<Val>, z: seq<Val>, x': seq<Val>, y': seq<Val>, z': seq<Val>)
    requires Distinct(x + y + z) && Distinct(x' + y' + z')
    requires SameKeys(x, x') && SameKeys(y, y') && SameKeys(z, z')
    ensures SameGrouped(x, y, z) <==> SameGrouped(x', y', z')
  {
    DistinctRegroup(x, y, z);
    DistinctRegroup(x', y', z');
    LandByKeys(x, y, z, x', y', z');
  }

  // ---------------------------------------------------------------- three lists

  /** Code and id put the overriding items in the same places. */
  ghost predicate Alike(r: seq<Val>, s: seq<Val>)
    requires AllHave(r, "code") && AllHave(s, "code") && AllHave(r, "id") && AllHave(s, "id")
  {
    Placed(r, s, "code") == Placed(r, s, "id")
  }

  /** Both inner merges go by id. An outer merge still goes by code when every item left has one: it must
      then put its items where id would. */
  ghost predicate IdRegroup(x: seq<Val>, y: seq<Val>, z: seq<Val>)
    requires Detect(x + y) == Some("id") && Detect(y + z) == Some("id")
  {
    var xy, yz := PlacedBy(x, y, "id"), PlacedBy(y, z, "id");
    IdsEverywhere(x, y, z);
    && (Detect(xy + z) == Some("code") ==> (DetectConcat(xy, z); Alike(xy, z)))
    && (Detect(x + yz) == Some("code") ==> (DetectConcat(x, yz); Alike(x, yz)))
  }

  lemma IdsEverywhere(x: seq<Val>, y: seq<Val>, z: seq<Val>)
    requires Detect(x + y) == Some("id") && Detect(y + z) == Some("id")
    ensures AllHave(x, "id") && AllHave(z, "id")
    ensures AllHave(MergeLists(x, y), "id") && AllHave(MergeLists(y, z), "id")
  {
    MergedBy(x, y, "id");
    MergedBy(y, z, "id");
  }

  /** The inner merges go by different fields, so the middle list is empty or has both. When neither outer
      merge finds a field, the inner ones must replace nothing; when only one does, the groupings never
      agree; when both do, every place must end with an item from the same position. Where items are
      repeated, equal items from different positions do as well. */
  ghost predicate CrossedRegroup(x: seq<Val>, y: seq<Val>, z: seq<Val>, f: string, g: string)
    requires Detect(x + y) == Some(f) && Detect(y + z) == Some(g)
  {
    match (Detect(PlacedBy(x, y, f) + z), Detect(x + PlacedBy(y, z, g)))
    case (None, None) =>
      (NothingReplaced(x, y, f) && NothingReplaced(y, z, g)) || (!Distinct(x + y + z) && LandAlike(x, y, z))
    case (Some(_), Some(_)) =>
      LeftLanding(x, y, z) == RightLanding(x, y, z) || (!Distinct(x + y + z) && LandAlike(x, y, z))
    case _ => false
  }

  /** Merged by id into nothing, the list keeps the last item of each id; if those all have a code, their
      codes must be distinct. */
  ghost predicate CodesFollow(z: seq<Val>)
    requires AllHave(z, "id")
  {
    AllHave(Placed([], z, "id"), "code") ==> NothingReplaced([], Placed([], z, "id"), "code")
  }

  /** What three lists need to regroup. A keyed merge beside an appending one must replace nothing; merges
      by code throughout always regroup, and so do merges by id unless a list loses its items without code. */
  ghost predicate ListsRegroup(x: seq<Val>, y: seq<Val>, z: seq<Val>) {
    match (Detect(x + y), Detect(y + z))
    case (None, None) => true
    case (Some(f), None) => y + z == [] || NothingReplaced(x, y, f)
    case (None, Some(g)) =>
      if x + y != [] then NothingReplaced(y, z, g) else g == "id" ==> (IdsOnly(y, z); CodesFollow(z))
    case (Some(f), Some(g)) =>
      if f != g then CrossedRegroup(x, y, z, f, g) else f == "id" ==> IdRegroup(x, y, z)
  }

  lemma IdsOnly(y: seq<Val>, z: seq<Val>)
    requires Detect(y + z) == Some("id")
    ensures AllHave(z, "id")
  {
    DetectConcat(y, z);
  }

  lemma BothAppend(x: seq<Val>, y: seq<Val>, z: seq<Val>)
    requires Detect(x + y) == None && Detect(y + z) == None
    ensures SameGrouped(x, y, z)
  {
    DetectConcat(x, y);
    DetectConcat(y, z);
    DetectConcat(x + y, z);
    DetectConcat(x, y + z);
    HaveConcat(x, y, "code");
    HaveConcat(x, y, "id");
    HaveConcat(y, z, "code");
    HaveConcat(y, z, "id");
    assert (x + y) + z == x + (y + z);
    if x + y == [] { assert x + y + z == z == y + z; }
    if y + z == [] { assert x + (y + z) == x == x + y; }
  }

  lemma EmptyOverride(x: seq<Val>)
    ensures MergeLists(x, []) == x
  {
    assert x + [] == x;
    if Detect(x).Some? { TablesAll(x, Detect(x).value); }
  }

  /** Two lists merged by a field, beside one that is appended to the second. */
  lemma AppendAfter(x: seq<Val>, y: seq<Val>, z: seq<Val>, f: string)
    requires Detect(x + y) == Some(f) && Detect(y + z) == None && y + z != []
    ensures SameGrouped(x, y, z) <==> NothingReplaced(x, y, f)
  {
    MergedBy(x, y, f);
    PutAllAppends(x, y, f);
    OuterAppends(x, y, z);
    DetectNone(y, z);
    AfterSides(x, y, z, MergeLists(x, y), f);
  }

  lemma AfterSides(x: seq<Val>, y: seq<Val>, z: seq<Val>, xy: seq<Val>, f: string)
    requires xy == MergeLists(x, y) && Appends(xy, x, y, f) && MergeLists(y, z) == y + z
    requires MergeLists(x, y + z) == x + (y + z) && MergeLists(x + y, z) == (x + y) + z
    ensures SameGrouped(x, y, z) <==> NothingReplaced(x, y, f)
  {
    hide MergeLists, NothingReplaced;
    NoLonger(xy, z);
    SameByLength(xy, x, y, MergeLists(xy, z), |z|, (x + y) + z);
    assert x + (y + z) == (x + y) + z;
  }

  lemma BeforeSides(x: seq<Val>, y: seq<Val>, z: seq<Val>, yz: seq<Val>, g: string)
    requires yz == MergeLists(y, z) && Appends(yz, y, z, g) && MergeLists(x, y) == x + y
    requires MergeLists(x, y + z) == x + (y + z) && MergeLists(x + y, z) == (x + y) + z
    ensures SameGrouped(x, y, z) <==> NothingReplaced(y, z, g)
  {
    hide MergeLists, NothingReplaced;
    NoLonger(x, yz);
    SameByLength(yz, y, z, MergeLists(x, yz), |x|, x + (y + z));
    assert x + (y + z) == (x + y) + z;
  }

  /** A result no longer than a shortened list allows is the full one only when nothing was lost. */
  lemma SameByLength(part: seq<Val>, a: seq<Val>, b: seq<Val>, result: seq<Val>, more: nat, full: seq<Val>)
    requires |part| <= |a| + |b| && (|part| == |a| + |b| ==> part == a + b)
    requires |result| <= |part| + more && |full| == |a| + |b| + more
    requires part == a + b ==> result == full
    ensures result == full <==> part == a + b
  {
  }

  lemma DetectNone(a: seq<Val>, b: seq<Val>)
    requires Detect(a + b) == None
    ensures MergeLists(a, b) == a + b
  {
  }

  lemma OuterAppends(x: seq<Val>, y: seq<Val>, z: seq<Val>)
    requires Detect(y + z) == None && y + z != []
    ensures MergeLists(x, y + z) == x + (y + z) && MergeLists(x + y, z) == (x + y) + z
  {
    DetectConcat(y, z);
    DetectConcat(x, y + z);
    HaveConcat(y, z, "code");
    HaveConcat(y, z, "id");
    assert x + (y + z) == (x + y) + z;
  }

  /** Two lists merged by a field, beside one that their first is appended to. */
  lemma AppendBefore(x: seq<Val>, y: seq<Val>, z: seq<Val>, g: string)
    requires Detect(x + y) == None && Detect(y + z) == Some(g) && x + y != []
    ensures SameGrouped(x, y, z) <==> NothingReplaced(y, z, g)
  {
    MergedBy(y, z, g);
    PutAllAppends(y, z, g);
    OuterPrepends(x, y, z);
    DetectNone(x, y);
    BeforeSides(x, y, z, MergeLists(y, z), g);
  }

  lemma OuterPrepends(x: seq<Val>, y: seq<Val>, z: seq<Val>)
    requires Detect(x + y) == None && x + y != []
    ensures MergeLists(x + y, z) == (x + y) + z && MergeLists(x, y + z) == x + (y + z)
  {
    DetectConcat(x, y);
    DetectConcat(x + y, z);
    HaveConcat(x, y, "code");
    HaveConcat(x, y, "id");
    assert x + (y + z) == (x + y) + z;
  }

  /** A list merged into nothing, once and twice. */
  lemma MergedTwice(z: seq<Val>, g: string)
    requires Detect(z) == Some(g)
    ensures AllHave(z, g) && MergeLists([], z) == Placed([], z, g) && MergeLists([], z) != []
    ensures SameGrouped([], [], z) <==> (g == "id" ==> CodesFollow(z))
  {
    var once := MergeLists([], z);
    assert [] + z == z && [] + once == once;
    MergedBy([], z, g);
    assert MergeLists([], []) == [];
    DetectConcat([], once);
    PutAllRegroups([], [], z, g);
    assert PutAll([], once, g) == once;
    if AllHave(once, "code") {
      MergedBy([], once, "code");
      PutAllAppends([], once, "code");
    } else {
      MergedBy([], once, g);
    }
  }

  lemma ByCode(x: seq<Val>, y: seq<Val>, z: seq<Val>)
    requires Detect(x + y) == Some("code") && Detect(y + z) == Some("code")
    ensures SameGrouped(x, y, z)
  {
    MergedBy(x, y, "code");
    MergedBy(y, z, "code");
    DetectConcat(MergeLists(x, y), z);
    DetectConcat(x, MergeLists(y, z));
    MergedBy(MergeLists(x, y), z, "code");
    MergedBy(x, MergeLists(y, z), "code");
    PutAllRegroups(x, y, z, "code");
  }

  /** A list keyed by a field is no list without a common field. */
  lemma KeyedIsNotMixed(keyed: seq<Val>, a: seq<Val>, b: seq<Val>, field: string)
    requires AllHave(keyed, field) && keyed != [] && (field == "code" || field == "id") && Detect(a + b) == None
    ensures keyed != a + b
  {
    DetectConcat(a, b);
    HaveConcat(a, b, field);
  }

  lemma DetectedField(items: seq<Val>)
    ensures Detect(items).Some? ==> Detect(items).value == "code" || Detect(items).value == "id"
  {
  }

  /** An override item with a key of its own survives the merge. */
  lemma LastSurvives(r: seq<Val>, items: seq<Val>, field: string, i: nat)
    requires AllHave(r, field) && AllHave(items, field) && i < |items| && LastPlace(items, i, field)
    ensures items[i] in Placed(r, items, field)
  {
    var k, ks, rs := KeysOf(items, field)[i], KeysOf(items, field), KeysOf(r, field);
    LastAtKey(items, field, k, i);
    if k in rs {
      KeyInList(r, field, k);
      var p := LastAt(r, field, k).value;
      LastAtKey(r, field, k, p);
      assert Placed(r, items, field)[p] == Heir(r, items, field, p) == items[i];
    } else {
      assert ks[i] in ks;
      var added := NewKeys(ks, rs);
      var j :| 0 <= j < |added| && added[j] == k;
      PlacedAt(r, items, field, |r| + j);
      assert (rs + added)[|r| + j] == k;
    }
  }

  lemma Crossed(x: seq<Val>, y: seq<Val>, z: seq<Val>, f: string, g: string)
    requires Detect(x + y) == Some(f) && Detect(y + z) == Some(g)
    ensures SameGrouped(x, y, z) <==> CrossedRegroup(x, y, z, f, g)
  {
    hide NothingReplaced, MergeLists, Detect, Placed, LandAlike, LeftLanding, RightLanding;
    var xy, yz := MergeLists(x, y), MergeLists(y, z);
    match (Detect(xy + z), Detect(x + yz))
    case (None, None) => CrossedAppend(x, y, z, f, g);
    case (Some(h), Some(k)) =>
      AlikeExactly(x, y, z);
      if Distinct(x + y + z) { DistinctRegroup(x, y, z); }
    case (Some(h), None) =>
      MergedBy(x, y, f);
      MergedBy(xy, z, h);
      DetectedField(xy + z);
      KeyedIsNotMixed(MergeLists(xy, z), x, yz, h);
      DetectNone(x, yz);
    case (None, Some(k)) =>
      MergedBy(y, z, g);
      MergedBy(x, yz, k);
      DetectedField(x + yz);
      KeyedIsNotMixed(MergeLists(x, yz), xy, z, k);
      DetectNone(xy, z);
  }

  lemma AlikeExactly(x: seq<Val>, y: seq<Val>, z: seq<Val>)
    ensures SameGrouped(x, y, z) <==> LandAlike(x, y, z)
    ensures LeftLanding(x, y, z) == RightLanding(x, y, z) ==> LandAlike(x, y, z)
  {
    GroupedLands(x, y, z);
  }

  lemma CrossedAppend(x: seq<Val>, y: seq<Val>, z: seq<Val>, f: string, g: string)
    requires Detect(x + y) == Some(f) && Detect(y + z) == Some(g)
    requires Detect(MergeLists(x, y) + z) == None && Detect(x + MergeLists(y, z)) == None
    ensures SameGrouped(x, y, z) <==>
            (NothingReplaced(x, y, f) && NothingReplaced(y, z, g)) || (!Distinct(x + y + z) && LandAlike(x, y, z))
  {
    hide NothingReplaced, LandAlike, Distinct;
    AlikeExactly(x, y, z);
    AppendedExactly(x, y, f);
    AppendedExactly(y, z, g);
    BothEnds(x, y, z);
    if Distinct(x + y + z) && SameGrouped(x, y, z) { NoneReplaced(x, y, z, f, g); }
    hide SameGrouped, MergeLists, Detect;
  }

  lemma BothEnds(x: seq<Val>, y: seq<Val>, z: seq<Val>)
    requires Detect(MergeLists(x, y) + z) == None && Detect(x + MergeLists(y, z)) == None
    ensures SameGrouped(x, y, z) <==> MergeLists(x, y) + z == x + MergeLists(y, z)
    ensures MergeLists(x, y) == x + y && MergeLists(y, z) == y + z ==> SameGrouped(x, y, z)
  {
    hide Detect;
    DetectNone(MergeLists(x, y), z);
    DetectNone(x, MergeLists(y, z));
    assert (x + y) + z == x + (y + z);
  }

  lemma AppendedExactly(x: seq<Val>, y: seq<Val>, f: string)
    requires Detect(x + y) == Some(f)
    ensures MergeLists(x, y) == x + y <==> NothingReplaced(x, y, f)
    ensures |x| <= |MergeLists(x, y)| <= |x| + |y|
    ensures |MergeLists(x, y)| == |x| + |y| ==> MergeLists(x, y) == x + y
  {
    MergedBy(x, y, f);
    PutAllAppends(x, y, f);
    PutAllLonger(x, y, f);
  }

  /** Two appended groupings of distinct items agree only when no item was replaced: the last item of the
      middle list survives the first merge, and stands too far to the left unless nothing was. */
  lemma NoneReplaced(x: seq<Val>, y: seq<Val>, z: seq<Val>, f: string, g: string)
    requires Detect(x + y) == Some(f) && Detect(y + z) == Some(g) && Distinct(x + y + z)
    requires MergeLists(x, y) + z == x + MergeLists(y, z)
    ensures MergeLists(x, y) == x + y && MergeLists(y, z) == y + z
  {
    var xy, yz := MergeLists(x, y), MergeLists(y, z);
    AppendedExactly(x, y, f);
    AppendedExactly(y, z, g);
    if y != [] {
      Survivor(x, y, f);
      FromMiddle(y, z, g);
      StandsInPlace(x, y, z, xy, yz);
    }
    hide *;
    CancelFront(y + z, yz, x);
    assert x + (y + z) == (x + y) + z;
  }

  lemma Survivor(x: seq<Val>, y: seq<Val>, f: string)
    requires Detect(x + y) == Some(f) && y != []
    ensures y[|y| - 1] in MergeLists(x, y)
  {
    MergedBy(x, y, f);
    LastSurvives(x, y, f, |y| - 1);
  }

  lemma FromMiddle(y: seq<Val>, z: seq<Val>, g: string)
    requires Detect(y + z) == Some(g) && |y| <= |MergeLists(y, z)|
    ensures forall m | 0 <= m < |y| :: MergeLists(y, z)[m] == y[m] || MergeLists(y, z)[m] in z
  {
    MergedBy(y, z, g);
    hide MergeLists, Detect;
    forall m: nat | m < |y| ensures Placed(y, z, g)[m] == y[m] || Placed(y, z, g)[m] in z {
      PlacedAt(y, z, g, m);
      HeirFrom(y, z, g, m);
    }
  }

  lemma OnlyBetween(x: seq<Val>, y: seq<Val>, z: seq<Val>, i: nat)
    requires Distinct(x + y + z) && i < |y|
    ensures y[i] !in x && y[i] !in z
  {
    var all := x + y + z;
    assert all[|x| + i] == y[i];
    assert forall j | 0 <= j < |x| :: all[j] == x[j];
    assert forall j | 0 <= j < |z| :: all[|x| + |y| + j] == z[j];
  }

  lemma StandsInPlace(x: seq<Val>, y: seq<Val>, z: seq<Val>, xy: seq<Val>, yz: seq<Val>)
    requires Distinct(x + y + z) && xy + z == x + yz && y != []
    requires |x| <= |xy| <= |x| + |y| && |y| <= |yz| && y[|y| - 1] in xy
    requires forall m | 0 <= m < |y| :: yz[m] == y[m] || yz[m] in z
    ensures |xy| == |x| + |y|
  {
    var all, last := x + y + z, |y| - 1;
    var p :| 0 <= p < |xy| && xy[p] == y[last];
    assert all[|x| + last] == y[last] == (xy + z)[p] == (x + yz)[p];
    OnlyBetween(x, y, z, last);
    var m := p - |x|;
    assert yz[m] == y[last] && all[|x| + m] == y[m];
  }

  /** The heir of a place is the item there or an override item. */
  lemma HeirFrom(base: seq<Val>, over: seq<Val>, field: string, i: nat)
    requires AllHave(base, field) && i < |base|
    ensures Heir(base, over, field, i) == base[i] || Heir(base, over, field, i) in over
  {
  }

  /** The outer merges do not both turn to code: an item of the middle list without a code survives one of
      the inner merges. */
  lemma NotBothByCode(x: seq<Val>, y: seq<Val>, z: seq<Val>)
    requires AllHave(x, "id") && AllHave(y, "id") && AllHave(z, "id") && !AllHave(y, "code")
    ensures !AllHave(Placed(x, y, "id"), "code") || !AllHave(Placed(y, z, "id"), "code")
  {
    var i :| 0 <= i < |y| && !Has(y[i], "code");
    if LastPlace(y, i, "id") {
      LastSurvives(x, y, "id", i);
    } else {
      PlacedAt(y, z, "id", i);
      assert Placed(y, z, "id")[i] == y[i];
    }
  }

  lemma ById(x: seq<Val>, y: seq<Val>, z: seq<Val>)
    requires Detect(x + y) == Some("id") && Detect(y + z) == Some("id")
    ensures SameGrouped(x, y, z) <==> IdRegroup(x, y, z)
  {
    var xy, yz := MergeLists(x, y), MergeLists(y, z);
    MergedBy(x, y, "id");
    MergedBy(y, z, "id");
    DetectConcat(x, y);
    DetectConcat(xy, z);
    DetectConcat(x, yz);
    if !AllHave(y, "code") { NotBothByCode(x, y, z); }
    MergedBy(xy, z, Detect(xy + z).value);
    MergedBy(x, yz, Detect(x + yz).value);
    PutAllRegroups(x, y, z, "id");
    KeyedMerge(xy, z, "id");
    KeyedMerge(x, yz, "id");
  }

  /** Three lists merge to the same list in either grouping exactly when they regroup. */
  lemma ListsRegroupExactly(x: seq<Val>, y: seq<Val>, z: seq<Val>)
    ensures SameGrouped(x, y, z) <==> ListsRegroup(x, y, z)
  {
    match (Detect(x + y), Detect(y + z))
    case (None, None) => BothAppend(x, y, z);
    case (Some(f), None) =>
      if y + z == [] {
        EmptyOverride(x);
        EmptyOverride([]);
      } else {
        AppendAfter(x, y, z, f);
      }
    case (None, Some(g)) =>
      if x + y == [] {
        assert y + z == z;
        MergedTwice(z, g);
        DetectedField(z);
      } else {
        AppendBefore(x, y, z, g);
      }
    case (Some(f), Some(g)) =>
      DetectedField(x + y);
      if f != g { Crossed(x, y, z, f, g); } else if f == "code" { ByCode(x, y, z); } else { ById(x, y, z); }
  }

  // ---------------------------------------------------------------- families of lists

  /** Lists without a common field, and lists of no items, are no obstacle between two others, and outside
      two keyed lists exactly when the keyed merge replaces nothing. */
  lemma UnkeyedBetween(x: seq<Val>, y: seq<Val>, u: seq<Val>)
    requires u != [] && Detect(u) == None
    ensures SameGrouped(x, u, y)
  {
    DetectConcat(x, u);
    DetectConcat(u, y);
    assert [] + u == u;
    DetectConcat([], u);
    BothAppend(x, u, y);
  }

  lemma UnkeyedOutside(x: seq<Val>, y: seq<Val>, u: seq<Val>, field: string)
    requires Detect(x + y) == Some(field) && u != [] && Detect(u) == None
    ensures SameGrouped(x, y, u) <==> NothingReplaced(x, y, field)
    ensures SameGrouped(u, x, y) <==> NothingReplaced(x, y, field)
  {
    assert [] + u == u;
    DetectConcat([], u);
    DetectConcat(y, u);
    DetectConcat(u, x);
    AppendAfter(x, y, u, field);
    AppendBefore(u, x, y, field);
  }

  predicate DetectsAs(items: seq<Val>, field: string) {
    items == [] || Detect(items) == Some(field)
  }

  /** Three lists that all detect one field, or are empty, regroup; for `id` when the base is not empty. */
  lemma SameField(x: seq<Val>, y: seq<Val>, z: seq<Val>, field: string)
    requires DetectsAs(x, field) && DetectsAs(y, field) && DetectsAs(z, field)
    requires field == "id" ==> x != []
    ensures SameGrouped(x, y, z)
  {
    DetectedField(x);
    DetectedField(y);
    DetectedField(z);
    DetectConcat(x, y);
    DetectConcat(y, z);
    if z == [] {
      EmptyOverride(MergeLists(x, y));
      EmptyOverride(y);
    } else if field == "id" {
      ById(x, y, z);
      DetectConcat(MergeLists(x, y), z);
      DetectConcat(x, MergeLists(y, z));
    } else if x + y == [] {
      MergedTwice(z, "code");
    } else {
      ByCode(x, y, z);
    }
  }

  /** Over an empty base, lists that detect `id`: every grouping keeps one item of each id, and one of them
      re-reads the merged list by code when all its items have one. */
  ghost predicate EmptyBase(y: seq<Val>, z: seq<Val>)
    requires Detect(y + z) == Some("id")
  {
    var yz := PlacedBy(y, z, "id");
    MergedBy(y, z, "id");
    Detect(yz) == Some("code") ==> Alike([], yz)
  }

  lemma EmptyBaseExactly(y: seq<Val>, z: seq<Val>)
    requires DetectsAs(y, "id") && DetectsAs(z, "id") && y + z != []
    ensures Detect(y + z) == Some("id") && (SameGrouped([], y, z) <==> EmptyBase(y, z))
  {
    assert [] + y == y && [] + z == z;
    DetectConcat(y, z);
    MergedBy(y, z, "id");
    LeftOfEmpty(y, z);
    RightOfEmpty(MergeLists(y, z));
    hide PutAll, Placed, Detect, AllHave;
  }

  lemma RightOfEmpty(yz: seq<Val>)
    requires AllHave(yz, "id") && yz != []
    ensures Detect(yz) == Some(if AllHave(yz, "code") then "code" else "id")
    ensures PutAll([], yz, "id") == MergeLists([], yz) <==>
            (AllHave(yz, "code") ==> Placed([], yz, "code") == Placed([], yz, "id"))
  {
    assert [] + yz == yz;
    MergedBy([], yz, Detect(yz).value);
    KeyedMerge([], yz, "id");
  }

  lemma LeftOfEmpty(y: seq<Val>, z: seq<Val>)
    requires DetectsAs(y, "id") && DetectsAs(z, "id") && y + z != [] && Detect(y + z) == Some("id")
    ensures MergeLists(MergeLists([], y), z) == PutAll([], MergeLists(y, z), "id")
  {
    assert [] + y == y && [] + z == z && y + [] == y;
    MergedBy(y, z, "id");
    PutAllRegroups([], y, z, "id");
    if y == [] {
      MergedBy([], z, "id");
    } else {
      MergedBy([], y, "id");
      var once := MergeLists([], y);
      if z == [] {
        EmptyOverride(once);
        EmptyOverride(y);
      } else {
        DetectConcat(once, z);
        MergedBy(once, z, "id");
      }
    }
  }

  /** When no item carries both fields, three lists regroup exactly when both inner merges go the same way,
      or one has nothing to merge, or neither replaces an item. */
  lemma OneFieldEach(x: seq<Val>, y: seq<Val>, z: seq<Val>)
    requires forall v | v in x + y + z :: !(Has(v, "code") && Has(v, "id"))
    ensures SameGrouped(x, y, z) <==>
            || x + y == [] || y + z == [] || Detect(x + y) == Detect(y + z)
            || ((Detect(x + y).Some? ==> NothingReplaced(x, y, Detect(x + y).value)) &&
                (Detect(y + z).Some? ==> NothingReplaced(y, z, Detect(y + z).value)))
  {
    assert forall v | v in x || v in y || v in z :: v in x + y + z;
    DetectConcat(x, y);
    DetectConcat(y, z);
    match (Detect(x + y), Detect(y + z))
    case (None, None) => BothAppend(x, y, z);
    case (Some(f), None) =>
      if y + z == [] { EmptyOverride(x); EmptyOverride([]); } else { AppendAfter(x, y, z, f); }
    case (None, Some(g)) =>
      if x + y == [] { OneFieldAlone(z, g); } else { AppendBefore(x, y, z, g); }
    case (Some(f), Some(g)) =>
      if f != g {
        DifferentFields(x, y, z, f, g);
      } else if f == "code" {
        ByCode(x, y, z);
      } else {
        OneFieldIds(x, y, z);
      }
  }

  predicate OneField(items: seq<Val>) {
    forall v | v in items :: !(Has(v, "code") && Has(v, "id"))
  }

  lemma OneFieldAlone(z: seq<Val>, g: string)
    requires OneField(z) && Detect([] + z) == Some(g)
    ensures SameGrouped([], [], z)
  {
    assert [] + z == z;
    MergedTwice(z, g);
    DetectedField(z);
    if g == "id" {
      KeyedMerge([], z, "id");
      MergedSubset([], z, "id");
      var once := Placed([], z, "id");
      assert once[0] in once;
    }
  }

  lemma {:induction false} MergedSubset(r: seq<Val>, items: seq<Val>, field: string)
    ensures forall v | v in PutAll(r, items, field) :: v in r || v in items
  {
    if items != [] {
      assert items[|items| - 1] in items;
      MergedSubset(r, items[..|items| - 1], field);
    }
  }

  lemma OneFieldIds(x: seq<Val>, y: seq<Val>, z: seq<Val>)
    requires Detect(x + y) == Some("id") && Detect(y + z) == Some("id") && OneField(x + y + z)
    ensures SameGrouped(x, y, z)
  {
    var xy, yz := MergeLists(x, y), MergeLists(y, z);
    MergedBy(x, y, "id");
    MergedBy(y, z, "id");
    MergedSubset(x, y, "id");
    MergedSubset(y, z, "id");
    DetectConcat(xy, z);
    DetectConcat(x, yz);
    DetectConcat(x, y);
    DetectConcat(y, z);
    assert xy != [] && xy[0] in xy && yz != [] && yz[0] in yz;
    assert forall v | v in x || v in y || v in z :: v in x + y + z;
    ById(x, y, z);
  }

  /** Lists that go by different fields have nothing between them. */
  lemma DifferentFields(x: seq<Val>, y: seq<Val>, z: seq<Val>, f: string, g: string)
    requires Detect(x + y) == Some(f) && Detect(y + z) == Some(g) && f != g && OneField(x + y + z)
    ensures y == [] && (SameGrouped(x, y, z) <==> NothingReplaced(x, y, f) && NothingReplaced(y, z, g))
  {
    assert |y| > 0 ==> y[0] in y;
    assert forall v | v in x || v in y || v in z :: v in x + y + z;
    DetectConcat(x, y);
    DetectConcat(y, z);
    DetectedField(x + y);
    DetectedField(y + z);
    assert x != [] && x[0] in x && z != [] && z[0] in z;
    EmptyBetween(x, z, g);
  }

  lemma EmptyBetween(x: seq<Val>, z: seq<Val>, g: string)
    requires Detect([] + z) == Some(g) && x != [] && (g == "code" || g == "id")
    requires forall v | v in x || v in z :: !(Has(v, "code") && Has(v, "id"))
    requires AllHave(x, if g == "code" then "id" else "code")
    ensures SameGrouped(x, [], z) <==> NothingReplaced([], z, g)
  {
    var yz := MergeLists([], z);
    assert [] + z == z && x[0] in x && z[0] in z;
    MergedBy([], z, g);
    MergedSubset([], z, g);
    PutAllAppends([], z, g);
    EmptyOverride(x);
    DetectConcat(x, z);
    DetectConcat(x, yz);
    assert yz[0] in yz;
    CancelFront(z, yz, x);
  }

  /** Over an empty base, lists that detect `id` regroup when the last one repeats no id. */
  lemma UniqueIdsRegroup(y: seq<Val>, z: seq<Val>)
    requires DetectsAs(y, "id") && DetectsAs(z, "id") && y + z != []
    requires AllHave(z, "id") && Distinct(KeysOf(z, "id"))
    ensures EmptyBase(y, z) && SameGrouped([], y, z)
  {
    EmptyBaseExactly(y, z);
    DetectConcat(y, z);
    MergedBy(y, z, "id");
    assert [] + y == y && [] + z == z && y + [] == y;
    DetectConcat([], y);
    DetectConcat([], z);
    if z == [] {
      EmptyOverride(y);
    } else {
      var i :| 0 <= i < |z| && !Has(z[i], "code");
      LastSurvives(y, z, "id", i);
    }
  }

  // ---------------------------------------------------------------- why repeated items are compared

  /** A base item may be replaced by itself: with repeated items the two groupings can agree although both
      inner merges replace something and both outer merges append. Give the middle item another value under
      the same keys, and they do not agree: with repeated items the keys do not decide. */
  lemma ReplacedByItself(n: Val, p: Val, p': Val, q: Val)
    requires Has(n, "code") && !Has(n, "id") && Has(p, "code") && Has(p, "id") && !Has(q, "code") && Has(q, "id")
    requires ItemKey(n, "code") != ItemKey(p, "code") && ItemKey(p, "id") == ItemKey(q, "id")
    requires SameKeys([p], [p']) && p != p'
    ensures !NothingReplaced([n, p], [p], "code") && !NothingReplaced([p], [q], "id")
    ensures SameGrouped([n, p], [p], [q]) && !SameGrouped([n, p], [p'], [q])
  {
    assert [p][..0] == [] && [q][..0] == [] && [n, p] + [] == [n, p] && [p] + [] == [p];
    assert [n, p][..1] == [n];
    assert LastAt([n, p], "code", ItemKey(p, "code")) == Some(1);
    assert LastAt([p], "id", ItemKey(q, "id")) == Some(0);
    assert SameKey([p][0], [p'][0], "code") && SameKey([p][0], [p'][0], "id");
    BothReplaced(n, p, p, q);
    BothReplaced(n, p, p', q);
    assert [n, p', q][1] == p';
  }

  /** Merged from the left the middle item stands, merged from the right it goes and the base item stays. */
  lemma BothReplaced(n: Val, p: Val, m: Val, q: Val)
    requires Has(n, "code") && !Has(n, "id") && Has(p, "code") && Has(p, "id") && !Has(q, "code") && Has(q, "id")
    requires Has(m, "code") && Has(m, "id") && ItemKey(m, "code") == ItemKey(p, "code")
    requires ItemKey(n, "code") != ItemKey(p, "code") && ItemKey(m, "id") == ItemKey(q, "id")
    ensures MergeLists(MergeLists([n, p], [m]), [q]) == [n, m, q]
    ensures MergeLists([n, p], MergeLists([m], [q])) == [n, p, q]
  {
    assert Has([n][0], "code") && Has([m][0], "id");
    ReplacesLast([n], p, m, "code");
    ReplacesLast([], m, q, "id");
    assert [n] + [p] == [n, p] && [n] + [m] == [n, m] && [] + [m] == [m] && [] + [q] == [q];
    NoneShared(n, p, q);
    NoneShared(n, m, q);
  }

  /** An item that goes by the key of the last one replaces it. */
  lemma ReplacesLast(front: seq<Val>, p: Val, m: Val, field: string)
    requires Detect(front + [p] + [m]) == Some(field) && Has(p, field) && Has(m, field)
    requires ItemKey(m, field) == ItemKey(p, field)
    ensures MergeLists(front + [p], [m]) == front + [m]
  {
    LastAtAppend(front, p, field, ItemKey(m, field));
    MergedBy(front + [p], [m], field);
    assert PutAll(front + [p], [m], field) == Put(PutAll(front + [p], [m][..0], field), m, field);
    assert [m][..0] == [];
  }

  lemma NoneShared(n: Val, p: Val, q: Val)
    requires !Has(n, "id") && !Has(q, "code")
    ensures MergeLists([n, p], [q]) == [n, p, q]
  {
    assert n in [n, p] + [q] && q in [n, p] + [q] && [n, p] + [q] == [n, p, q];
  }
}
