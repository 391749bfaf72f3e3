/** Layered configuration: the structural merge of documents and the dotted-key lookup. */
module ConfigMerge {
  import opened Wrappers
  import opened KeyedLists

  // ---------------------------------------------------------------- deep merge

  /** The keys of an override table that its base does not have. */
  function Fresh(keys: seq<string>, taken: set<string>): seq<string> {
    if keys == [] then []
    else Fresh(keys[..|keys| - 1], taken) + if keys[|keys| - 1] in taken then [] else [keys[|keys| - 1]]
  }

  lemma FreshSnoc(keys: seq<string>, k: string, taken: set<string>)
    ensures Fresh(keys + [k], taken) == Fresh(keys, taken) + if k in taken then [] else [k]
  {
    assert (keys + [k])[..|keys|] == keys;
  }

  function Merge(base: Val, over: Val): Val {
    match (base, over)
    case (Table(bk, bv), Table(ok, ov)) =>
      Table(bk + Fresh(ok, bv.Keys),
            map k | k in bv.Keys + ov.Keys ::
              if k in bv && k in ov then Merge(bv[k], ov[k]) else if k in ov then ov[k] else bv[k])
    case (Items(b), Items(o)) => Items(MergeLists(b, o))
    case _ => over
  }

  function Look(vals: map<string, Val>, k: string): Option<Val> {
    if k in vals then Some(vals[k]) else None
  }

  function Combine(base: Option<Val>, over: Option<Val>): Option<Val> {
    if over.None? then base else if base.None? then over else Some(Merge(base.value, over.value))
  }

  /** A merge of two tables, key by key. */
  lemma MergeTables(a: Val, b: Val)
    requires a.Table? && b.Table?
    ensures Merge(a, b).Table? && Merge(a, b).keys == a.keys + Fresh(b.keys, a.vals.Keys)
    ensures Merge(a, b).vals.Keys == a.vals.Keys + b.vals.Keys
    ensures forall k :: Look(Merge(a, b).vals, k) == Combine(Look(a.vals, k), Look(b.vals, k))
  {
  }

  lemma SameMap(l: map<string, Val>, r: map<string, Val>)
    requires forall k :: Look(l, k) == Look(r, k)
    ensures l == r
  {
    forall k ensures k in l <==> k in r { assert Look(l, k) == Look(r, k); }
    forall k | k in l ensures l[k] == r[k] { assert Look(l, k) == Look(r, k); }
  }

  /** Some keyed list met by the merge has a table or a list as its key. */
  ghost predicate Raises(base: Val, over: Val) {
    match (base, over)
    case (Table(_, bv), Table(_, ov)) => exists k :: k in bv && k in ov && Raises(bv[k], ov[k])
    case (Items(b), Items(o)) =>
      Detect(b + o).Some? && exists x :: x in b + o && UnhashableKey(x, Detect(b + o).value)
    case _ => false
  }

  /** After the keys in `seen`, the copied table holds merged values for those keys and base values elsewhere. */
  ghost predicate Partway(vals: map<string, Val>, base: map<string, Val>, merged: map<string, Val>, seen: seq<string>) {
    forall k :: Look(vals, k) == if k in seen then Look(merged, k) else Look(base, k)
  }

  lemma PartwayStep(vals: map<string, Val>, base: map<string, Val>, merged: map<string, Val>, seen: seq<string>,
                    k: string, v: Val)
    requires Partway(vals, base, merged, seen) && Look(merged, k) == Some(v)
    ensures Partway(vals[k := v], base, merged, seen + [k])
  {
    forall x ensures Look(vals[k := v], x) == if x in seen + [k] then Look(merged, x) else Look(base, x) {
      assert Look(vals, x) == if x in seen then Look(merged, x) else Look(base, x);
    }
  }

  lemma PartwayEnd(vals: map<string, Val>, base: Val, over: Val)
    requires WellFormed(over) && base.Table? && over.Table?
    requires Partway(vals, base.vals, Merge(base, over).vals, over.keys)
    ensures vals == Merge(base, over).vals
  {
    MergeTables(base, over);
    forall k ensures Look(vals, k) == Look(Merge(base, over).vals, k) {
      assert k !in over.keys ==> k !in over.vals;
    }
    SameMap(vals, Merge(base, over).vals);
  }

  lemma MergedAt(base: Val, over: Val, key: string)
    requires WellFormed(over) && base.Table? && over.Table? && key in over.keys
    ensures key in over.vals
    ensures Look(Merge(base, over).vals, key) ==
            Some(if key in base.vals then Merge(base.vals[key], over.vals[key]) else over.vals[key])
  {
  }

  /** `deep_merge`: on two tables it copies the base and updates the copy key by key. */
  method DeepMerge(base: Val, over: Val) returns (r: Result<Val, TypeError>)
    requires WellFormed(base) && WellFormed(over)
    ensures r.Err? <==> Raises(base, over)
    ensures r.Ok? ==> r.value == Merge(base, over)
    decreases base, 1
  {
    if base.Table? && over.Table? {
      r := DeepMergeTables(base, over);
    } else if base.Items? && over.Items? {
      var field := Detect(base.items + over.items);
      if field.None? { return Ok(Items(base.items + over.items)); }
      var merged := MergeByKey(base.items, over.items, field.value);
      r := match merged case Ok(items) => Ok(Items(items)) case Err(e) => Err(e);
    } else {
      r := Ok(over);
    }
  }

  method DeepMergeTables(base: Val, over: Val) returns (r: Result<Val, TypeError>)
    requires WellFormed(base) && WellFormed(over) && base.Table? && over.Table?
    ensures r.Err? <==> exists k :: k in base.vals && k in over.vals && Raises(base.vals[k], over.vals[k])
    ensures r.Ok? ==> r.value == Merge(base, over)
    decreases base, 0
  {
    var keys, vals := base.keys, base.vals;
    ghost var seen, target := [], Merge(base, over).vals;
    for i := 0 to |over.keys|
      invariant seen == over.keys[..i]
      invariant keys == base.keys + Fresh(seen, base.vals.Keys)
      invariant Partway(vals, base.vals, target, seen)
      invariant forall k | k in seen && k in base.vals :: k in over.vals && !Raises(base.vals[k], over.vals[k])
    {
      var key := over.keys[i];
      assert key !in seen && Look(vals, key) == Look(base.vals, key);
      MergedAt(base, over, key);
      FreshSnoc(seen, key, base.vals.Keys);
      if key in vals {
        var merged := DeepMerge(vals[key], over.vals[key]);
        if merged.Err? { return merged; }
        PartwayStep(vals, base.vals, target, seen, key, merged.value);
        vals := vals[key := merged.value];
      } else {
        PartwayStep(vals, base.vals, target, seen, key, over.vals[key]);
        keys, vals := keys + [key], vals[key := over.vals[key]];
      }
      seen := seen + [key];
    }
    assert seen == over.keys;
    PartwayEnd(vals, base, over);
    MergeTables(base, over);
    r := Ok(Table(keys, vals));
  }

  lemma MergeWellFormed(a: Val, b: Val)
    requires WellFormed(a) && WellFormed(b)
    ensures WellFormed(Merge(a, b))
    decreases a
  {
    match (a, b)
    case (Table(_, av), Table(_, bv)) =>
      MergeTables(a, b);
      FreshMembers(b.keys, av.Keys);
      DistinctConcat(a.keys, Fresh(b.keys, av.Keys));
      forall k | k in av && k in bv ensures WellFormed(Merge(av[k], bv[k])) { MergeWellFormed(av[k], bv[k]); }
    case (Items(x), Items(y)) =>
      match Detect(x + y) {
        case None =>
        case Some(f) => PutAllMembers(Tables(x), y, f); TablesMembers(x);
      }
    case _ =>
  }

  lemma DistinctConcat(x: seq<string>, y: seq<string>)
    requires Distinct(x) && Distinct(y) && forall k | k in y :: k !in x
    ensures Distinct(x + y)
  {
    forall i, j | 0 <= i < j < |x + y| ensures (x + y)[i] != (x + y)[j] {
      if i < |x| <= j { assert y[j - |x|] in y; }
    }
  }

  lemma {:induction false} FreshMembers(keys: seq<string>, taken: set<string>)
    ensures forall k :: k in Fresh(keys, taken) <==> k in keys && k !in taken
    ensures Distinct(keys) ==> Distinct(Fresh(keys, taken))
  {
    if keys != [] {
      var front := keys[..|keys| - 1];
      assert keys == front + [keys[|keys| - 1]];
      FreshMembers(front, taken);
      if Distinct(keys) { assert keys[|keys| - 1] !in front; }
    }
  }

  lemma {:induction false} TablesMembers(items: seq<Val>)
    ensures forall x | x in Tables(items) :: x in items
  {
    if items != [] { TablesMembers(items[..|items| - 1]); }
  }

  lemma {:induction false} PutAllMembers(r: seq<Val>, items: seq<Val>, field: string)
    ensures forall x | x in PutAll(r, items, field) :: x in r || x in items
  {
    if items != [] { PutAllMembers(r, items[..|items| - 1], field); }
  }

  // ---------------------------------------------------------------- folding layers and looking a path up

  /** The layers merged lowest priority first, as both resolvers do. */
  function FoldAll(layers: seq<Val>): Option<Val> {
    if layers == [] then None else Combine(FoldAll(layers[..|layers| - 1]), Some(layers[|layers| - 1]))
  }

  function Extract(v: Val, path: seq<string>): Option<Val> {
    if path == [] then Some(v)
    else if v.Table? && path[0] in v.vals then Extract(v.vals[path[0]], path[1..])
    else None
  }

  /** `v` has something other than a table at a proper, non-empty prefix of `path`. */
  predicate Blocks(v: Val, path: seq<string>) {
    exists i | 0 < i < |path| :: var w := Extract(v, path[..i]); w.Some? && !w.value.Table?
  }

  lemma BlocksBelow(v: Val, path: seq<string>)
    requires v.Table? && |path| > 1
    ensures Blocks(v, path) <==> path[0] in v.vals && (!v.vals[path[0]].Table? || Blocks(v.vals[path[0]], path[1..]))
  {
    forall i | 0 < i < |path| ensures path[..i][0] == path[0] && path[..i][1..] == path[1..][..i - 1] {}
    if path[0] in v.vals {
      var w := v.vals[path[0]];
      assert path[..1][1..] == [];
      assert Extract(v, path[..1]) == Some(w);
      if !w.Table? { assert Blocks(v, path); }
      forall i | 0 < i < |path| - 1 ensures Extract(w, path[1..][..i]) == Extract(v, path[..i + 1]) {}
      if w.Table? && Blocks(v, path) {
        var i :| 0 < i < |path| && Extract(v, path[..i]).Some? && !Extract(v, path[..i]).value.Table?;
        assert Extract(w, path[1..][..i - 1]) == Extract(v, path[..i]);
      }
      if w.Table? && Blocks(w, path[1..]) {
        var i :| 0 < i < |path| - 1 && Extract(w, path[1..][..i]).Some? && !Extract(w, path[1..][..i]).value.Table?;
        assert Extract(w, path[1..][..i]) == Extract(v, path[..i + 1]);
      }
    }
  }

  /** Looking a path up in a merge of two tables. */
  lemma {:induction false} ExtractMerge(a: Val, b: Val, path: seq<string>)
    requires a.Table? && b.Table? && path != []
    ensures Extract(Merge(a, b), path) == if Blocks(b, path) then None else Combine(Extract(a, path), Extract(b, path))
    decreases path
  {
    var k, rest := path[0], path[1..];
    if rest != [] {
      BlocksBelow(b, path);
      if k in b.vals {
        if !b.vals[k].Table? {
          assert Extract(b.vals[k], rest) == None;
        } else if k in a.vals && a.vals[k].Table? {
          ExtractMerge(a.vals[k], b.vals[k], rest);
        } else if Blocks(b.vals[k], rest) {
          BlockedIsMissing(b.vals[k], rest);
        }
      }
    }
  }

  lemma {:induction false} BlockedIsMissing(v: Val, path: seq<string>)
    requires v.Table? && Blocks(v, path)
    ensures Extract(v, path) == None
    decreases path
  {
    BlocksBelow(v, path);
    var w := v.vals[path[0]];
    if w.Table? { BlockedIsMissing(w, path[1..]); }
  }

  /** The values at `path` that count: those of the layers after the last layer that blocks the path. */
  function Visible(layers: seq<Val>, path: seq<string>): seq<Val> {
    if layers == [] then []
    else
      var last := layers[|layers| - 1];
      if Blocks(last, path) then []
      else
        var front := Visible(layers[..|layers| - 1], path);
        match Extract(last, path) case Some(v) => front + [v] case None => front
  }

  /** Lookup commutes with layering, over any number of layers: the value at a path of the merged
      document is the merge of the visible values at that path. */
  lemma {:induction false} ExtractFold(layers: seq<Val>, path: seq<string>)
    requires layers != [] && path != [] && forall l | l in layers :: l.Table?
    ensures FoldAll(layers).Some? && FoldAll(layers).value.Table?
    ensures Extract(FoldAll(layers).value, path) == FoldAll(Visible(layers, path))
  {
    var front, last := layers[..|layers| - 1], layers[|layers| - 1];
    assert layers == front + [last] && last in layers;
    if Blocks(last, path) { BlockedIsMissing(last, path); }
    var seen := Visible(front, path);
    if front != [] {
      ExtractFold(front, path);
      ExtractMerge(FoldAll(front).value, last, path);
    }
    if Extract(last, path).Some? {
      assert (seen + [Extract(last, path).value])[..|seen|] == seen;
    }
  }

  /** When no layer blocks the path, every layer that has the path counts. */
  lemma {:induction false} UnblockedAllVisible(layers: seq<Val>, path: seq<string>)
    requires forall l | l in layers :: !Blocks(l, path)
    ensures Visible(layers, path) == Present(layers, path)
  {
    if layers != [] {
      assert layers[|layers| - 1] in layers;
      UnblockedAllVisible(layers[..|layers| - 1], path);
    }
  }

  function Present(layers: seq<Val>, path: seq<string>): seq<Val> {
    if layers == [] then []
    else Present(layers[..|layers| - 1], path) +
         match Extract(layers[|layers| - 1], path) case Some(v) => [v] case None => []
  }

  /** `extract_key`, on the parts of a dotted key. */
  method ExtractKey(data: Val, parts: seq<string>) returns (r: Option<Val>)
    ensures r == Extract(data, parts)
  {
    var current := data;
    for i := 0 to |parts|
      invariant Extract(data, parts) == Extract(current, parts[i..])
    {
      if !(current.Table? && parts[i] in current.vals) { return None; }
      assert parts[i..][1..] == parts[i + 1..];
      current := current.vals[parts[i]];
    }
    r := Some(current);
  }

  /** Both documents have a list at the path, the two are merged by a field, and some item's value under it is
      a table or a list. */
  ghost predicate BadListAt(base: Val, over: Val, path: seq<string>) {
    match (Extract(base, path), Extract(over, path))
    case (Some(Items(b)), Some(Items(o))) =>
      exists field, x :: Detect(b + o) == Some(field) && x in b + o &&
                         x.Table? && field in x.vals && !x.vals[field].Leaf?
    case _ => false
  }

  lemma {:induction false} RaisesHasPath(base: Val, over: Val) returns (path: seq<string>)
    requires Raises(base, over)
    ensures BadListAt(base, over, path)
    decreases base
  {
    match (base, over)
    case (Table(_, bv), Table(_, ov)) =>
      var k :| k in bv && k in ov && Raises(bv[k], ov[k]);
      var rest := RaisesHasPath(bv[k], ov[k]);
      path := [k] + rest;
      assert path[1..] == rest;
    case (Items(b), Items(o)) =>
      path := [];
      var x :| x in b + o && UnhashableKey(x, Detect(b + o).value);
      UnhashableExact(x, Detect(b + o).value);
  }

  lemma {:induction false} PathRaises(base: Val, over: Val, path: seq<string>)
    requires BadListAt(base, over, path)
    ensures Raises(base, over)
    decreases path
  {
    if path == [] {
      var field, x :| Detect(base.items + over.items) == Some(field) && x in base.items + over.items && x.Table? &&
                      field in x.vals && !x.vals[field].Leaf?;
      UnhashableExact(x, field);
    } else {
      PathRaises(base.vals[path[0]], over.vals[path[0]], path[1..]);
    }
  }

  /** A merge raises exactly when at some path both documents have lists that are merged by a field which some
      item fills with a table or a list. */
  lemma RaisesExact(base: Val, over: Val)
    ensures Raises(base, over) <==> exists path :: BadListAt(base, over, path)
  {
    if Raises(base, over) { var path := RaisesHasPath(base, over); }
    forall path | BadListAt(base, over, path) ensures Raises(base, over) { PathRaises(base, over, path); }
  }

  ghost predicate RaisesAt(layers: seq<Val>, i: nat)
    requires i < |layers|
  {
    FoldAll(layers[..i]).Some? && Raises(FoldAll(layers[..i]).value, layers[i])
  }

  ghost predicate FoldRaises(layers: seq<Val>) {
    exists i :: 0 < i < |layers| && RaisesAt(layers, i)
  }

  lemma FoldSnoc(layers: seq<Val>, l: Val)
    ensures FoldAll(layers + [l]) == Combine(FoldAll(layers), Some(l))
  {
    assert (layers + [l])[..|layers|] == layers;
  }

  /** The merge chain of the two resolvers: `merged = deep_merge(merged, layer)`, layer by layer. */
  method MergeLayers(layers: seq<Val>) returns (r: Result<Val, TypeError>)
    requires layers != [] && forall l | l in layers :: WellFormed(l)
    ensures r.Err? <==> FoldRaises(layers)
    ensures r.Ok? ==> Some(r.value) == FoldAll(layers)
  {
    var merged := layers[0];
    FoldSnoc([], layers[0]);
    assert layers[..1] == [] + [layers[0]];
    for i := 1 to |layers|
      invariant FoldAll(layers[..i]) == Some(merged)
      invariant WellFormed(merged)
      invariant forall j | 0 < j < i :: !RaisesAt(layers, j)
    {
      FoldSnoc(layers[..i], layers[i]);
      assert layers[..i + 1] == layers[..i] + [layers[i]];
      MergeWellFormed(merged, layers[i]);
      var next := DeepMerge(merged, layers[i]);
      assert next.Err? <==> RaisesAt(layers, i);
      if next.Err? { return next; }
      merged := next.value;
    }
    assert layers[..|layers|] == layers;
    r := Ok(merged);
  }
}
