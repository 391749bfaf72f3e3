/** Spellings the field-worker scanner does not follow: for each, a file or a node that may write a guarded
    column and is not reported. */
module Missed {
  import opened Wrappers
  import opened Syntax
  import opened Payload
  import opened Aliases
  import opened Runs
  import opened Chains
  import opened Scanner

  const TABLE := FIELD_WORKERS.table

  const PAYLOAD := ObjectLit([PropAssign(IdentName("district"), Ident("v"))])

  /** `db.update(x)` */
  function Update(x: string): Node {
    Call(Prop(Ident("db"), "update"), [Ident(x)])
  }

  /** `db.update(x).set({ district: v })` */
  function SetSite(x: string): Node {
    Call(Prop(Update(x), "set"), [PAYLOAD])
  }

  lemma PayloadWrites(v: Val)
    requires v == Obj([{"district"}])
    ensures Evaluates(PAYLOAD, v) && WriteHolds(v, FIELD_WORKERS)
  {
    assert "district" in v.keys[0] * FIELD_WORKERS.columns;
    assert Contributes(PAYLOAD.members[0], {"district"});
  }

  // ---------------------------------------------------------------- binding forms

  /** The file makes `x` the table, the scanner learns nothing, and the write through `x` goes unreported. */
  ghost predicate Misses(root: Node, x: string) {
    && MayWrite(root, SetSite(x), FIELD_WORKERS)
    && Report(SetSite(x), Collected(root, FIELD_WORKERS), FIELD_WORKERS) == None
    && !Transparent(root, FIELD_WORKERS)
  }

  lemma UpdateIsChain(x: string, env: Env)
    requires x in env && env[x] == TheTable
    ensures Denotes(Update(x), env, AChain, FIELD_WORKERS)
  {
    assert Denotes(Ident(x), env, TheTable, FIELD_WORKERS);
    assert Accessed(Prop(Ident("db"), "update")) == Some(Access(Ident("db"), IdentName("update")));
    assert IdentName("update") in STARTERS;
  }

  lemma SetSiteWrites(x: string, env: Env)
    requires x in env && env[x] == TheTable
    ensures Writes(SetSite(x), env, FIELD_WORKERS)
  {
    UpdateIsChain(x, env);
    PayloadWrites(Obj([{"district"}]));
    assert Accessed(Prop(Update(x), "set")) == Some(Access(Update(x), IdentName("set")));
  }

  lemma OneFill(ps: seq<Place>, i: nat, x: string, v: RunVal)
    requires i < |ps| && ps[i].target == Ident(x) && Denotes(ps[i].value, map[], v, FIELD_WORKERS)
    ensures Reaches(ps, [Step(i, map[], v)], {(x, v)}, FIELD_WORKERS)
  {
    var s, none: History := Step(i, map[], v), {};
    var run := [s];
    assert run[..|run| - 1] == [] && run[|run| - 1] == s;
    assert Reaches(ps, run[..|run| - 1], none, FIELD_WORKERS);
    assert Fills(ps, s, none, {(x, v)}, FIELD_WORKERS);
  }

  lemma OneBinding(root: Node, x: string, value: Node, v: RunVal) returns (run: seq<Step>, h: History)
    requires Place(Ident(x), value) in FilePlaces(root) && Denotes(value, map[], v, FIELD_WORKERS)
    ensures h == {(x, v)} && Reaches(FilePlaces(root), run, h, FIELD_WORKERS)
  {
    hide FilePlaces, Denotes, Reaches;
    var ps := FilePlaces(root);
    var i :| 0 <= i < |ps| && ps[i] == Place(Ident(x), value);
    OneFill(ps, i, x, v);
    run, h := [Step(i, map[], v)], {(x, v)};
  }

  lemma NotReported(x: string)
    requires x != TABLE
    ensures Report(SetSite(x), NO_NAMES, FIELD_WORKERS) == None
  {
    assert !IsTableRef(Ident(x), NO_NAMES, FIELD_WORKERS);
    assert !ChainTargets(Update(x), NO_NAMES, FIELD_WORKERS);
  }

  lemma MissedThrough(root: Node, x: string, value: Node)
    requires Place(Ident(x), value) in FilePlaces(root) && Denotes(value, map[], TheTable, FIELD_WORKERS)
    requires x != TABLE && InertTree(root, FIELD_WORKERS)
    ensures Misses(root, x)
  {
    hide Report, Writes, Denotes, FilePlaces, Reaches, InertTree, Transparent, Collected;
    var run, h := OneBinding(root, x, value, TheTable);
    var env: Env := map[x := TheTable];
    assert ReadFrom(env, h);
    SetSiteWrites(x, env);
    NothingCollected(root, FIELD_WORKERS);
    NotReported(x);
    assert (x, TheTable) in h;
    if Transparent(root, FIELD_WORKERS) {
      RunsCollected(root, run, h, FIELD_WORKERS);
    }
  }

  lemma OwnIsFile(n: Node, p: Place)
    requires p in OwnPlaces(n)
    ensures p in FilePlaces(n)
  {
  }

  lemma TableUnbound(options: seq<Node>, i: nat)
    requires i < |options| && options[i] == Ident(TABLE)
    ensures Denotes(Ident(TABLE), map[], TheTable, FIELD_WORKERS)
    ensures Denotes(Pick([], options), map[], TheTable, FIELD_WORKERS)
  {
    assert Denotes(options[i], map[], TheTable, FIELD_WORKERS);
  }

  lemma MemberUnbound(o: Node)
    ensures Denotes(Prop(o, TABLE), map[], TheTable, FIELD_WORKERS)
    ensures Denotes(Elem(o, Str(TABLE)), map[], TheTable, FIELD_WORKERS)
  {
    assert Denotes(Str(TABLE), map[], Text(TABLE), FIELD_WORKERS);
  }

  /** A declaration by a pattern with one element, none of whose bindings the scanner learns from. */
  lemma PatternMissed(elem: Node, source: string, x: string, value: Node)
    requires Places(elem, Ident(source), false) == [Place(Ident(x), value)]
    requires Denotes(value, map[], TheTable, FIELD_WORKERS) && x != TABLE && InertTree(elem, FIELD_WORKERS)
    ensures Misses(VarDecl(ObjectPattern([elem]), Some(Ident(source))), x)
  {
    hide Misses, Denotes, FilePlaces;
    var root := VarDecl(ObjectPattern([elem]), Some(Ident(source)));
    assert [elem][1..] == [] && AllPlaces([elem], Ident(source), false) == [Place(Ident(x), value)];
    assert OwnPlaces(root) == AllPlaces([elem], Ident(source), false);
    OwnIsFile(root, Place(Ident(x), value));
    assert InertTree(ObjectPattern([elem]), FIELD_WORKERS) && InertTree(Ident(source), FIELD_WORKERS);
    MissedThrough(root, x, value);
  }

  /** `const { t = fieldWorkers } = opts` */
  lemma DefaultMissed()
    ensures Misses(VarDecl(ObjectPattern([BindingElem(None, Ident("t"), Some(Ident(TABLE)))]),
                           Some(Ident("opts"))), "t")
  {
    hide Misses, Denotes, FilePlaces;
    var elem := BindingElem(None, Ident("t"), Some(Ident(TABLE)));
    var options := [Prop(Ident("opts"), "t"), Ident(TABLE)];
    TableUnbound(options, 1);
    assert Children(elem) == [Ident("t"), Ident(TABLE)];
    assert InertTree(Ident("t"), FIELD_WORKERS) && InertTree(Ident(TABLE), FIELD_WORKERS);
    PatternMissed(elem, "opts", "t", Pick([], options));
  }

  /** `const { ['fieldWorkers']: fw } = schema` */
  lemma ComputedKeyMissed()
    ensures Misses(VarDecl(ObjectPattern([BindingElem(Some(ComputedName(Str(TABLE))), Ident("fw"), None)]),
                           Some(Ident("schema"))), "fw")
  {
    hide Misses, Denotes, FilePlaces;
    var elem := BindingElem(Some(ComputedName(Str(TABLE))), Ident("fw"), None);
    MemberUnbound(Ident("schema"));
    assert Children(elem) == [Str(TABLE), Ident("fw")];
    assert InertTree(Str(TABLE), FIELD_WORKERS) && InertTree(Ident("fw"), FIELD_WORKERS);
    PatternMissed(elem, "schema", "fw", Elem(Ident("schema"), Str(TABLE)));
  }

  /** `({ fieldWorkers: fw } = schema)` */
  lemma AssignmentPatternMissed()
    ensures Misses(Assign(Plain, ObjectLit([PropAssign(IdentName(TABLE), Ident("fw"))]), Ident("schema")), "fw")
  {
    hide Misses, Denotes, FilePlaces;
    var m := PropAssign(IdentName(TABLE), Ident("fw"));
    var root := Assign(Plain, ObjectLit([m]), Ident("schema"));
    var p := Place(Ident("fw"), Prop(Ident("schema"), TABLE));
    assert [m][1..] == [] && Places(m, Ident("schema"), false) == [p];
    assert OwnPlaces(root) == AllPlaces([m], Ident("schema"), false) == [p];
    OwnIsFile(root, p);
    MemberUnbound(Ident("schema"));
    assert Children(m) == [Ident("fw")] && InertTree(Ident("fw"), FIELD_WORKERS) && InertTree(m, FIELD_WORKERS);
    assert InertTree(ObjectLit([m]), FIELD_WORKERS) && InertTree(Ident("schema"), FIELD_WORKERS);
    MissedThrough(root, "fw", Prop(Ident("schema"), TABLE));
  }

  /** `function f(t = fieldWorkers)` */
  lemma ParameterDefaultMissed()
    ensures Misses(Param(Ident("t"), Some(Ident(TABLE))), "t")
  {
    hide Misses, Denotes, FilePlaces;
    OwnIsFile(Param(Ident("t"), Some(Ident(TABLE))), Place(Ident("t"), Ident(TABLE)));
    TableUnbound([Ident(TABLE)], 0);
    MissedThrough(Param(Ident("t"), Some(Ident(TABLE))), "t", Ident(TABLE));
  }

  /** `t ??= fieldWorkers` */
  lemma LogicalAssignmentMissed()
    ensures Misses(Assign(Logical, Ident("t"), Ident(TABLE)), "t")
  {
    hide Misses, Denotes, FilePlaces;
    OwnIsFile(Assign(Logical, Ident("t"), Ident(TABLE)), Place(Ident("t"), Ident(TABLE)));
    TableUnbound([Ident(TABLE)], 0);
    MissedThrough(Assign(Logical, Ident("t"), Ident(TABLE)), "t", Ident(TABLE));
  }

  /** `const t = fallback || fieldWorkers` */
  lemma ChoiceMissed()
    ensures Misses(VarDecl(Ident("t"), Some(Pick([], [Ident("fallback"), Ident(TABLE)]))), "t")
  {
    hide Misses, Denotes, FilePlaces;
    var options := [Ident("fallback"), Ident(TABLE)];
    var root := VarDecl(Ident("t"), Some(Pick([], options)));
    OwnIsFile(root, Place(Ident("t"), Pick([], options)));
    TableUnbound(options, 1);
    assert InertTree(options[0], FIELD_WORKERS) && InertTree(options[1], FIELD_WORKERS);
    assert Children(Pick([], options)) == options && InertTree(Pick([], options), FIELD_WORKERS);
    assert Children(root) == [Ident("t"), Pick([], options)] && InertTree(Ident("t"), FIELD_WORKERS);
    MissedThrough(root, "t", Pick([], options));
  }

  // ---------------------------------------------------------------- write forms

  /** The node writes in every file, and no names make the scanner report it. */
  ghost predicate NeverReported(n: Node) {
    && (forall root :: MayWrite(root, n, FIELD_WORKERS))
    && (forall names :: Report(n, names, FIELD_WORKERS) == None)
  }

  lemma WritesUnbound(root: Node, n: Node)
    requires Writes(n, map[], FIELD_WORKERS)
    ensures MayWrite(root, n, FIELD_WORKERS)
  {
    assert Reaches(FilePlaces(root), [], {}, FIELD_WORKERS) && ReadFrom(map[], {});
  }

  lemma UpdateStarts(env: Env)
    requires TABLE !in env
    ensures Denotes(Update(TABLE), env, AChain, FIELD_WORKERS)
  {
    assert Denotes(Ident(TABLE), env, TheTable, FIELD_WORKERS);
    assert Accessed(Prop(Ident("db"), "update")) == Some(Access(Ident("db"), IdentName("update")));
    assert IdentName("update") in STARTERS;
  }

  /** A call of a member of `db.update(fieldWorkers)` that can be `set`, with the payload first. */
  lemma SetWrites(n: Node, key: Name, env: Env)
    requires n.Call? && |n.args| >= 1 && n.args[0] == PAYLOAD && TABLE !in env
    requires Accessed(n.callee) == Some(Access(Update(TABLE), key)) && Spells(key, env, "set", FIELD_WORKERS)
    ensures Writes(n, env, FIELD_WORKERS)
  {
    hide Denotes, Evaluates, WriteHolds;
    UpdateStarts(env);
    PayloadWrites(Obj([{"district"}]));
  }

  /** `fieldWorkers['district'] = v` */
  lemma ElementWriteMissed(v: Node)
    ensures NeverReported(Assign(Plain, Elem(Ident(TABLE), Str("district")), v))
  {
    var target := Elem(Ident(TABLE), Str("district"));
    var n := Assign(Plain, target, v);
    assert Denotes(Str("district"), map[], Text("district"), FIELD_WORKERS) && "district" in FIELD_WORKERS.columns;
    assert FillsColumn(target, map[], FIELD_WORKERS);
    assert Places(target, v, false)[0] == Place(target, v);
    forall root { WritesUnbound(root, n); }
  }

  lemma PatternWrites(m: Node, v: Node)
    requires m == PropAssign(IdentName("a"), Prop(Ident(TABLE), "district"))
    ensures Writes(Assign(Plain, ObjectLit([m]), v), map[], FIELD_WORKERS)
  {
    var p := Place(Prop(Ident(TABLE), "district"), Prop(v, "a"));
    PatternPlace(m, v, p);
    assert "district" in FIELD_WORKERS.columns;
    assert Denotes(Ident(TABLE), map[], TheTable, FIELD_WORKERS);
    assert FillsColumn(p.target, map[], FIELD_WORKERS);
  }

  lemma PatternPlace(m: Node, v: Node, p: Place)
    requires m == PropAssign(IdentName("a"), p.target) && p.target.Prop? && p.value == Prop(v, "a")
    ensures p in Places(ObjectLit([m]), v, false)
  {
    assert Places(m, v, false) == [p];
    assert AllPlaces([m], v, false)[0] == p;
  }

  /** `({ a: fieldWorkers.district } = row)` */
  lemma PatternWriteMissed(v: Node)
    ensures NeverReported(Assign(Plain, ObjectLit([PropAssign(IdentName("a"), Prop(Ident(TABLE), "district"))]), v))
  {
    hide Writes, MayWrite;
    var m := PropAssign(IdentName("a"), Prop(Ident(TABLE), "district"));
    PatternWrites(m, v);
    forall root { WritesUnbound(root, Assign(Plain, ObjectLit([m]), v)); }
  }

  lemma SpelledNeverReported(n: Node)
    requires n.Call? && |n.args| >= 1 && n.args[0] == PAYLOAD
    requires Accessed(n.callee) == Some(Access(Update(TABLE), IdentName("set")))
    requires n.callee.Wrap? || |n.args| != 1
    ensures NeverReported(n)
  {
    hide MayWrite, Writes;
    SetWrites(n, IdentName("set"), map[]);
    forall root { WritesUnbound(root, n); }
    forall names ensures Report(n, names, FIELD_WORKERS) == None {}
  }

  /** `db.update(fieldWorkers).set({ district: v }, extra)` */
  lemma ExtraArgumentMissed(extra: Node)
    ensures NeverReported(Call(Prop(Update(TABLE), "set"), [PAYLOAD, extra]))
  {
    hide NeverReported;
    SpelledNeverReported(Call(Prop(Update(TABLE), "set"), [PAYLOAD, extra]));
  }

  /** `(db.update(fieldWorkers).set)({ district: v })` */
  lemma WrappedMethodMissed()
    ensures NeverReported(Call(Wrap(Paren, Prop(Update(TABLE), "set")), [PAYLOAD]))
  {
    hide NeverReported;
    assert Accessed(Prop(Update(TABLE), "set")) == Some(Access(Update(TABLE), IdentName("set")));
    SpelledNeverReported(Call(Wrap(Paren, Prop(Update(TABLE), "set")), [PAYLOAD]));
  }

  /** `const m = 'set'`, then `db.update(fieldWorkers)[m]({ district: v })` */
  lemma ComputedMethodMissed()
    ensures MayWrite(VarDecl(Ident("m"), Some(Str("set"))), Call(Elem(Update(TABLE), Ident("m")), [PAYLOAD]),
                     FIELD_WORKERS)
    ensures forall names :: Report(Call(Elem(Update(TABLE), Ident("m")), [PAYLOAD]), names, FIELD_WORKERS) == None
  {
    hide Reaches, FilePlaces, Report, Writes, Update;
    ComputedMethodWrites(Call(Elem(Update(TABLE), Ident("m")), [PAYLOAD]), map["m" := Text("set")]);
    var root := VarDecl(Ident("m"), Some(Str("set")));
    OwnIsFile(root, Place(Ident("m"), Str("set")));
    var run, h := OneBinding(root, "m", Str("set"), Text("set"));
    assert ReadFrom(map["m" := Text("set")], h);
    forall names { ComputedUnreported(Update(TABLE), "m", names); }
  }

  lemma ComputedMethodWrites(n: Node, env: Env)
    requires n == Call(Elem(Update(TABLE), Ident("m")), [PAYLOAD]) && env == map["m" := Text("set")]
    ensures Writes(n, env, FIELD_WORKERS)
  {
    hide Writes, Update;
    assert TABLE !in env;
    SetWrites(n, ComputedName(Ident("m")), env);
  }

  lemma ComputedUnreported(o: Node, m: string, names: Names)
    ensures Report(Call(Elem(o, Ident(m)), [PAYLOAD]), names, FIELD_WORKERS) == None
  {
  }

  // ---------------------------------------------------------------- upserts reported for the wrong `set`

  /** `db.insert(fieldWorkers).onConflictDoUpdate({ set: { district: v }, m })` */
  function UpsertSite(m: Node): Node {
    Call(Prop(Call(Prop(Ident("db"), "insert"), [Ident(TABLE)]), "onConflictDoUpdate"),
         [ObjectLit([PropAssign(IdentName("set"), PAYLOAD), m])])
  }

  /** The scanner reports it as guarded, whatever the names. */
  lemma UpsertIsGuarded(m: Node, names: Names)
    ensures Report(UpsertSite(m), names, FIELD_WORKERS) == Some(Detail(UpsertCall, Guarded))
  {
    var members := [PropAssign(IdentName("set"), PAYLOAD), m];
    assert FirstSet(members) == ReadSet(members[0]) == SetTo(PAYLOAD);
    assert ReadKey(PAYLOAD.members[0]) == Some("district") && "district" in FIELD_WORKERS.columns;
    assert PayloadShape(PAYLOAD, FIELD_WORKERS) == Guarded;
    assert StartsChain([Ident(TABLE)], "insert", names, FIELD_WORKERS);
  }

  /** `{ set: { district: v }, set: {} }`: reported as guarded, and never writes. */
  lemma OverriddenSetNeverWrites(root: Node)
    ensures !MayWrite(root, UpsertSite(PropAssign(IdentName("set"), ObjectLit([]))), FIELD_WORKERS)
  {
    hide Report, MayWrite, SetTruth;
    var m := PropAssign(IdentName("set"), ObjectLit([]));
    UpsertIsGuarded(m, NO_NAMES);
    OwnColumns();
    LastSetNever(m);
    if MayWrite(root, UpsertSite(m), FIELD_WORKERS) {
      ReportedWrites(root, UpsertSite(m), NO_NAMES, FIELD_WORKERS);
    }
  }

  lemma LastSetNever(m: Node)
    requires m == PropAssign(IdentName("set"), ObjectLit([]))
    ensures SetTruth(UpsertSite(m).args[0], FIELD_WORKERS) == Never
  {
    var members := [PropAssign(IdentName("set"), PAYLOAD), m];
    assert DefinesSet(members[1]) && !LastSet(members, 0) && LastSet(members, 1);
    assert PayloadTruth(ObjectLit([]), FIELD_WORKERS) == Never;
    assert UpsertSite(m).args[0] == ObjectLit(members);
  }

  lemma OwnColumns()
    ensures FIELD_WORKERS.Valid() && FIELD_WORKERS.columns != {}
  {
    assert "district" in FIELD_WORKERS.columns;
  }

  /** `{ set: { district: v }, ...rest }`: reported as guarded, and writes under some valuations only. */
  lemma SpreadSetMayNotWrite(root: Node, rest: Node)
    ensures var n := UpsertSite(SpreadMember(rest));
            MayWrite(root, n, FIELD_WORKERS) && !AlwaysWrites(root, n, FIELD_WORKERS)
  {
    hide Report, Denotes, WriteHolds, SetTruth, AlwaysWrites;
    var n := UpsertSite(SpreadMember(rest));
    SpreadSetDepends(n, rest);
    InsertStarts();
    assert Accessed(n.callee) == Some(Access(n.callee.base, IdentName("onConflictDoUpdate")));
    WritesUnbound(root, n);
    UpsertIsGuarded(SpreadMember(rest), NO_NAMES);
    OwnColumns();
    ReportedWrites(root, n, NO_NAMES, FIELD_WORKERS);
  }

  lemma SpreadSetDepends(n: Node, rest: Node)
    requires n == UpsertSite(SpreadMember(rest))
    ensures SetTruth(n.args[0], FIELD_WORKERS) == Depends
    ensures exists u :: SetEvaluates(n.args[0], u) && SetHolds(u, FIELD_WORKERS)
  {
    var members := [PropAssign(IdentName("set"), PAYLOAD), SpreadMember(rest)];
    assert n.args[0] == ObjectLit(members);
    assert LastSet(members, 0) && LastSet(members, 1) && !members[1].PropAssign?;
    PayloadWrites(Obj([{"district"}]));
    assert SetEvaluates(ObjectLit(members), Some(Obj([{"district"}])));
  }

  lemma InsertStarts()
    ensures Denotes(Call(Prop(Ident("db"), "insert"), [Ident(TABLE)]), map[], AChain, FIELD_WORKERS)
  {
    assert Denotes(Ident(TABLE), map[], TheTable, FIELD_WORKERS);
    assert Accessed(Prop(Ident("db"), "insert")) == Some(Access(Ident("db"), IdentName("insert")));
    assert IdentName("insert") in STARTERS;
  }

  // ---------------------------------------------------------------- wrappers

  /** A chain in a `<T>` or `satisfies` wrapper is still a chain, and never seen as one. */
  lemma BlindToChain(e: Node, kind: WrapKind, names: Names, env: Env, t: Target)
    requires kind == TypeAssertion || kind == Satisfies
    ensures Denotes(Wrap(kind, e), env, AChain, t) <==> Denotes(e, env, AChain, t)
    ensures !ChainTargets(Wrap(kind, e), names, t)
  {
  }

  /** A table under `await` is still the table, and never seen as it. */
  lemma BlindToTable(e: Node, names: Names, env: Env, t: Target)
    ensures Denotes(Wrap(Await, e), env, TheTable, t) <==> Denotes(e, env, TheTable, t)
    ensures !IsTableRef(Wrap(Await, e), names, t)
  {
  }
}
