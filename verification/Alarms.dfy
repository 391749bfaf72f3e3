/** Reports against what the file can do: every name the scanner collects stands for the table or a chain in
    some run, so a report is right exactly when its payload's text is. */
module Alarms {
  import opened Wrappers
  import opened Syntax
  import opened Payload
  import opened Aliases
  import opened Runs
  import opened Chains
  import opened Scanner

  // ---------------------------------------------------------------- trees as the parser builds them

  /** Patterns stand only where a declaration, a parameter or another pattern binds, binding elements only
      in patterns, and an element of an array pattern has no key. */
  predicate Parsed(n: Node) {
    match n
    case ObjectPattern(_) => false
    case ArrayPattern(_) => false
    case BindingElem(_, _, _) => false
    case VarDecl(b, v) => Binder(b) && forall x | x in OptKid(v) :: Parsed(x)
    case Param(b, d) => Binder(b) && forall x | x in OptKid(d) :: Parsed(x)
    case _ => forall c | c in Children(n) :: Parsed(c)
  }

  predicate Binder(b: Node) {
    match b
    case Ident(_) => true
    case ObjectPattern(es) => forall e | e in es :: Element(e)
    case ArrayPattern(es) => forall e | e in es :: (Element(e) && e.key == None) || e == Other([])
    case _ => false
  }

  predicate Element(e: Node) {
    match e
    case BindingElem(key, b, d) => Binder(b) && forall x | x in KeyKids(key) + OptKid(d) :: Parsed(x)
    case _ => false
  }

  function KeyKids(key: Option<Name>): (kids: seq<Node>)
    ensures forall x | x in kids :: key.Some? && key.value.ComputedName? && x == key.value.expr
  {
    match key case Some(k) => NameKids(k) case None => []
  }

  // ---------------------------------------------------------------- destructured table names

  /** The name is the table's own, or some place gives it the table whatever other names hold. */
  ghost predicate TableGiven(ps: seq<Place>, x: string, t: Target) {
    x == t.table || exists p :: p in ps && p.target == Ident(x) && Denotes(p.value, map[], TheTable, t)
  }

  lemma {:induction false} CollectAfter(before: seq<Binding>, n: Node, t: Target, b: Binding)
    requires b in Collect(before, n, t)
    ensures b in before || b in Collect([], n, t)
    decreases n, 1, 0
  {
    var own := OwnBindings(n, t);
    CollectBelowAfter(before + own, [] + own, n, |Children(n)|, t, b);
    if b in own { KeptBelow([] + own, n, |Children(n)|, t, b); }
  }

  lemma {:induction false} CollectBelowAfter(before: seq<Binding>, other: seq<Binding>, n: Node, k: nat, t: Target,
                                             b: Binding)
    requires k <= |Children(n)| && b in CollectBelow(before, n, k, t)
    ensures b in before || b in CollectBelow(other, n, k, t)
    decreases n, 0, k
  {
    if k > 0 {
      var kid, sofar := Children(n)[k - 1], CollectBelow(before, n, k - 1, t);
      assert kid in Children(n);
      CollectAfter(sofar, kid, t, b);
      if b in sofar {
        CollectBelowAfter(before, other, n, k - 1, t, b);
        if b !in before { KeptIn(CollectBelow(other, n, k - 1, t), kid, t, b); }
      } else {
        CollectMore([], CollectBelow(other, n, k - 1, t), kid, t, b);
      }
    }
  }

  lemma {:induction false} CollectMore(a: seq<Binding>, before: seq<Binding>, n: Node, t: Target, b: Binding)
    requires b in Collect(a, n, t) && b !in a
    ensures b in Collect(before, n, t)
    decreases n, 1, 0
  {
    var own := OwnBindings(n, t);
    if b in own {
      KeptBelow(before + own, n, |Children(n)|, t, b);
    } else {
      CollectBelowAfter(a + own, before + own, n, |Children(n)|, t, b);
    }
  }

  /** A binding of the tree below `n` is its own or one of a child's. */
  lemma {:induction false} CollectFrom(n: Node, k: nat, t: Target, b: Binding) returns (i: nat)
    requires k <= |Children(n)| && b in CollectBelow(OwnBindings(n, t), n, k, t) && b !in OwnBindings(n, t)
    ensures i < k && b in Collect([], Children(n)[i], t)
    decreases k
  {
    var sofar := CollectBelow(OwnBindings(n, t), n, k - 1, t);
    assert Children(n)[k - 1] in Children(n);
    if b in sofar {
      i := CollectFrom(n, k - 1, t, b);
    } else {
      i := k - 1;
      CollectAfter(sofar, Children(n)[i], t, b);
    }
  }

  lemma BoundBelow(n: Node, t: Target, b: Binding) returns (i: nat)
    requires b in Collect([], n, t) && b !in OwnBindings(n, t)
    ensures i < |Children(n)| && b in Collect([], Children(n)[i], t)
  {
    assert [] + OwnBindings(n, t) == OwnBindings(n, t);
    i := CollectFrom(n, |Children(n)|, t, b);
  }

  lemma {:induction false} ChildPlaces(n: Node, i: nat, k: nat, p: Place)
    requires i < k <= |Children(n)| && p in FilePlaces(Children(n)[i])
    ensures p in PlacesBelow(n, k)
    decreases k
  {
    if i < k - 1 { ChildPlaces(n, i, k - 1, p); }
  }

  lemma GivenMore(ps: seq<Place>, qs: seq<Place>, x: string, t: Target)
    requires TableGiven(ps, x, t) && forall p | p in ps :: p in qs
    ensures TableGiven(qs, x, t)
  {
  }

  lemma {:induction false} OnePattern(es: seq<Node>, i: nat, value: Node, positional: bool, p: Place)
    requires i < |es| && p in Places(es[i], value, positional)
    ensures p in AllPlaces(es, value, positional)
  {
    if i > 0 { OnePattern(es[1..], i - 1, value, positional, p); }
  }

  /** A name the scanner takes for the imported or destructured table is given it by a place. */
  lemma {:induction false} NamedIsGiven(n: Node, x: string, t: Target)
    requires Parsed(n) && TableName(x) in Collect([], n, t)
    ensures TableGiven(FilePlaces(n), x, t)
    decreases n
  {
    if TableName(x) in OwnBindings(n, t) {
      var p := Place(Ident(x), Prop(NOTHING, t.table));
      assert p in OwnPlaces(n) && Denotes(p.value, map[], TheTable, t);
    } else {
      var i := BoundBelow(n, t, TableName(x));
      var kid := Children(n)[i];
      assert kid in Children(n);
      if i == 0 && (n.VarDecl? || n.Param?) {
        var value := if n.VarDecl? then (match n.value case Some(v) => v case None => NOTHING)
                     else (match n.default case Some(v) => v case None => NOTHING);
        BinderIsGiven(kid, value, false, x, t);
        InParts(n, 0, Places(kid, value, false), OwnPlaces(n), x, t);
      } else {
        ParsedKid(n, i);
        NamedIsGiven(kid, x, t);
        InParts(n, i, [], OwnPlaces(n), x, t);
      }
    }
  }

  lemma ParsedKid(n: Node, i: nat)
    requires Parsed(n) && i < |Children(n)| && (i > 0 || !(n.VarDecl? || n.Param?))
    ensures Parsed(Children(n)[i])
  {
  }

  /** What a child's places, or some of the node's own, give is given by the node's. */
  lemma InParts(n: Node, i: nat, some: seq<Place>, own: seq<Place>, x: string, t: Target)
    requires i < |Children(n)| && TableGiven(some + FilePlaces(Children(n)[i]), x, t)
    requires forall p | p in some :: p in own
    ensures TableGiven(own + PlacesBelow(n, |Children(n)|), x, t)
  {
    forall p | p in FilePlaces(Children(n)[i]) ensures p in PlacesBelow(n, |Children(n)|) {
      ChildPlaces(n, i, |Children(n)|, p);
    }
    GivenMore(some + FilePlaces(Children(n)[i]), own + PlacesBelow(n, |Children(n)|), x, t);
  }

  lemma {:induction false} BinderIsGiven(b: Node, value: Node, positional: bool, x: string, t: Target)
    requires Binder(b) && TableName(x) in Collect([], b, t)
    ensures TableGiven(Places(b, value, positional) + FilePlaces(b), x, t)
    decreases b
  {
    var i := BoundBelow(b, t, TableName(x));
    var e := Children(b)[i];
    assert e in Children(b) && e != Other([]);
    var inner, pos := if b.ObjectPattern? then value else Elem(value, NOTHING), b.ArrayPattern?;
    ElementIsGiven(e, inner, pos, x, t);
    forall p | p in Places(e, inner, pos) ensures p in Places(b, value, positional) {
      OnePattern(b.elems, i, inner, pos, p);
    }
    InParts(b, i, Places(e, inner, pos), Places(b, value, positional), x, t);
  }

  lemma {:induction false} ElementIsGiven(e: Node, value: Node, positional: bool, x: string, t: Target)
    requires Element(e) && (positional ==> e.key == None) && TableName(x) in Collect([], e, t)
    ensures TableGiven(Places(e, value, positional) + FilePlaces(e), x, t)
    decreases e
  {
    var places := Places(e, value, positional);
    var inner := OrDefault(if positional then value else MemberOf(value, KeyOrName(e.key, e.binder)), e.default);
    assert places == Places(e.binder, inner, false);
    if TableName(x) in OwnBindings(e, t) {
      if x != t.table {
        var p := Place(Ident(x), inner);
        DefaultKeepsTable(Prop(value, t.table), e.default, t);
        assert p in places;
      }
    } else {
      var i := BoundBelow(e, t, TableName(x));
      var kid := Children(e)[i];
      assert kid in Children(e) && Children(e) == KeyKids(e.key) + [e.binder] + OptKid(e.default);
      if i == |KeyKids(e.key)| {
        BinderIsGiven(kid, inner, false, x, t);
        InParts(e, i, places, places, x, t);
      } else {
        assert kid in KeyKids(e.key) + OptKid(e.default);
        NamedIsGiven(kid, x, t);
        InParts(e, i, [], places, x, t);
      }
    }
  }

  lemma DefaultKeepsTable(value: Node, default: Option<Node>, t: Target)
    requires Denotes(value, map[], TheTable, t)
    ensures Denotes(OrDefault(value, default), map[], TheTable, t)
  {
    match default
    case Some(d) =>
      assert [value, d][0] == value;
    case None =>
  }

  // ---------------------------------------------------------------- collected names really hold their kind

  function ValueOf(kind: Kind): RunVal {
    match kind case TableKind => TheTable case ChainKind => AChain
  }

  /** Names read with the one fact; the table's own name needs none. */
  function EnvOf(u: Option<Fact>, t: Target): Env {
    match u
    case None => map[]
    case Some(f) => if f == Fact(t.table, TableKind) then map[] else map[f.name := ValueOf(f.kind)]
  }

  /** Some run lets names be read so. */
  ghost predicate Held(root: Node, env: Env, t: Target) {
    exists run, h :: Reaches(FilePlaces(root), run, h, t) && ReadFrom(env, h)
  }

  lemma NothingHeld(root: Node, t: Target)
    ensures Held(root, map[], t)
  {
    assert Reaches(FilePlaces(root), [], {}, t) && ReadFrom(map[], {});
  }

  lemma {:induction false} DenotesUnwrapped(e: Node, env: Env, v: RunVal, t: Target)
    ensures Denotes(e, env, v, t) <==> Denotes(Unwrap(e), env, v, t)
  {
    if e.Wrap? && TypeOnly(e.kind) { DenotesUnwrapped(e.inner, env, v, t); }
  }

  /** What the scanner's table test accepts, knowing one fact, denotes the table. */
  lemma TableDenoted(e: Node, u: Option<Fact>, t: Target) returns (env: Env)
    requires IsTableRef(e, Just(u), t)
    ensures (env == map[] || env == EnvOf(u, t)) && Denotes(e, env, TheTable, t)
  {
    env := if IsTableRef(e, NO_NAMES, t) then map[] else EnvOf(u, t);
    DenotesUnwrapped(e, env, TheTable, t);
    if Unwrap(e).Elem? { assert Denotes(Unwrap(e).index, env, Text(t.table), t); }
  }

  /** What its leftward walk takes for a chain, knowing one fact, denotes a chain. */
  lemma {:induction false} ChainDenoted(n: Node, u: Option<Fact>, t: Target) returns (env: Env)
    requires ChainTargets(n, Just(u), t)
    ensures (env == map[] || env == EnvOf(u, t)) && Denotes(n, env, AChain, t)
  {
    match n
    case Call(callee, args) =>
      if MemberName(callee).Some? {
        if StartsChain(args, MemberName(callee).value, Just(u), t) {
          env := TableDenoted(args[0], u, t);
          Started(callee, args, env, t);
        } else {
          env := ChainDenoted(callee.base, u, t);
          AChainIsPart(Accessed(callee).value.of, n, env, t);
        }
      } else {
        env := ChainDenoted(callee, u, t);
        match Accessed(callee) {
          case Some(a) =>
            AccessedPart(callee, env, t);
            AChainIsPart(a.of, n, env, t);
          case None => AChainIsPart(callee, n, env, t);
        }
      }
    case Prop(o, _) =>
      env := ChainDenoted(o, u, t);
      AChainIsPart(o, n, env, t);
    case Elem(o, _) =>
      env := ChainDenoted(o, u, t);
      AChainIsPart(o, n, env, t);
    case Wrap(_, e) => env := ChainDenoted(e, u, t);
    case Ident(x) => env := EnvOf(u, t);
  }

  lemma Started(callee: Node, args: seq<Node>, env: Env, t: Target)
    requires MemberName(callee) == Some("update") || MemberName(callee) == Some("insert")
    requires |args| >= 1 && Denotes(args[0], env, TheTable, t)
    ensures Denotes(Call(callee, args), env, AChain, t)
  {
    var m := MemberName(callee).value;
    if callee.Elem? { assert Denotes(callee.index, env, Text(m), t); }
    assert callee.Prop? ==> Accessed(callee).value.key == IdentName(m) && IdentName(m) in STARTERS;
  }

  /** A chain under a member access was one before it. */
  lemma {:induction false} AccessedPart(e: Node, env: Env, t: Target)
    requires Accessed(e).Some? && Denotes(e, env, AChain, t)
    ensures Denotes(Accessed(e).value.of, env, AChain, t)
  {
    if e.Wrap? { AccessedPart(e.inner, env, t); }
  }

  lemma Extended(root: Node, place: nat, env: Env, v: RunVal, x: string, t: Target)
    requires Held(root, env, t) && place < |FilePlaces(root)| && FilePlaces(root)[place].target == Ident(x)
    requires Denotes(FilePlaces(root)[place].value, env, v, t)
    ensures Held(root, map[x := v], t)
  {
    hide Denotes, FilePlaces;
    var ps := FilePlaces(root);
    var run, h :| Reaches(ps, run, h, t) && ReadFrom(env, h);
    var last, h' := Step(place, env, v), h + {(x, v)};
    var longer := run + [last];
    assert longer[..|longer| - 1] == run && longer[|longer| - 1] == last;
    assert Fills(ps, last, h, h', t);
    assert Reaches(ps, longer, h', t) && ReadFrom(map[x := v], h');
  }

  /** The name on the far end of an alias path stands for its kind in some run. */
  lemma {:induction false} PathHeld(root: Node, p: seq<Hop>, t: Target)
    requires Parsed(root) && AliasPath(Bindings(root, t), p, t)
    ensures Held(root, EnvOf(Some(FactOf(Bindings(root, t), p[|p| - 1])), t), t)
    decreases |p|
  {
    hide Parsed, FilePlaces, Denotes, Held, Collect;
    NothingHeld(root, t);
    var bs, last := Bindings(root, t), p[|p| - 1];
    var u := if |p| == 1 then None else Some(FactOf(bs, p[..|p| - 1][|p| - 2]));
    if |p| > 1 { PathHeld(root, p[..|p| - 1], t); }
    var b := bs[last.pos];
    assert b in bs;
    match b
    case TableName(x) =>
      NamedIsGiven(root, x, t);
      if x != t.table {
        var i := GivenPlace(FilePlaces(root), x, t);
        Extended(root, i, map[], TheTable, x, t);
      }
    case Bound(x, v) =>
      CollectHasPlaces([], root, t, b);
      var i :| 0 <= i < |FilePlaces(root)| && FilePlaces(root)[i] == Place(Ident(x), v);
      var env: Env;
      if last.kind == TableKind {
        env := TableDenoted(v, u, t);
      } else {
        env := ChainDenoted(Unwrap(v), u, t);
        DenotesUnwrapped(v, env, AChain, t);
      }
      Extended(root, i, env, ValueOf(last.kind), x, t);
  }

  lemma GivenPlace(ps: seq<Place>, x: string, t: Target) returns (i: nat)
    requires TableGiven(ps, x, t) && x != t.table
    ensures i < |ps| && ps[i].target == Ident(x) && Denotes(ps[i].value, map[], TheTable, t)
  {
    var p :| p in ps && p.target == Ident(x) && Denotes(p.value, map[], TheTable, t);
    i :| 0 <= i < |ps| && ps[i] == p;
  }

  /** Every name the scanner collects stands for the table, or for a chain, in some run of the file. */
  lemma CollectedHeld(root: Node, f: Fact, t: Target)
    requires Parsed(root) && Knows(Collected(root, t), f)
    ensures Held(root, EnvOf(Some(f), t), t)
  {
    hide PathTo, Held, Collect;
    var bs := Bindings(root, t);
    assert bs[..0] == [];
    NothingInvented(bs, 2, 0, f, t);
    var p := ExplainedPath(bs, 2, 0, f, t);
    PathHeld(root, p, t);
  }

  lemma ExplainedPath(bs: seq<Binding>, r: nat, j: nat, f: Fact, t: Target) returns (p: seq<Hop>)
    requires Explained(bs, r, j, f, t)
    ensures AliasPath(bs, p, t) && FactOf(bs, p[|p| - 1]) == f
  {
    p :| PathTo(bs, p, f, t) && (Inversions(p) < r || (Inversions(p) == r && p[|p| - 1].pos < j));
  }

  // ---------------------------------------------------------------- reports are right

  /** A reported node is a write of the table in some run. */
  lemma ReportedOnTable(root: Node, n: Node, t: Target) returns (env: Env)
    requires Parsed(root) && Report(n, Collected(root, t), t).Some?
    ensures Held(root, env, t) && OnTable(n, env, t)
  {
    hide Parsed, Collected, Held, Denotes, ChainTargets, IsTableRef;
    var names := Collected(root, t);
    NothingHeld(root, t);
    if n.Call? {
      var u := ChainNeedsOne(n.callee.base, names, t);
      if u.Some? { CollectedHeld(root, u.value, t); }
      env := ChainDenoted(n.callee.base, u, t);
    } else {
      env := TargetDenoted(root, n.left.base, t);
      assert FillsColumn(n.left, env, t) && Places(n.left, n.right, false)[0].target == n.left;
    }
  }

  lemma TargetDenoted(root: Node, o: Node, t: Target) returns (env: Env)
    requires Parsed(root) && (TableNameOf(o) == Some(t.table) || IsTableRef(o, Collected(root, t), t))
    ensures Held(root, env, t) && Denotes(o, env, TheTable, t)
  {
    hide Parsed, Collected, Held;
    NothingHeld(root, t);
    if TableNameOf(o) == Some(t.table) {
      env := TableDenoted(o, None, t);
    } else {
      var u := TableRefNeedsOne(o, Collected(root, t), t);
      if u.Some? { CollectedHeld(root, u.value, t); }
      env := TableDenoted(o, u, t);
    }
  }

  /** Every report is right: the node may write a guarded column exactly when its text does not settle that
      it never does, and under some run writes one whatever the valuation exactly when its text says so. */
  lemma ReportIsRight(root: Node, n: Node, t: Target)
    requires t.Valid() && t.columns != {} && Parsed(root) && Report(n, Collected(root, t), t).Some?
    ensures MayWrite(root, n, t) <==> SiteTruth(n, t) != Never
    ensures AlwaysWrites(root, n, t) <==> SiteTruth(n, t) == Always
  {
    var names := Collected(root, t);
    var env := ReportedOnTable(root, n, t);
    hide Parsed, Report, OnTable, SiteTruth, Reaches, FilePlaces, SiteWrites, Collected;
    var run, h :| Reaches(FilePlaces(root), run, h, t) && ReadFrom(env, h);
    forall e: Env { ReportedSite(n, names, e, t); }
    assert Writes(n, env, t) <==> SiteTruth(n, t) != Never;
  }
}
