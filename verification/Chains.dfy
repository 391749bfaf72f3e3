/** What the scanner's names say about what a file can do: which expressions are clear of the table and of
    its chains, and which files the names cover. */
module Chains {
  import opened Wrappers
  import opened Syntax
  import opened Payload
  import opened Aliases
  import opened Runs

  const BUILDERS := {"update", "insert"}
  const WRITERS := {"set", "values", "onConflictDoUpdate"}

  /** The texts that matter as computed keys. */
  function Reserved(t: Target): set<string> {
    {t.table} + BUILDERS + WRITERS + t.columns
  }

  /** What the scanner knows of a file, and whether no name of the file is given a reserved text. */
  datatype View = View(names: Names, textFree: bool)

  /** `e` is none of the texts `ss`, when no name holds one unless `textFree` is false. */
  predicate CannotSpell(e: Node, ss: set<string>, textFree: bool) {
    match e
    case Ident(_) => textFree
    case Str(s) => s !in ss
    case Template(s) => s !in ss
    case Wrap(_, inner) => CannotSpell(inner, ss, textFree)
    case Pick(_, options) => forall o | o in options :: CannotSpell(o, ss, textFree)
    case Assign(op, l, r) => CannotSpell(r, ss, textFree) && (op == Logical ==> CannotSpell(l, ss, textFree))
    case Spread(_) => false
    case _ => true
  }

  predicate KeyCannot(key: Name, ss: set<string>, textFree: bool) {
    match key
    case IdentName(x) => x !in ss
    case ComputedName(e) => CannotSpell(e, ss, textFree)
    case _ => true
  }

  /** `e` is clearly not the table. */
  predicate NeverTable(e: Node, view: View, t: Target) {
    match e
    case Ident(x) => x != t.table && x !in view.names.tables
    case Wrap(_, inner) => NeverTable(inner, view, t)
    case Prop(_, m) => m != t.table
    case Elem(_, i) => CannotSpell(i, {t.table}, view.textFree)
    case Pick(_, options) => forall o | o in options :: NeverTable(o, view, t)
    case Assign(op, l, r) => NeverTable(r, view, t) && (op == Logical ==> NeverTable(l, view, t))
    case Spread(_) => false
    case _ => true
  }

  /** `e` is clearly no chain on the table. */
  predicate NeverChain(e: Node, view: View, t: Target) {
    match e
    case Ident(x) => x !in view.names.chains
    case Wrap(_, inner) => NeverChain(inner, view, t)
    case Call(callee, args) =>
      (match Accessed(callee)
       case Some(a) =>
         && (|args| == 0 || KeyCannot(a.key, BUILDERS, view.textFree) || NeverTable(args[0], view, t))
         && NeverChain(a.of, view, t)
       case None => NeverChain(callee, view, t))
    case Prop(o, _) => NeverChain(o, view, t)
    case Elem(o, _) => NeverChain(o, view, t)
    case Pick(_, options) => forall o | o in options :: NeverChain(o, view, t)
    case Assign(op, l, r) => NeverChain(r, view, t) && (op == Logical ==> NeverChain(l, view, t))
    case Spread(_) => false
    case _ => true
  }

  /** The view covers every interesting value the environment holds. */
  ghost predicate Covers(view: View, env: Env, t: Target) {
    forall x | x in env ::
      && (env[x] == TheTable ==> x in view.names.tables)
      && (env[x] == AChain ==> x in view.names.chains)
      && (view.textFree && env[x].Text? ==> env[x].s !in Reserved(t))
  }

  // ---------------------------------------------------------------- clear means clear

  lemma {:induction false} SpellingClear(e: Node, ss: set<string>, view: View, env: Env, s: string, t: Target)
    requires Covers(view, env, t) && ss <= Reserved(t) && s in ss && CannotSpell(e, ss, view.textFree)
    ensures !Denotes(e, env, Text(s), t)
  {
    match e
    case Wrap(_, inner) => SpellingClear(inner, ss, view, env, s, t);
    case Pick(_, options) =>
      forall k | 0 <= k < |options| ensures !Denotes(options[k], env, Text(s), t) {
        assert options[k] in options;
        SpellingClear(options[k], ss, view, env, s, t);
      }
    case Assign(op, l, r) =>
      SpellingClear(r, ss, view, env, s, t);
      if op == Logical { SpellingClear(l, ss, view, env, s, t); }
    case _ =>
  }

  lemma KeyClear(key: Name, ss: set<string>, view: View, env: Env, s: string, t: Target)
    requires Covers(view, env, t) && ss <= Reserved(t) && s in ss && KeyCannot(key, ss, view.textFree)
    ensures !Spells(key, env, s, t)
  {
    if key.ComputedName? { SpellingClear(key.expr, ss, view, env, s, t); }
  }

  lemma {:induction false} TableClear(e: Node, view: View, env: Env, t: Target)
    requires Covers(view, env, t) && NeverTable(e, view, t)
    ensures !Denotes(e, env, TheTable, t)
  {
    match e
    case Wrap(_, inner) => TableClear(inner, view, env, t);
    case Elem(_, i) => SpellingClear(i, {t.table}, view, env, t.table, t);
    case Pick(_, options) =>
      forall k | 0 <= k < |options| ensures !Denotes(options[k], env, TheTable, t) {
        assert options[k] in options;
        TableClear(options[k], view, env, t);
      }
    case Assign(op, l, r) =>
      TableClear(r, view, env, t);
      if op == Logical { TableClear(l, view, env, t); }
    case _ =>
  }

  lemma {:induction false} ChainClear(e: Node, view: View, env: Env, t: Target)
    requires Covers(view, env, t) && NeverChain(e, view, t)
    ensures !Denotes(e, env, AChain, t)
  {
    match e
    case Wrap(_, inner) => ChainClear(inner, view, env, t);
    case Call(callee, args) =>
      match Accessed(callee) {
        case Some(a) =>
          ChainClear(a.of, view, env, t);
          CallClear(callee, args, a, view, env, t);
        case None => ChainClear(callee, view, env, t);
      }
    case Prop(o, _) => ChainClear(o, view, env, t);
    case Elem(o, _) => ChainClear(o, view, env, t);
    case Pick(_, options) =>
      forall k | 0 <= k < |options| ensures !Denotes(options[k], env, AChain, t) {
        assert options[k] in options;
        ChainClear(options[k], view, env, t);
      }
    case Assign(op, l, r) =>
      ChainClear(r, view, env, t);
      if op == Logical { ChainClear(l, view, env, t); }
    case _ =>
  }

  lemma CallClear(callee: Node, args: seq<Node>, a: Access, view: View, env: Env, t: Target)
    requires Covers(view, env, t) && Accessed(callee) == Some(a) && !Denotes(a.of, env, AChain, t)
    requires |args| == 0 || KeyCannot(a.key, BUILDERS, view.textFree) || NeverTable(args[0], view, t)
    ensures !Denotes(Call(callee, args), env, AChain, t)
  {
    hide KeyCannot, NeverTable;
    NoneStarted(a.key, args, view, env, t);
    if Denotes(Call(callee, args), env, AChain, t) { StartedOrPart(callee, args, a, env, t); }
  }

  lemma StartedOrPart(callee: Node, args: seq<Node>, a: Access, env: Env, t: Target)
    requires Accessed(callee) == Some(a) && Denotes(Call(callee, args), env, AChain, t)
    ensures Denotes(a.of, env, AChain, t) ||
            (|args| >= 1 && Denotes(args[0], env, TheTable, t) &&
             (Spells(a.key, env, "update", t) || Spells(a.key, env, "insert", t)))
  {
  }

  lemma NoneStarted(key: Name, args: seq<Node>, view: View, env: Env, t: Target)
    requires Covers(view, env, t)
    requires |args| == 0 || KeyCannot(key, BUILDERS, view.textFree) || NeverTable(args[0], view, t)
    ensures |args| >= 1 && Denotes(args[0], env, TheTable, t) ==>
              !Spells(key, env, "update", t) && !Spells(key, env, "insert", t)
  {
    if |args| >= 1 {
      if KeyCannot(key, BUILDERS, view.textFree) {
        KeyClear(key, BUILDERS, view, env, "update", t);
        KeyClear(key, BUILDERS, view, env, "insert", t);
      } else {
        TableClear(args[0], view, env, t);
      }
    }
  }

  // ---------------------------------------------------------------- not clear means possible

  /** An expression that is not clear of the texts denotes one of them in some covered environment. */
  lemma {:induction false} SpellingReal(e: Node, ss: set<string>, view: View, t: Target) returns (env: Env, s: string)
    requires ss != {} && !CannotSpell(e, ss, view.textFree)
    ensures Covers(view, env, t) && s in ss && Denotes(e, env, Text(s), t)
  {
    match e
    case Ident(x) =>
      s :| s in ss;
      env := map[x := Text(s)];
    case Str(x) => env, s := map[], x;
    case Template(x) => env, s := map[], x;
    case Wrap(_, inner) => env, s := SpellingReal(inner, ss, view, t);
    case Pick(_, options) =>
      var k :| 0 <= k < |options| && !CannotSpell(options[k], ss, view.textFree);
      env, s := SpellingReal(options[k], ss, view, t);
    case Assign(op, l, r) =>
      if CannotSpell(r, ss, view.textFree) {
        env, s := SpellingReal(l, ss, view, t);
      } else {
        env, s := SpellingReal(r, ss, view, t);
      }
    case Spread(_) =>
      s :| s in ss;
      env := map[];
  }

  /** An expression that is not clear of the table denotes it in some covered environment. */
  lemma {:induction false} TableReal(e: Node, view: View, t: Target) returns (env: Env)
    requires !NeverTable(e, view, t)
    ensures Covers(view, env, t) && Denotes(e, env, TheTable, t)
  {
    env := map[];
    match e
    case Ident(x) => env := if x == t.table then map[] else map[x := TheTable];
    case Wrap(_, inner) => env := TableReal(inner, view, t);
    case Prop(_, _) =>
    case Elem(_, i) =>
      var s: string;
      env, s := SpellingReal(i, {t.table}, view, t);
    case Pick(_, options) =>
      var k :| 0 <= k < |options| && !NeverTable(options[k], view, t);
      env := TableReal(options[k], view, t);
    case Assign(op, l, r) =>
      if NeverTable(r, view, t) { env := TableReal(l, view, t); } else { env := TableReal(r, view, t); }
    case Spread(_) =>
  }

  /** No call on the way has a computed key other than a literal. */
  predicate PlainKeys(e: Node) {
    match e
    case Wrap(_, inner) => PlainKeys(inner)
    case Call(callee, _) =>
      (match Accessed(callee)
       case Some(a) => (a.key.ComputedName? ==> a.key.expr.Str? || a.key.expr.Template?) && PlainKeys(a.of)
       case None => PlainKeys(callee))
    case Prop(o, _) => PlainKeys(o)
    case Elem(o, _) => PlainKeys(o)
    case Pick(_, options) => forall o | o in options :: PlainKeys(o)
    case Assign(op, l, r) => PlainKeys(r) && (op == Logical ==> PlainKeys(l))
    case _ => true
  }

  lemma AChainIsPart(o: Node, n: Node, env: Env, t: Target)
    requires Denotes(o, env, AChain, t)
    requires match n
             case Call(callee, _) => o == (match Accessed(callee) case Some(a) => a.of case None => callee)
             case Prop(b, _) => o == b
             case Elem(b, _) => o == b
             case _ => false
    ensures Denotes(n, env, AChain, t)
  {
    assert PartOf(AChain) == AChain;
  }

  /** An expression that is not clear of chains denotes one in some covered environment, when its keys are
      plain. */
  lemma {:induction false} ChainReal(e: Node, view: View, t: Target) returns (env: Env)
    requires !NeverChain(e, view, t) && PlainKeys(e)
    ensures Covers(view, env, t) && Denotes(e, env, AChain, t)
  {
    env := map[];
    match e
    case Ident(x) => env := map[x := AChain];
    case Wrap(_, inner) => env := ChainReal(inner, view, t);
    case Call(callee, args) =>
      match Accessed(callee) {
        case Some(a) =>
          if NeverChain(a.of, view, t) {
            env := TableReal(args[0], view, t);
            PlainStart(callee, args, a, view, env, t);
          } else {
            env := ChainReal(a.of, view, t);
            AChainIsPart(a.of, e, env, t);
          }
        case None =>
          env := ChainReal(callee, view, t);
          AChainIsPart(callee, e, env, t);
      }
    case Prop(o, _) =>
      env := ChainReal(o, view, t);
      AChainIsPart(o, e, env, t);
    case Elem(o, _) =>
      env := ChainReal(o, view, t);
      AChainIsPart(o, e, env, t);
    case Pick(_, options) =>
      var k :| 0 <= k < |options| && !NeverChain(options[k], view, t);
      env := ChainReal(options[k], view, t);
    case Assign(op, l, r) =>
      if NeverChain(r, view, t) { env := ChainReal(l, view, t); } else { env := ChainReal(r, view, t); }
    case Spread(_) =>
  }

  lemma PlainStart(callee: Node, args: seq<Node>, a: Access, view: View, env: Env, t: Target)
    requires Accessed(callee) == Some(a) && args != [] && Denotes(args[0], env, TheTable, t)
    requires !KeyCannot(a.key, BUILDERS, view.textFree)
    requires a.key.ComputedName? ==> a.key.expr.Str? || a.key.expr.Template?
    ensures Denotes(Call(callee, args), env, AChain, t)
  {
    match a.key
    case ComputedName(e) => assert e.text in BUILDERS && Denotes(e, env, Text(e.text), t);
    case IdentName(x) => assert x in BUILDERS && IdentName(x) in STARTERS;
  }

  // ---------------------------------------------------------------- files the names cover

  predicate TextFree(root: Node, t: Target) {
    forall p | p in FilePlaces(root) && p.target.Ident? :: CannotSpell(p.value, Reserved(t), true)
  }

  function ViewOf(root: Node, t: Target): View {
    View(Collected(root, t), TextFree(root, t))
  }

  /** A place is seen when its name is collected, or what it receives is clear. */
  predicate Seen(p: Place, view: View, t: Target) {
    p.target.Ident? ==>
      && (p.target.text in view.names.tables || NeverTable(p.value, view, t))
      && (p.target.text in view.names.chains || NeverChain(p.value, view, t))
  }

  /** Every place of the file is seen. */
  predicate Transparent(root: Node, t: Target) {
    forall p | p in FilePlaces(root) :: Seen(p, ViewOf(root, t), t)
  }

  ghost predicate Collects(view: View, h: History, t: Target) {
    forall x, v | (x, v) in h ::
      && (v == TheTable ==> x in view.names.tables)
      && (v == AChain ==> x in view.names.chains)
      && (view.textFree && v.Text? ==> v.s !in Reserved(t))
  }

  lemma FilledIsCollected(root: Node, p: Place, env: Env, v: RunVal, t: Target)
    requires Transparent(root, t) && Covers(ViewOf(root, t), env, t)
    requires p in FilePlaces(root) && p.target.Ident? && Denotes(p.value, env, v, t)
    ensures Collects(ViewOf(root, t), {(p.target.text, v)}, t)
  {
    var view := ViewOf(root, t);
    if v == TheTable && NeverTable(p.value, view, t) { TableClear(p.value, view, env, t); }
    if v == AChain && NeverChain(p.value, view, t) { ChainClear(p.value, view, env, t); }
    if view.textFree && v.Text? && v.s in Reserved(t) { SpellingClear(p.value, Reserved(t), view, env, v.s, t); }
  }

  /** In a transparent file, no run binds anything interesting to a name that is not collected. */
  lemma {:induction false} RunsCollected(root: Node, run: seq<Step>, h: History, t: Target)
    requires Transparent(root, t) && Reaches(FilePlaces(root), run, h, t)
    ensures Collects(ViewOf(root, t), h, t)
    decreases |run|
  {
    if run != [] {
      var ps, last := FilePlaces(root), run[|run| - 1];
      var h0 :| Reaches(ps, run[..|run| - 1], h0, t) && Fills(ps, last, h0, h, t);
      RunsCollected(root, run[..|run| - 1], h0, t);
      if ps[last.place].target.Ident? {
        FilledIsCollected(root, ps[last.place], last.env, last.v, t);
      }
    }
  }

  /** In a transparent file, what some run makes the table, or a chain, is not clear of it. */
  lemma TableDenotedIsSeen(root: Node, e: Node, t: Target)
    requires Transparent(root, t) && MayDenote(root, e, TheTable, t)
    ensures !NeverTable(e, ViewOf(root, t), t)
  {
    var run, h, env :| Reaches(FilePlaces(root), run, h, t) && ReadFrom(env, h) && Denotes(e, env, TheTable, t);
    RunsCollected(root, run, h, t);
    if NeverTable(e, ViewOf(root, t), t) { TableClear(e, ViewOf(root, t), env, t); }
  }

  lemma ChainDenotedIsSeen(root: Node, e: Node, t: Target)
    requires Transparent(root, t) && MayDenote(root, e, AChain, t)
    ensures !NeverChain(e, ViewOf(root, t), t)
  {
    var run, h, env :| Reaches(FilePlaces(root), run, h, t) && ReadFrom(env, h) && Denotes(e, env, AChain, t);
    RunsCollected(root, run, h, t);
    if NeverChain(e, ViewOf(root, t), t) { ChainClear(e, ViewOf(root, t), env, t); }
  }

  // ---------------------------------------------------------------- which files those are

  lemma RecognisedTable(e: Node, view: View, t: Target)
    requires IsTableRef(e, view.names, t)
    ensures !NeverTable(e, view, t)
  {
    UnwrapTable(e, view, t);
  }

  lemma {:induction false} UnwrapTable(e: Node, view: View, t: Target)
    ensures NeverTable(e, view, t) == NeverTable(Unwrap(e), view, t)
  {
    if e.Wrap? && TypeOnly(e.kind) { UnwrapTable(e.inner, view, t); }
  }

  lemma {:induction false} UnwrapChain(e: Node, view: View, t: Target)
    ensures NeverChain(e, view, t) == NeverChain(Unwrap(e), view, t)
  {
    if e.Wrap? && TypeOnly(e.kind) { UnwrapChain(e.inner, view, t); }
  }

  /** What the scanner's walk takes for a chain is not clear of being one. */
  lemma {:induction false} RecognisedChain(n: Node, view: View, t: Target)
    requires ChainTargets(n, view.names, t)
    ensures !NeverChain(n, view, t)
  {
    match n
    case Call(callee, args) =>
      if MemberName(callee).Some? {
        assert Accessed(callee).Some? && Accessed(callee).value.of == callee.base;
        if StartsChain(args, MemberName(callee).value, view.names, t) {
          RecognisedTable(args[0], view, t);
        } else {
          RecognisedChain(callee.base, view, t);
        }
      } else {
        RecognisedChain(callee, view, t);
        if Accessed(callee).Some? { AccessedChain(callee, view, t); }
      }
    case Prop(o, _) => RecognisedChain(o, view, t);
    case Elem(o, _) => RecognisedChain(o, view, t);
    case Wrap(_, e) => RecognisedChain(e, view, t);
    case Ident(_) =>
  }

  lemma {:induction false} AccessedChain(e: Node, view: View, t: Target)
    requires Accessed(e).Some?
    ensures NeverChain(e, view, t) == NeverChain(Accessed(e).value.of, view, t)
  {
    if e.Wrap? { AccessedChain(e.inner, view, t); }
  }

  lemma {:induction false} CollectHasPlaces(before: seq<Binding>, n: Node, t: Target, b: Binding)
    requires b.Bound? && b in Collect(before, n, t)
    ensures b in before || Place(Ident(b.name), b.value) in FilePlaces(n)
    decreases n, 1, 0
  {
    CollectBelowHasPlaces(before + OwnBindings(n, t), n, |Children(n)|, t, b);
  }

  lemma {:induction false} CollectBelowHasPlaces(before: seq<Binding>, n: Node, k: nat, t: Target, b: Binding)
    requires k <= |Children(n)| && b.Bound? && b in CollectBelow(before, n, k, t)
    ensures b in before || Place(Ident(b.name), b.value) in PlacesBelow(n, k)
    decreases n, 0, k
  {
    if k > 0 {
      assert Children(n)[k - 1] in Children(n);
      var sofar := CollectBelow(before, n, k - 1, t);
      CollectHasPlaces(sofar, Children(n)[k - 1], t, b);
      if b in sofar { CollectBelowHasPlaces(before, n, k - 1, t, b); }
    }
  }

  lemma TableNameFound(bs: seq<Binding>, x: string, t: Target)
    requires TableName(x) in bs
    ensures x in Rounds(bs, 2, t).tables
  {
    var i :| 0 <= i < |bs| && bs[i] == TableName(x);
    var first := Rounds(bs, 1, t);
    assert bs[..i + 1][..i] == bs[..i] && bs[..|bs|] == bs;
    RoundGrows(first, bs, i + 1, |bs|, t);
  }

  /** In a transparent file the two rounds have reached the least fixed point of the scanner's own rules. */
  lemma TransparentIsFixpoint(root: Node, t: Target)
    requires Transparent(root, t)
    ensures Collected(root, t) == Lfp(Bindings(root, t), t)
  {
    var bs, view := Bindings(root, t), ViewOf(root, t);
    forall b | b in bs
      ensures match b
              case TableName(x) => x in view.names.tables
              case Bound(x, v) =>
                (IsTableRef(v, view.names, t) ==> x in view.names.tables) &&
                (ChainTargets(Unwrap(v), view.names, t) ==> x in view.names.chains)
    {
      match b
      case TableName(x) => TableNameFound(bs, x, t);
      case Bound(x, v) =>
        CollectHasPlaces([], root, t, b);
        assert Seen(Place(Ident(x), v), view, t);
        if IsTableRef(v, view.names, t) { RecognisedTable(v, view, t); }
        if ChainTargets(Unwrap(v), view.names, t) {
          RecognisedChain(Unwrap(v), view, t);
          UnwrapChain(v, view, t);
        }
    }
    LfpLeast(bs, view.names, t);
    CollectedBelowLfp(root, t);
  }

  /** The scanner has a binding for the place and reads its value, or the value is clear. */
  predicate Recognised(p: Place, bs: seq<Binding>, view: View, t: Target)
    requires p.target.Ident?
  {
    var x, v := p.target.text, p.value;
    || (NeverTable(v, view, t) && NeverChain(v, view, t))
    || (TableName(x) in bs && NeverChain(v, view, t))
    || (Bound(x, v) in bs && (IsTableRef(v, view.names, t) || NeverTable(v, view, t)) &&
        (ChainTargets(Unwrap(v), view.names, t) || NeverChain(v, view, t)))
  }

  /** A file that binds names in the recognised ways only is transparent exactly when two rounds reach the
      least fixed point. */
  lemma PlainTransparent(root: Node, t: Target)
    requires forall p | p in FilePlaces(root) && p.target.Ident? :: Recognised(p, Bindings(root, t), ViewOf(root, t), t)
    ensures Transparent(root, t) <==> Collected(root, t) == Lfp(Bindings(root, t), t)
  {
    var bs, view := Bindings(root, t), ViewOf(root, t);
    if Transparent(root, t) { TransparentIsFixpoint(root, t); }
    if Collected(root, t) == Lfp(bs, t) {
      LfpClosed(bs, t);
      forall p | p in FilePlaces(root) && p.target.Ident? ensures Seen(p, view, t) {
        assert Recognised(p, bs, view, t);
      }
    }
  }

  /** Names bound to awaited calls, each clear of the table's chains or plainly one, leave a file transparent. */
  lemma AwaitedQueriesTransparent(root: Node, t: Target)
    requires forall p | p in FilePlaces(root) && p.target.Ident? ::
               || Seen(p, ViewOf(root, t), t)
               || (p.value.Wrap? && p.value.kind == Await && p.value.inner.Call? &&
                   ChainTargets(p.value, NO_NAMES, t) && Bound(p.target.text, p.value) in Bindings(root, t))
    ensures Transparent(root, t)
  {
    var bs, view := Bindings(root, t), ViewOf(root, t);
    forall p | p in FilePlaces(root) ensures Seen(p, view, t) {
      if p.target.Ident? && !Seen(p, view, t) {
        assert NeverTable(p.value.inner, view, t);
        PlainChainFound(bs, p.target.text, p.value, t);
      }
    }
  }

  lemma PlainChainFound(bs: seq<Binding>, x: string, v: Node, t: Target)
    requires Bound(x, v) in bs && Unwrap(v) == v && v.Wrap? && ChainTargets(v, NO_NAMES, t)
    ensures x in Rounds(bs, 2, t).chains
  {
    var i :| 0 <= i < |bs| && bs[i] == Bound(x, v);
    var first := Rounds(bs, 1, t);
    var before := Round(first, bs[..i], t);
    assert bs[..i + 1][..i] == bs[..i] && bs[..|bs|] == bs;
    ChainMonotone(v, NO_NAMES, before, t);
    RoundGrows(first, bs, i + 1, |bs|, t);
  }

  // ---------------------------------------------------------------- small files

  /** A binding the scanner learns nothing from when it knows nothing. */
  predicate Inert(b: Binding, t: Target) {
    b.Bound? && !IsTableRef(b.value, NO_NAMES, t) && !ChainTargets(Unwrap(b.value), NO_NAMES, t)
  }

  /** No node of the tree has a binding the scanner learns from. */
  predicate InertTree(n: Node, t: Target) {
    (forall b | b in OwnBindings(n, t) :: Inert(b, t)) && forall c | c in Children(n) :: InertTree(c, t)
  }

  lemma {:induction false} CollectInert(before: seq<Binding>, n: Node, t: Target)
    requires InertTree(n, t) && forall b | b in before :: Inert(b, t)
    ensures forall b | b in Collect(before, n, t) :: Inert(b, t)
    decreases n, 1, 0
  {
    CollectBelowInert(before + OwnBindings(n, t), n, |Children(n)|, t);
  }

  lemma {:induction false} CollectBelowInert(before: seq<Binding>, n: Node, k: nat, t: Target)
    requires k <= |Children(n)| && InertTree(n, t) && forall b | b in before :: Inert(b, t)
    ensures forall b | b in CollectBelow(before, n, k, t) :: Inert(b, t)
    decreases n, 0, k
  {
    if k > 0 {
      assert Children(n)[k - 1] in Children(n);
      CollectBelowInert(before, n, k - 1, t);
      CollectInert(CollectBelow(before, n, k - 1, t), Children(n)[k - 1], t);
    }
  }

  lemma {:induction false} InertRound(bs: seq<Binding>, t: Target)
    requires forall b | b in bs :: Inert(b, t)
    ensures Round(NO_NAMES, bs, t) == NO_NAMES
  {
    if bs != [] {
      assert bs[|bs| - 1] in bs;
      InertRound(bs[..|bs| - 1], t);
    }
  }

  lemma NothingCollected(root: Node, t: Target)
    requires InertTree(root, t)
    ensures Collected(root, t) == NO_NAMES
  {
    CollectInert([], root, t);
    InertRound(Bindings(root, t), t);
    assert Rounds(Bindings(root, t), 1, t) == NO_NAMES;
  }

  /** No node of the tree fills a place. */
  predicate Placeless(n: Node) {
    OwnPlaces(n) == [] && forall c | c in Children(n) :: Placeless(c)
  }

  lemma {:induction false} PlacelessFile(n: Node)
    requires Placeless(n)
    ensures FilePlaces(n) == []
    decreases n, 1, 0
  {
    PlacelessBelow(n, |Children(n)|);
  }

  lemma {:induction false} PlacelessBelow(n: Node, k: nat)
    requires Placeless(n) && k <= |Children(n)|
    ensures PlacesBelow(n, k) == []
    decreases n, 0, k
  {
    if k > 0 {
      assert Children(n)[k - 1] in Children(n);
      PlacelessFile(Children(n)[k - 1]);
      PlacelessBelow(n, k - 1);
    }
  }

  lemma {:induction false} PlaceBelow(n: Node, k: nat, p: Place)
    requires k <= |Children(n)| && p in PlacesBelow(n, k)
    ensures exists c | c in Children(n) :: p in FilePlaces(c)
  {
    if p in PlacesBelow(n, k - 1) { PlaceBelow(n, k - 1, p); } else { assert Children(n)[k - 1] in Children(n); }
  }

  /** `const rows = await q()`: a file of such a declaration is transparent, whatever the names. */
  lemma AwaitedCallTransparent(x: string, f: string, t: Target)
    ensures Transparent(VarDecl(Ident(x), Some(Wrap(Await, Call(Ident(f), [])))), t)
  {
    var call := Call(Ident(f), []);
    var value := Wrap(Await, call);
    var root := VarDecl(Ident(x), Some(value));
    assert Children(call) == [Ident(f)] && Children(value) == [call] && Children(root) == [Ident(x), value];
    assert InertTree(Ident(f), t) && InertTree(Ident(x), t);
    assert InertTree(call, t);
    assert InertTree(value, t);
    assert !ChainTargets(Ident(f), NO_NAMES, t) && MemberName(call.callee) == None;
    assert !ChainTargets(call, NO_NAMES, t);
    assert Unwrap(value) == value && !IsTableRef(value, NO_NAMES, t);
    assert InertTree(root, t);
    NothingCollected(root, t);
    assert Placeless(Ident(f)) && Placeless(Ident(x)) && Placeless(call);
    AwaitPlaceless(call);
    PlacelessFile(Ident(x));
    PlacelessFile(value);
    forall p | p in FilePlaces(root) ensures p == Place(Ident(x), value) {
      if p !in OwnPlaces(root) { PlaceBelow(root, 2, p); }
    }
    var view := ViewOf(root, t);
    assert NeverTable(call, view, t) && NeverChain(Ident(f), view, t) && NeverChain(call, view, t);
  }

  /** `const x = await c`, when `c` is plainly a chain on the table: the name is collected as a chain and
      the file is transparent. */
  lemma AwaitedChainTransparent(x: string, c: Node, t: Target)
    requires c.Call? && Placeless(Wrap(Await, c)) && ChainTargets(c, NO_NAMES, t)
    ensures Transparent(VarDecl(Ident(x), Some(Wrap(Await, c))), t)
  {
    hide Placeless, ChainTargets, Collect;
    var value := Wrap(Await, c);
    var root := VarDecl(Ident(x), Some(value));
    PlacelessFile(value);
    NamePlaceless(x);
    forall p | p in FilePlaces(root) ensures p == Place(Ident(x), value) {
      if p !in OwnPlaces(root) { PlaceBelow(root, 2, p); }
    }
    OwnIsCollected([], root, t);
    assert [] + OwnBindings(root, t) == [Bound(x, value)];
    AwaitIsSeen(c, t);
    AwaitedQueriesTransparent(root, t);
  }

  lemma NamePlaceless(x: string)
    ensures FilePlaces(Ident(x)) == []
  {
  }

  lemma NamesPlaceless(xs: seq<string>)
    ensures forall x | x in xs :: Placeless(Ident(x))
  {
  }

  lemma AwaitPlaceless(c: Node)
    requires Placeless(c)
    ensures Placeless(Wrap(Await, c))
  {
  }

  lemma AwaitIsSeen(c: Node, t: Target)
    ensures ChainTargets(Wrap(Await, c), NO_NAMES, t) == ChainTargets(c, NO_NAMES, t)
  {
  }

  /** `const written = await db.insert(fieldWorkers).values(rows).returning()`, as the projector writes. */
  lemma AwaitedInsertTransparent(x: string, rows: string, t: Target)
    ensures var insert := Call(Prop(Ident("db"), "insert"), [Ident(t.table)]);
            var values := Call(Prop(insert, "values"), [Ident(rows)]);
            Transparent(VarDecl(Ident(x), Some(Wrap(Await, Call(Prop(values, "returning"), [])))), t)
  {
    hide Transparent, Placeless;
    var insert := Call(Prop(Ident("db"), "insert"), [Ident(t.table)]);
    var values := Call(Prop(insert, "values"), [Ident(rows)]);
    var c := Call(Prop(values, "returning"), []);
    NamesPlaceless(["db", t.table, rows]);
    CallPlaceless(Ident("db"), "insert", [Ident(t.table)]);
    CallPlaceless(insert, "values", [Ident(rows)]);
    CallPlaceless(values, "returning", []);
    AwaitPlaceless(c);
    assert ChainTargets(insert, NO_NAMES, t) && ChainTargets(values, NO_NAMES, t);
    AwaitedChainTransparent(x, c, t);
  }

  lemma CallPlaceless(o: Node, m: string, args: seq<Node>)
    requires Placeless(o) && forall a | a in args :: Placeless(a)
    ensures Placeless(Call(Prop(o, m), args))
  {
    assert Placeless(Prop(o, m));
  }

  lemma OwnIsCollected(before: seq<Binding>, n: Node, t: Target)
    ensures forall b | b in before + OwnBindings(n, t) :: b in Collect(before, n, t)
  {
    forall b | b in before + OwnBindings(n, t) { KeptBelow(before + OwnBindings(n, t), n, |Children(n)|, t, b); }
  }

  lemma {:induction false} KeptBelow(before: seq<Binding>, n: Node, k: nat, t: Target, b: Binding)
    requires k <= |Children(n)| && b in before
    ensures b in CollectBelow(before, n, k, t)
    decreases n, 0, k
  {
    if k > 0 {
      assert Children(n)[k - 1] in Children(n);
      KeptBelow(before, n, k - 1, t, b);
      KeptIn(CollectBelow(before, n, k - 1, t), Children(n)[k - 1], t, b);
    }
  }

  lemma {:induction false} KeptIn(before: seq<Binding>, n: Node, t: Target, b: Binding)
    requires b in before
    ensures b in Collect(before, n, t)
    decreases n, 1, 0
  {
    KeptBelow(before + OwnBindings(n, t), n, |Children(n)|, t, b);
  }
}
