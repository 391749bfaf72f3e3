/** The older marketplace scanner, and the newer one as its refinement. */
module Marketplace {
  import opened Wrappers
  import opened Syntax
  import opened Payload
  import opened Aliases
  import Scanner

  function BareTableName(e: Node): Option<string> {
    match e
    case Ident(x) => Some(x)
    case Prop(_, m) => Some(m)
    case _ => None
  }

  predicate ObjectHasStateKey(arg: Node, t: Target) {
    match arg
    case ObjectLit(members) => HasGuardedKey(members, t)
    case ArrayLit(elems) => exists e | e in elems :: e.ObjectLit? && HasGuardedKey(e.members, t)
    case _ => false
  }

  predicate ChainHits(n: Node, t: Target) {
    match n
    case Call(Prop(o, m), args) =>
      ((m == "update" || m == "insert") && |args| >= 1 && BareTableName(args[0]) == Some(t.table)) || ChainHits(o, t)
    case Call(callee, _) => ChainHits(callee, t)
    case Prop(o, _) => ChainHits(o, t)
    case _ => false
  }

  /** The older leftward walk, on a cursor. */
  method ChainTargetsTable(node: Node, t: Target) returns (r: bool)
    ensures r == ChainHits(node, t)
  {
    var cur := node;
    while cur.Call? || cur.Prop?
      invariant ChainHits(cur, t) == ChainHits(node, t)
      decreases cur
    {
      match cur {
        case Call(callee, args) =>
          if callee.Prop? {
            if (callee.member == "update" || callee.member == "insert") && |args| >= 1 &&
               BareTableName(args[0]) == Some(t.table) { return true; }
            cur := callee.base;
          } else {
            cur := callee;
          }
        case Prop(o, _) => cur := o;
      }
    }
    r := false;
  }

  /** The first plainly keyed `set`, skipping everything else. */
  function PlainSet(members: seq<Node>): Option<Node> {
    if members == [] then None
    else
      match members[0]
      case PropAssign(IdentName(s), e) => if s == "set" then Some(e) else PlainSet(members[1..])
      case _ => PlainSet(members[1..])
  }

  function OnConflictSetObject(arg: Node): Option<Node> {
    match arg
    case ObjectLit(members) => PlainSet(members)
    case _ => None
  }

  predicate Reports(n: Node, t: Target) {
    match n
    case Call(Prop(o, m), args) =>
      ChainHits(o, t) &&
      ((m == "set" && |args| == 1 && ObjectHasStateKey(args[0], t)) ||
       (m == "onConflictDoUpdate" && |args| == 1 && OnConflictSetObject(args[0]).Some? &&
        ObjectHasStateKey(OnConflictSetObject(args[0]).value, t)) ||
       (m == "values" && |args| >= 1 && ObjectHasStateKey(args[0], t)))
    case Assign(Plain, Prop(o, c), _) => c in t.columns && BareTableName(o) == Some(t.table)
    case _ => false
  }

  // ---------------------------------------------------------------- the newer scanner reports as much

  lemma StateKeyIsGuarded(arg: Node, t: Target)
    requires ObjectHasStateKey(arg, t)
    ensures PayloadShape(arg, t) == Guarded
  {
    match arg
    case ArrayLit(elems) =>
      var e :| e in elems && e.ObjectLit? && HasGuardedKey(e.members, t);
      assert ElementShape(e, t) == Guarded;
    case ObjectLit(_) =>
  }

  lemma {:induction false} ChainKept(n: Node, names: Names, t: Target)
    requires ChainHits(n, t)
    ensures ChainTargets(n, names, t)
  {
    if n.Prop? {
      ChainKept(n.base, names, t);
    } else if n.callee.Prop? {
      if !((n.callee.member == "update" || n.callee.member == "insert") && |n.args| >= 1 &&
           BareTableName(n.args[0]) == Some(t.table)) {
        ChainKept(n.callee.base, names, t);
      }
    } else {
      ChainKept(n.callee, names, t);
    }
  }

  /** A quoted `set` with a clean payload stands before the plain one: the newer scanner stops there. */
  predicate QuotedSetFirst(members: seq<Node>, t: Target) {
    members != [] &&
    match members[0]
    case PropAssign(StringName(s), e) =>
      if s == "set" then PayloadShape(e, t) == Clean else QuotedSetFirst(members[1..], t)
    case _ => Scanner.ReadSet(members[0]) == Scanner.NoSet && QuotedSetFirst(members[1..], t)
  }

  lemma {:induction false} SetKept(members: seq<Node>, t: Target)
    requires PlainSet(members).Some? && ObjectHasStateKey(PlainSet(members).value, t)
    ensures Scanner.SetShape(Scanner.FirstSet(members), t) == Clean <==> QuotedSetFirst(members, t)
  {
    match members[0]
    case PropAssign(IdentName(s), e) =>
      if s == "set" { StateKeyIsGuarded(e, t); } else { SetKept(members[1..], t); }
    case PropAssign(StringName(s), e) =>
      if s != "set" { SetKept(members[1..], t); }
    case _ =>
      if Scanner.ReadSet(members[0]) == Scanner.NoSet { SetKept(members[1..], t); }
  }

  predicate QuotedSetUpsert(n: Node, t: Target) {
    n.Call? && n.callee.Prop? && n.callee.member == "onConflictDoUpdate" && |n.args| == 1 && n.args[0].ObjectLit? &&
    QuotedSetFirst(n.args[0].members, t)
  }

  /** Whatever the names, a node the older scanner reports is reported by the newer one, except exactly
      the upserts whose plain `set` a clean quoted one precedes. */
  lemma Refines(n: Node, names: Names, t: Target)
    requires Reports(n, t)
    ensures Scanner.Report(n, names, t).Some? <==> !QuotedSetUpsert(n, t)
  {
    match n
    case Call(Prop(o, m), args) =>
      ChainKept(o, names, t);
      if m == "onConflictDoUpdate" {
        SetKept(args[0].members, t);
      } else {
        StateKeyIsGuarded(args[0], t);
      }
    case Assign(Plain, Prop(o, _), _) =>
  }

  /** Every position the older scanner reports in a file is a finding of the newer one. */
  lemma RefinesFile(file: string, root: Node, path: Path, t: Target)
    requires At(root, path) && Reports(NodeAt(root, path), t) && !QuotedSetUpsert(NodeAt(root, path), t)
    ensures exists f :: f in Scanner.ScanResult(file, root, t) && f.path == path
  {
    var names := Collected(root, t);
    Refines(NodeAt(root, path), names, t);
    var report := Scanner.Report(NodeAt(root, path), names, t);
    var f := Scanner.Finding(file, path, report.value, Enclosing(root, path, |path|));
    EnclosingIsInnermost(root, path, f.enclosing, |path|);
    Scanner.ScanExact(file, root, t, f);
  }

  // ---------------------------------------------------------------- on plain spellings they agree

  /** No wrapper and no element access at the top. */
  predicate BareRef(e: Node) {
    !e.Wrap? && !e.Elem?
  }

  predicate BareChain(n: Node) {
    match n
    case Call(Prop(o, _), args) => (args != [] ==> BareRef(args[0])) && BareChain(o)
    case Call(callee, _) => BareRef(callee) && BareChain(callee)
    case Prop(o, _) => BareChain(o)
    case _ => BareRef(n)
  }

  predicate BarePayload(arg: Node) {
    match arg
    case ArrayLit(elems) => forall e | e in elems :: !e.Wrap?
    case _ => !arg.Wrap?
  }

  /** No member but a plain `set` can be taken for the `set`. */
  predicate BareUpsert(arg: Node) {
    match arg
    case ObjectLit(members) =>
      forall m | m in members ::
        && !m.SpreadMember? && !(m.Shorthand? && m.text == "set")
        && !(m.PropAssign? && m.name == StringName("set"))
        && (m.PropAssign? && m.name == IdentName("set") ==> BarePayload(m.init))
    case _ => !arg.Wrap?
  }

  /** The node is spelled with property accesses and bare names and literals only. */
  predicate Bare(n: Node) {
    match n
    case Call(Prop(o, m), args) =>
      BareChain(o) &&
      (args != [] ==> if m == "onConflictDoUpdate" then BareUpsert(args[0]) else BarePayload(args[0]))
    case Call(callee, _) => BareRef(callee)
    case Assign(_, Prop(o, _), _) => BareRef(o)
    case _ => true
  }

  lemma BareTable(e: Node, t: Target)
    requires BareRef(e)
    ensures IsTableRef(e, NO_NAMES, t) <==> BareTableName(e) == Some(t.table)
  {
  }

  lemma {:induction false} BareChains(n: Node, t: Target)
    requires BareChain(n)
    ensures ChainTargets(n, NO_NAMES, t) <==> ChainHits(n, t)
  {
    match n
    case Call(Prop(o, m), args) =>
      BareChains(o, t);
      if args != [] { BareTable(args[0], t); }
    case Call(callee, _) => BareChains(callee, t);
    case Prop(o, _) => BareChains(o, t);
    case _ =>
  }

  lemma BarePayloads(arg: Node, t: Target)
    requires BarePayload(arg)
    ensures PayloadShape(arg, t) == Guarded <==> ObjectHasStateKey(arg, t)
  {
    if ObjectHasStateKey(arg, t) { StateKeyIsGuarded(arg, t); }
  }

  lemma {:induction false} BareSets(members: seq<Node>, t: Target)
    requires BareUpsert(ObjectLit(members))
    ensures Scanner.FirstSet(members) ==
            match PlainSet(members) case Some(e) => Scanner.SetTo(e) case None => Scanner.NoSet
    ensures PlainSet(members).Some? ==> BarePayload(PlainSet(members).value)
  {
    if members != [] {
      assert members[0] in members;
      BareSets(members[1..], t);
    }
  }

  /** On plainly spelled nodes the older scanner reports exactly what the newer one, knowing no names, reports
      as guarded. */
  lemma BareAgrees(n: Node, t: Target)
    requires Bare(n)
    ensures Reports(n, t) <==>
            Scanner.Report(n, NO_NAMES, t).Some? && Scanner.Report(n, NO_NAMES, t).value.shape == Guarded
  {
    match n
    case Call(Prop(o, m), args) =>
      BareChains(o, t);
      if args != [] {
        if m == "onConflictDoUpdate" {
          if args[0].ObjectLit? {
            BareSets(args[0].members, t);
            var set' := PlainSet(args[0].members);
            if set'.Some? { BarePayloads(set'.value, t); }
          }
        } else {
          BarePayloads(args[0], t);
        }
      }
    case Assign(_, Prop(o, _), _) => BareTable(o, t);
    case _ =>
  }
}
