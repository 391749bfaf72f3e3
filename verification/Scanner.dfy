/** The field-worker state scanner: which nodes of a file it reports, and why those are enough. */
module Scanner {
  import opened Wrappers
  import opened Syntax
  import opened Payload
  import opened Aliases
  import opened Runs
  import opened Chains

  datatype Site = SetCall | UpsertCall | ValuesCall | DirectAssignment

  /** Which write form was found, and whether its payload is guarded or could not be read. */
  datatype Detail = Detail(site: Site, shape: Shape)

  datatype Finding = Finding(file: string, path: Path, detail: Detail, enclosing: Option<string>)

  // ---------------------------------------------------------------- the `set` of an upsert

  datatype SetArg = NoSet | UnreadableSet | SetTo(payload: Node)

  function ReadSet(m: Node): SetArg {
    match m
    case Shorthand(s, _) => if s == "set" then UnreadableSet else NoSet
    case PropAssign(IdentName(s), e) => if s == "set" then SetTo(e) else NoSet
    case PropAssign(StringName(s), e) => if s == "set" then SetTo(e) else NoSet
    case SpreadMember(_) => UnreadableSet
    case _ => NoSet
  }

  /** The first member the scanner takes for the `set`. */
  function FirstSet(members: seq<Node>): SetArg {
    if members == [] then NoSet
    else if ReadSet(members[0]) != NoSet then ReadSet(members[0])
    else FirstSet(members[1..])
  }

  function OnConflictSet(arg: Node): SetArg {
    match Unwrap(arg)
    case ObjectLit(members) => FirstSet(members)
    case _ => UnreadableSet
  }

  method OnConflictSetLoop(arg: Node) returns (r: SetArg)
    ensures r == OnConflictSet(arg)
  {
    var a := UnwrapLoop(arg);
    if !a.ObjectLit? { return UnreadableSet; }
    for i := 0 to |a.members|
      invariant FirstSet(a.members) == FirstSet(a.members[i..])
    {
      assert a.members[i..][1..] == a.members[i + 1..];
      if ReadSet(a.members[i]) != NoSet { return ReadSet(a.members[i]); }
    }
    r := NoSet;
  }

  function SetShape(s: SetArg, t: Target): Shape {
    match s
    case NoSet => Clean
    case UnreadableSet => Unverifiable
    case SetTo(e) => PayloadShape(e, t)
  }

  // ---------------------------------------------------------------- the nodes it reports

  function Telling(site: Site, shape: Shape): Option<Detail> {
    if shape == Clean then None else Some(Detail(site, shape))
  }

  function TableNameOf(e: Node): Option<string> {
    match Unwrap(e)
    case Ident(x) => Some(x)
    case Prop(_, m) => Some(m)
    case _ => None
  }

  function Report(n: Node, names: Names, t: Target): Option<Detail> {
    match n
    case Call(callee, args) =>
      (match MemberName(callee)
       case None => None
       case Some(m) =>
         if m == "set" && |args| == 1 && ChainTargets(callee.base, names, t)
         then Telling(SetCall, PayloadShape(args[0], t))
         else if m == "onConflictDoUpdate" && |args| == 1 && ChainTargets(callee.base, names, t)
         then Telling(UpsertCall, SetShape(OnConflictSet(args[0]), t))
         else if m == "values" && |args| >= 1 && ChainTargets(callee.base, names, t)
         then Telling(ValuesCall, PayloadShape(args[0], t))
         else None)
    case Assign(Plain, Prop(o, c), _) =>
      if c in t.columns && (TableNameOf(o) == Some(t.table) || IsTableRef(o, names, t))
      then Some(Detail(DirectAssignment, Guarded))
      else None
    case _ => None
  }

  /** The finding of the node `n` at `path`, with the name of its innermost enclosing function. */
  function OwnFindings(file: string, root: Node, path: Path, n: Node, names: Names, t: Target): seq<Finding> {
    match Report(n, names, t)
    case Some(d) => [Finding(file, path, d, if At(root, path) then Enclosing(root, path, |path|) else None)]
    case None => []
  }

  /** The findings pushed by a visit of the node `n` at `path`, after those in `before`. */
  function Visited(file: string, root: Node, path: Path, n: Node, names: Names, t: Target, before: seq<Finding>)
    : seq<Finding>
    decreases n, 1
  {
    VisitedBelow(file, root, path, n, |Children(n)|, names, t, before + OwnFindings(file, root, path, n, names, t))
  }

  /** The same for the first `k` children of `n`. */
  function VisitedBelow(file: string, root: Node, path: Path, n: Node, k: nat, names: Names, t: Target,
                        before: seq<Finding>)
    : seq<Finding>
    requires k <= |Children(n)|
    decreases n, 0, k
  {
    if k == 0 then before else
      assert Children(n)[k - 1] in Children(n);
      Visited(file, root, path + [k - 1], Children(n)[k - 1], names, t,
              VisitedBelow(file, root, path, n, k - 1, names, t, before))
  }

  predicate Locates(root: Node, path: Path, n: Node) {
    At(root, path) && NodeAt(root, path) == n
  }

  /** `visit`: push this node's finding, then visit the children. */
  method Visit(file: string, root: Node, path: Path, n: Node, names: Names, t: Target, before: seq<Finding>)
      returns (findings: seq<Finding>)
    requires Locates(root, path, n)
    ensures findings == Visited(file, root, path, n, names, t, before)
    decreases n, 1
  {
    findings := before;
    var report := Report(n, names, t);
    if report.Some? {
      var fn := EnclosingFunctionName(root, path);
      findings := findings + [Finding(file, path, report.value, fn)];
    }
    assert findings == before + OwnFindings(file, root, path, n, names, t);
    findings := VisitChildren(file, root, path, n, names, t, findings);
  }

  method VisitChildren(file: string, root: Node, path: Path, n: Node, names: Names, t: Target, before: seq<Finding>)
      returns (findings: seq<Finding>)
    requires Locates(root, path, n)
    ensures findings == VisitedBelow(file, root, path, n, |Children(n)|, names, t, before)
    decreases n, 0
  {
    findings := before;
    for i := 0 to |Children(n)|
      invariant findings == VisitedBelow(file, root, path, n, i, names, t, before)
    {
      assert Children(n)[i] in Children(n);
      AtChild(root, path, i);
      findings := Visit(file, root, path + [i], Children(n)[i], names, t, findings);
    }
  }

  function ScanResult(file: string, root: Node, t: Target): seq<Finding> {
    Visited(file, root, [], root, Collected(root, t), t, [])
  }

  method Scan(file: string, root: Node, t: Target) returns (findings: seq<Finding>)
    ensures findings == ScanResult(file, root, t)
  {
    var names := CollectTableNames(root, t);
    findings := Visit(file, root, [], root, Names(names.tables, names.chains), t, []);
  }

  // ---------------------------------------------------------------- the scan visits every node once

  predicate Owned(file: string, root: Node, names: Names, t: Target, f: Finding) {
    At(root, f.path) && f in OwnFindings(file, root, f.path, NodeAt(root, f.path), names, t)
  }

  lemma {:induction false} VisitedSound(file: string, root: Node, path: Path, n: Node, names: Names, t: Target,
                                        before: seq<Finding>, f: Finding)
    requires Locates(root, path, n) && f in Visited(file, root, path, n, names, t, before)
    ensures f in before || Owned(file, root, names, t, f)
    decreases n, 1, 0
  {
    BelowSound(file, root, path, n, |Children(n)|, names, t, before + OwnFindings(file, root, path, n, names, t), f);
  }

  lemma {:induction false} BelowSound(file: string, root: Node, path: Path, n: Node, k: nat, names: Names, t: Target,
                                      before: seq<Finding>, f: Finding)
    requires Locates(root, path, n) && k <= |Children(n)| && f in VisitedBelow(file, root, path, n, k, names, t, before)
    ensures f in before || Owned(file, root, names, t, f)
    decreases n, 0, k
  {
    hide Visited, Owned, OwnFindings;
    if k > 0 {
      var kid, sofar := Children(n)[k - 1], VisitedBelow(file, root, path, n, k - 1, names, t, before);
      assert kid in Children(n);
      AtChild(root, path, k - 1);
      VisitedSound(file, root, path + [k - 1], kid, names, t, sofar, f);
      if f in sofar { BelowSound(file, root, path, n, k - 1, names, t, before, f); }
    }
  }

  /** What has been pushed stays. */
  lemma {:induction false} VisitedKeeps(file: string, root: Node, path: Path, n: Node, names: Names, t: Target,
                                        before: seq<Finding>, f: Finding)
    requires f in before || f in OwnFindings(file, root, path, n, names, t)
    ensures f in Visited(file, root, path, n, names, t, before)
    decreases n, 1, 0
  {
    BelowKeeps(file, root, path, n, 0, |Children(n)|, names, t, before + OwnFindings(file, root, path, n, names, t), f);
  }

  lemma {:induction false} BelowKeeps(file: string, root: Node, path: Path, n: Node, i: nat, k: nat, names: Names,
                                      t: Target, before: seq<Finding>, f: Finding)
    requires i <= k <= |Children(n)| && f in VisitedBelow(file, root, path, n, i, names, t, before)
    ensures f in VisitedBelow(file, root, path, n, k, names, t, before)
    decreases n, 0, k
  {
    hide Visited, OwnFindings;
    if i < k {
      var kid := Children(n)[k - 1];
      assert kid in Children(n);
      BelowKeeps(file, root, path, n, i, k - 1, names, t, before, f);
      var sofar := VisitedBelow(file, root, path, n, k - 1, names, t, before);
      VisitedKeeps(file, root, path + [k - 1], kid, names, t, sofar, f);
    }
  }

  /** A visit of any ancestor pushes a node's own finding. */
  lemma {:induction false} VisitedComplete(file: string, root: Node, path: Path, k: nat, n: Node, names: Names,
                                           t: Target, before: seq<Finding>, f: Finding)
    requires At(root, path) && k <= |path| && Locates(root, path[..k], n)
    requires f in OwnFindings(file, root, path, NodeAt(root, path), names, t)
    ensures f in Visited(file, root, path[..k], n, names, t, before)
    decreases |path| - k
  {
    hide OwnFindings;
    var up := path[..k];
    if k == |path| {
      assert up == path;
      VisitedKeeps(file, root, path, n, names, t, before, f);
    } else {
      var next, i := path[..k + 1], path[k];
      AtPrefix(root, path, k + 1);
      AtParent(root, next);
      assert next[..k] == up && next == up + [i];
      var start := before + OwnFindings(file, root, up, n, names, t);
      var sofar := VisitedBelow(file, root, up, n, i, names, t, start);
      VisitedComplete(file, root, path, k + 1, Children(n)[i], names, t, sofar, f);
      BelowKeeps(file, root, up, n, i + 1, |Children(n)|, names, t, start, f);
    }
  }

  lemma ScanIsOwned(file: string, root: Node, t: Target, f: Finding)
    ensures f in ScanResult(file, root, t) <==> Owned(file, root, Collected(root, t), t, f)
  {
    var names := Collected(root, t);
    if f in ScanResult(file, root, t) {
      VisitedSound(file, root, [], root, names, t, [], f);
    }
    if Owned(file, root, names, t, f) {
      assert f.path[..0] == [];
      VisitedComplete(file, root, f.path, 0, root, names, t, [], f);
    }
  }

  /** A file's findings are exactly the reported nodes, each with its innermost enclosing function. */
  lemma ScanExact(file: string, root: Node, t: Target, f: Finding)
    ensures f in ScanResult(file, root, t) <==>
            f.file == file && At(root, f.path) &&
            Report(NodeAt(root, f.path), Collected(root, t), t) == Some(f.detail) &&
            InnermostLabel(root, f.path, f.enclosing)
  {
    ScanIsOwned(file, root, t, f);
    if At(root, f.path) {
      EnclosingIsInnermost(root, f.path, f.enclosing, |f.path|);
    }
  }

  // ---------------------------------------------------------------- what an upsert does, exactly

  /** Whether an upsert writes a guarded column. It does under every valuation when some member surely
      defines `set`, and every member that can be the last to do so assigns a payload that always writes. */
  function SetTruth(arg: Node, t: Target): Truth {
    match arg
    case Wrap(kind, inner) => if TypeOnly(kind) then SetTruth(inner, t) else Depends
    case Pick(_, options) => Agreed(set o | o in options :: SetTruth(o, t))
    case Assign(op, _, r) => if op == Plain then SetTruth(r, t) else Depends
    case ObjectLit(members) =>
      if LastSetsAre(members, Never, t) then Never
      else if LastSetsAre(members, Always, t) && exists m | m in members :: DefinesSet(m) then Always
      else Depends
    case _ => Depends
  }

  /** Every member that can be the last to define `set` is an assignment, and its payload is as told. */
  predicate LastSetsAre(members: seq<Node>, truth: Truth, t: Target) {
    forall i | 0 <= i < |members| && LastSet(members, i) ::
      members[i].PropAssign? && PayloadTruth(members[i].init, t) == truth
  }

  lemma {:induction false} SomeLastSet(members: seq<Node>, k: nat)
    requires k < |members| && DefinesSet(members[k])
    ensures exists i :: LastSet(members, i)
    decreases |members| - k
  {
    if exists j | k < j < |members| :: DefinesSet(members[j]) {
      var j :| k < j < |members| && DefinesSet(members[j]);
      SomeLastSet(members, j);
    } else {
      assert LastSet(members, k);
    }
  }

  /** A `set` that writes if `bad` and the object allows it, and does not if it allows that. */
  lemma SomeSetOf(members: seq<Node>, bad: bool, t: Target) returns (u: Option<Val>)
    requires t.columns != {} && t.Valid()
    ensures SetEvaluates(ObjectLit(members), u)
    ensures SetHolds(u, t) <==> Allows(SetTruth(ObjectLit(members), t), bad)
  {
    hide PayloadTruth, WriteHolds, Evaluates, CanDefineSet;
    var truth := SetTruth(ObjectLit(members), t);
    if (forall m | m in members :: !DefinesSet(m)) && !(bad && truth == Depends) {
      u := None;
    } else {
      if k: nat :| k < |members| && DefinesSet(members[k]) { SomeLastSet(members, k); }
      var i :| 0 <= i < |members| && LastSet(members, i) &&
               (truth == Depends ==>
                  !(members[i].PropAssign? && PayloadTruth(members[i].init, t) == if bad then Never else Always));
      var v := FreeRow(bad, t);
      if members[i].PropAssign? { v := SomePayload(members[i].init, bad, t); } else { FreeHolds(bad, t); }
      u := Some(v);
    }
  }

  lemma SetOption(options: seq<Node>, bad: bool, t: Target) returns (k: nat)
    requires options != []
    ensures k < |options| &&
            (Allows(SetTruth(options[k], t), bad) <==> Allows(SetTruth(Pick([], options), t), bad))
  {
    var truths := set o | o in options :: SetTruth(o, t);
    assert SetTruth(options[0], t) in truths;
    var truth := SomeOption(truths, bad);
    k :| 0 <= k < |options| && SetTruth(options[k], t) == truth;
  }

  lemma {:induction false} SomeSet(arg: Node, bad: bool, t: Target) returns (u: Option<Val>)
    requires t.columns != {} && t.Valid()
    ensures SetEvaluates(arg, u)
    ensures SetHolds(u, t) <==> Allows(SetTruth(arg, t), bad)
  {
    u := Some(FreeRow(bad, t));
    FreeHolds(bad, t);
    hide WriteHolds, Agreed;
    match arg
    case Wrap(kind, inner) =>
      if TypeOnly(kind) { u := SomeSet(inner, bad, t); }
    case Pick(_, options) =>
      if options != [] {
        var k := SetOption(options, bad, t);
        u := SomeSet(options[k], bad, t);
      }
    case Assign(op, _, r) =>
      if op == Plain { u := SomeSet(r, bad, t); }
    case ObjectLit(members) => u := SomeSetOf(members, bad, t);
    case _ =>
  }

  lemma {:induction false} SetSettled(arg: Node, u: Option<Val>, t: Target)
    requires t.Valid() && SetEvaluates(arg, u)
    ensures Settles(SetTruth(arg, t), SetHolds(u, t))
  {
    match arg
    case Wrap(kind, inner) =>
      if TypeOnly(kind) { SetSettled(inner, u, t); }
    case Pick(_, options) =>
      if options != [] {
        var k :| 0 <= k < |options| && SetEvaluates(options[k], u);
        SetSettled(options[k], u, t);
        OptionSettles(set o | o in options :: SetTruth(o, t), SetTruth(options[k], t), SetHolds(u, t));
      }
    case Assign(op, _, r) =>
      if op == Plain { SetSettled(r, u, t); }
    case ObjectLit(members) =>
      if u.Some? {
        var i :| LastSet(members, i) && (members[i].PropAssign? ==> Evaluates(members[i].init, u.value));
        if members[i].PropAssign? { PayloadSettled(members[i].init, u.value, t); }
      }
    case _ =>
  }

  /** Every upsert: it always writes, never writes, or depends on the valuation, exactly as its text says. */
  lemma UpsertExact(arg: Node, t: Target)
    requires t.Valid() && t.columns != {}
    ensures SetTruth(arg, t) == Always <==> forall u | SetEvaluates(arg, u) :: SetHolds(u, t)
    ensures SetTruth(arg, t) == Never <==> forall u | SetEvaluates(arg, u) :: !SetHolds(u, t)
  {
    forall u | SetEvaluates(arg, u) { SetSettled(arg, u, t); }
    var bad := SomeSet(arg, true, t);
    var good := SomeSet(arg, false, t);
    assert SetEvaluates(arg, bad) && SetEvaluates(arg, good);
  }

  /** The first `set` the scanner reads is the last one evaluation could define. */
  predicate SetVisible(arg: Node) {
    match Unwrap(arg)
    case ObjectLit(members) => SetVisibleIn(members)
    case _ => true
  }

  predicate SetVisibleIn(members: seq<Node>) {
    if members == [] then true
    else
      match ReadSet(members[0])
      case NoSet => SetVisibleIn(members[1..]) &&
                    (CanDefineSet(members[0]) ==> exists m | m in members[1..] :: DefinesSet(m))
      case UnreadableSet => true
      case SetTo(_) => forall m | m in members[1..] :: !CanDefineSet(m)
  }

  lemma {:induction false} SetIsFirst(members: seq<Node>, i: nat, v: Val)
    requires i < |members| && CanDefineSet(members[i]) && (forall j | i < j < |members| :: !DefinesSet(members[j]))
    requires members[i].PropAssign? ==> Evaluates(members[i].init, v)
    requires SetVisibleIn(members)
    ensures FirstSet(members) == UnreadableSet || (FirstSet(members).SetTo? && Evaluates(FirstSet(members).payload, v))
  {
    match ReadSet(members[0])
    case NoSet =>
      assert forall m | m in members[1..] && DefinesSet(m) :: exists j :: 0 < j < |members| && DefinesSet(members[j]);
      if i > 0 { SetIsFirst(members[1..], i - 1, v); }
    case UnreadableSet =>
    case SetTo(_) =>
      assert forall j | 0 < j < |members| :: members[j] in members[1..];
  }

  lemma {:induction false} SetUnwrapped(e: Node, u: Option<Val>)
    ensures SetEvaluates(e, u) <==> SetEvaluates(Unwrap(e), u)
  {
    if e.Wrap? && TypeOnly(e.kind) { SetUnwrapped(e.inner, u); }
  }

  lemma {:induction false} FirstSetDefines(members: seq<Node>)
    requires FirstSet(members).SetTo?
    ensures exists m | m in members :: DefinesSet(m)
  {
    if ReadSet(members[0]) != NoSet {
      assert DefinesSet(members[0]);
    } else {
      FirstSetDefines(members[1..]);
      var m :| m in members[1..] && DefinesSet(m);
      assert m in members;
    }
  }

  lemma UpsertSound(arg: Node, u: Option<Val>, t: Target)
    requires t.Valid() && SetVisible(arg) && SetEvaluates(arg, u)
    ensures SetShape(OnConflictSet(arg), t) == Clean ==> !SetHolds(u, t)
    ensures SetShape(OnConflictSet(arg), t) == Guarded ==> SetHolds(u, t)
  {
    SetUnwrapped(arg, u);
    match Unwrap(arg)
    case ObjectLit(members) =>
      if FirstSet(members).SetTo? { FirstSetDefines(members); }
      if u.Some? {
        var v := u.value;
        var i :| LastSet(members, i) && (members[i].PropAssign? ==> Evaluates(members[i].init, v));
        SetIsFirst(members, i, v);
        if FirstSet(members).SetTo? { PayloadSound(FirstSet(members).payload, v, t); }
      }
    case _ =>
  }

  // ---------------------------------------------------------------- the sites it can follow

  /** The call is spelled as the scanner reads it, and its upsert is not taken for clean without being so. */
  predicate SightedCall(callee: Node, args: seq<Node>, names: Names, t: Target) {
    MemberName(callee).Some? && ChainTargets(callee.base, names, t) &&
    match MemberName(callee).value
    case "set" => |args| == 1
    case "onConflictDoUpdate" =>
      |args| == 1 &&
      (SetShape(OnConflictSet(args[0]), t) != Clean || SetTruth(args[0], t) == Never)
    case _ => true
  }

  /** The place is no column of the table, or it is the whole left side of a plain assignment to `x.column`. */
  predicate SightedPlace(op: AssignOp, left: Node, target: Node, view: View, t: Target) {
    match target
    case Prop(o, c) =>
      c !in t.columns || NeverTable(o, view, t) || (op == Plain && target == left && IsTableRef(o, view.names, t))
    case Elem(o, i) => NeverTable(o, view, t) || CannotSpell(i, t.columns, view.textFree)
    case _ => true
  }

  /** The node is clear of writing to the table, or spelled as the scanner reads it. */
  predicate SightedSite(n: Node, view: View, t: Target) {
    match n
    case Call(callee, args) =>
      (match Accessed(callee)
       case None => true
       case Some(a) =>
         || |args| == 0 || KeyCannot(a.key, WRITERS, view.textFree) || NeverChain(a.of, view, t)
         || SightedCall(callee, args, view.names, t))
    case Assign(op, left, v) => forall p | p in Places(left, v, false) :: SightedPlace(op, left, p.target, view, t)
    case _ => true
  }

  lemma CallReported(n: Node, view: View, env: Env, t: Target)
    requires t.Valid() && t.columns != {} && Covers(view, env, t)
    requires n.Call? && SightedSite(n, view, t) && Writes(n, env, t)
    ensures Report(n, view.names, t).Some?
  {
    var a, arg := Accessed(n.callee).value, n.args[0];
    if NeverChain(a.of, view, t) { ChainClear(a.of, view, env, t); }
    if KeyCannot(a.key, WRITERS, view.textFree) {
      KeyClear(a.key, WRITERS, view, env, "set", t);
      KeyClear(a.key, WRITERS, view, env, "values", t);
      KeyClear(a.key, WRITERS, view, env, "onConflictDoUpdate", t);
    }
    var m := MemberName(n.callee).value;
    forall s ensures Spells(a.key, env, s, t) ==> s == m {}
    if m == "onConflictDoUpdate" {
      if SetTruth(arg, t) == Never { UpsertExact(arg, t); }
    } else {
      var v :| Evaluates(arg, v) && WriteHolds(v, t);
      PayloadSound(arg, v, t);
    }
  }

  lemma AssignmentReported(n: Node, view: View, env: Env, t: Target)
    requires Covers(view, env, t) && n.Assign? && SightedSite(n, view, t) && Writes(n, env, t)
    ensures Report(n, view.names, t).Some?
  {
    var p :| p in Places(n.left, n.right, false) && FillsColumn(p.target, env, t);
    match p.target
    case Prop(o, c) => if NeverTable(o, view, t) { TableClear(o, view, env, t); }
    case Elem(o, i) =>
      var c :| c in t.columns && Denotes(i, env, Text(c), t);
      if NeverTable(o, view, t) { TableClear(o, view, env, t); } else { SpellingClear(i, t.columns, view, env, c, t); }
  }

  lemma ReadIsCovered(root: Node, h: History, env: Env, t: Target)
    requires Collects(ViewOf(root, t), h, t) && ReadFrom(env, h)
    ensures Covers(ViewOf(root, t), env, t)
  {
  }

  lemma ReportedIsSighted(n: Node, view: View, t: Target)
    requires Report(n, view.names, t).Some?
    ensures SightedSite(n, view, t)
  {
  }

  /** In a transparent file, a node that under some run and some valuation writes a guarded column is
      reported exactly when it is sighted. */
  lemma WritesAreReported(root: Node, n: Node, t: Target)
    requires t.Valid() && t.columns != {} && Transparent(root, t) && MayWrite(root, n, t)
    ensures Report(n, Collected(root, t), t).Some? <==> SightedSite(n, ViewOf(root, t), t)
  {
    var view := ViewOf(root, t);
    var run, h, env :| Reaches(FilePlaces(root), run, h, t) && ReadFrom(env, h) && Writes(n, env, t);
    RunsCollected(root, run, h, t);
    if Report(n, view.names, t).Some? { ReportedIsSighted(n, view, t); }
    ReadIsCovered(root, h, env, t);
    hide Report, SightedSite, Transparent, Collects, Covers, Reaches, Collected;
    if SightedSite(n, view, t) {
      if n.Call? { CallReported(n, view, env, t); } else { AssignmentReported(n, view, env, t); }
    }
  }

  // ---------------------------------------------------------------- what a report says of the node

  predicate Upsert(n: Node) {
    n.Call? && MemberName(n.callee) == Some("onConflictDoUpdate") && n.args != []
  }

  /** Whether a reported node writes a guarded column: always, never, or under some valuations only. */
  function SiteTruth(n: Node, t: Target): Truth {
    match n
    case Call(callee, args) =>
      if args == [] then Never else if Upsert(n) then SetTruth(args[0], t) else PayloadTruth(args[0], t)
    case _ => Always
  }

  /** The node is a write of the table when names are read from `env`: its callee's left side denotes a
      chain, or it assigns to a column of the table. */
  ghost predicate OnTable(n: Node, env: Env, t: Target) {
    match n
    case Call(callee, _) => Accessed(callee).Some? && Denotes(Accessed(callee).value.of, env, AChain, t)
    case Assign(_, left, v) => exists p :: p in Places(left, v, false) && FillsColumn(p.target, env, t)
    case _ => false
  }

  /** A reported node that is a write of the table writes a guarded column as its text says. */
  lemma ReportedSite(n: Node, names: Names, env: Env, t: Target)
    requires t.Valid() && t.columns != {} && Report(n, names, t).Some?
    ensures SiteWrites(n, env, false, t) <==> OnTable(n, env, t) && SiteTruth(n, t) != Never
    ensures SiteWrites(n, env, true, t) <==> OnTable(n, env, t) && SiteTruth(n, t) == Always
  {
    if n.Call? {
      var key, arg := Accessed(n.callee).value.key, n.args[0];
      forall s ensures Spells(key, env, s, t) <==> s == MemberName(n.callee).value {}
      if Upsert(n) { UpsertExact(arg, t); } else { TruthExact(arg, t); }
    }
  }

  lemma GuardedSite(n: Node, names: Names, t: Target)
    requires t.Valid() && Report(n, names, t).Some? && Report(n, names, t).value.shape == Guarded
    ensures t.columns != {} && (!Upsert(n) ==> SiteTruth(n, t) == Always)
  {
    if n.Call? {
      if t.columns == {} { NothingGuarded(n, t); }
      if !Upsert(n) {
        forall v | Evaluates(n.args[0], v) ensures WriteHolds(v, t) { PayloadSound(n.args[0], v, t); }
        TruthExact(n.args[0], t);
      }
    }
  }

  lemma NothingGuarded(n: Node, t: Target)
    requires n.Call? && n.args != [] && t.columns == {}
    ensures PayloadShape(n.args[0], t) != Guarded && SetShape(OnConflictSet(n.args[0]), t) != Guarded
  {
  }

  lemma MayReported(root: Node, n: Node, names: Names, t: Target)
    requires t.Valid() && t.columns != {} && Report(n, names, t).Some? && MayWrite(root, n, t)
    ensures SiteTruth(n, t) != Never && (SiteTruth(n, t) == Always ==> AlwaysWrites(root, n, t))
  {
    hide Reaches, ReadFrom, FilePlaces, SiteWrites, OnTable, Report, SiteTruth;
    var run, h, env :| Reaches(FilePlaces(root), run, h, t) && ReadFrom(env, h) && Writes(n, env, t);
    ReportedSite(n, names, env, t);
  }

  lemma SurelyReported(root: Node, n: Node, names: Names, t: Target)
    requires t.Valid() && t.columns != {} && Report(n, names, t).Some? && AlwaysWrites(root, n, t)
    ensures SiteTruth(n, t) == Always
  {
    hide Reaches, ReadFrom, FilePlaces, SiteWrites, OnTable, Report, SiteTruth;
    var run, h, env :| Reaches(FilePlaces(root), run, h, t) && ReadFrom(env, h) && SiteWrites(n, env, true, t);
    ReportedSite(n, names, env, t);
  }

  /** A reported node that may write writes under every valuation exactly when its text says so; when it is
      reported as guarded, exactly when it is no upsert or its `set` always writes. */
  lemma ReportedWrites(root: Node, n: Node, names: Names, t: Target)
    requires t.Valid() && t.columns != {} && Report(n, names, t).Some? && MayWrite(root, n, t)
    ensures SiteTruth(n, t) != Never && (AlwaysWrites(root, n, t) <==> SiteTruth(n, t) == Always)
    ensures Report(n, names, t).value.shape == Guarded ==>
              (AlwaysWrites(root, n, t) <==> (Upsert(n) ==> SetTruth(n.args[0], t) == Always))
  {
    hide MayWrite, AlwaysWrites, Report, SetTruth;
    MayReported(root, n, names, t);
    if AlwaysWrites(root, n, t) { SurelyReported(root, n, names, t); }
    if Report(n, names, t).value.shape == Guarded { GuardedSite(n, names, t); }
  }

  // ---------------------------------------------------------------- upserts it misreads

  /** A computed `['set']` key is evaluated like a plain one, and the scanner takes it for no `set`. */
  lemma ComputedSetMissed(payload: Node, v: Val, t: Target)
    requires Evaluates(payload, v)
    ensures var arg := ObjectLit([PropAssign(ComputedName(Str("set")), payload)]);
            SetEvaluates(arg, Some(v)) && SetShape(OnConflictSet(arg), t) == Clean
  {
    var m := PropAssign(ComputedName(Str("set")), payload);
    assert [m][0] == m && FirstSet([m][1..]) == NoSet;
  }

  /** Of two `set` keys evaluation takes the last and the scanner the first. */
  lemma DuplicateSetMissed(first: Node, second: Node, v: Val, t: Target)
    requires Evaluates(second, v) && PayloadShape(first, t) == Clean
    ensures var arg := ObjectLit([PropAssign(StringName("set"), first), PropAssign(IdentName("set"), second)]);
            SetEvaluates(arg, Some(v)) && SetShape(OnConflictSet(arg), t) == Clean
  {
    var members := [PropAssign(StringName("set"), first), PropAssign(IdentName("set"), second)];
    assert CanDefineSet(members[1]);
  }
}
