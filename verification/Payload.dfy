/** What the scanner can read of a write's payload, against what the payload can evaluate to. */
module Payload {
  import opened Wrappers
  import opened Syntax

  predicate StartsWithDigit(s: string) {
    s != "" && '0' <= s[0] <= '9'
  }

  /** The table a gate guards and the columns only its projector may write. */
  datatype Target = Target(table: string, columns: set<string>) {
    predicate Valid() {
      forall c | c in columns :: !StartsWithDigit(c)
    }
  }

  const FIELD_WORKERS := Target("fieldWorkers",
    {"currentState", "stateEventVersion", "kycStatus", "stateReasonCode", "district", "endedOn", "auditId", "updatedAt",
     "approvedByDisplay"})

  const MARKETPLACE_MODULES := Target("marketplaceModules",
    {"currentState", "stateEventVersion", "slotsRemaining", "archiveReason", "auditId", "updatedAt"})

  // ---------------------------------------------------------------- reading expressions

  /** The wrappers that do not change which object an expression is. */
  predicate TypeOnly(kind: WrapKind) {
    kind != Await
  }

  function Unwrap(e: Node): (r: Node)
    ensures !(r.Wrap? && TypeOnly(r.kind))
    ensures r == e || r < e
  {
    if e.Wrap? && TypeOnly(e.kind) then Unwrap(e.inner) else e
  }

  method UnwrapLoop(expr: Node) returns (e: Node)
    ensures e == Unwrap(expr)
  {
    e := expr;
    while e.Wrap? && TypeOnly(e.kind)
      invariant Unwrap(e) == Unwrap(expr)
      decreases e
    {
      e := e.inner;
    }
  }

  /** The member a property access, or an element access with a literal index, names. */
  function MemberName(e: Node): Option<string> {
    match e
    case Prop(_, m) => Some(m)
    case Elem(_, Str(s)) => Some(s)
    case Elem(_, Template(s)) => Some(s)
    case _ => None
  }

  predicate IsLiteralKey(n: Name) {
    match n
    case ComputedName(e) => e.Str? || e.Template?
    case _ => true
  }

  /** The column name the scanner reads off an assignment or shorthand member. */
  function ReadKey(m: Node): Option<string> {
    match m
    case PropAssign(IdentName(s), _) => Some(s)
    case PropAssign(StringName(s), _) => Some(s)
    case PropAssign(ComputedName(Str(s)), _) => Some(s)
    case PropAssign(ComputedName(Template(s)), _) => Some(s)
    case Shorthand(s, _) => Some(s)
    case _ => None
  }

  predicate HasGuardedKey(members: seq<Node>, t: Target) {
    exists m | m in members :: ReadKey(m).Some? && ReadKey(m).value in t.columns
  }

  predicate UnreadableMember(m: Node) {
    match m
    case SpreadMember(_) => true
    case Accessor(_, _) => true
    case Method(_, _) => true
    case PropAssign(name, _) => !IsLiteralKey(name)
    case _ => false
  }

  datatype Shape = Guarded | Clean | Unverifiable

  function ObjectShape(e: Node, t: Target): Shape {
    match Unwrap(e)
    case ObjectLit(members) =>
      if HasGuardedKey(members, t) then Guarded
      else if exists m | m in members :: UnreadableMember(m) then Unverifiable
      else Clean
    case _ => Unverifiable
  }

  function ElementShape(e: Node, t: Target): Shape {
    if e.Spread? then Unverifiable else ObjectShape(e, t)
  }

  function PayloadShape(arg: Node, t: Target): Shape {
    match Unwrap(arg)
    case ArrayLit(elems) =>
      var shapes := set e | e in elems :: ElementShape(e, t);
      if Guarded in shapes then Guarded else if Unverifiable in shapes then Unverifiable else Clean
    case _ => ObjectShape(arg, t)
  }

  // ---------------------------------------------------------------- evaluating payloads

  /** A run-time value. An object records the keys each member of its literal contributed, an array the
      values each element contributed: evaluation chooses them freely wherever the text does not say. */
  datatype Val =
    | Obj(keys: seq<set<string>>)
    | Arr(parts: seq<seq<Val>>)
    | Atom

  function KeyText(n: Name): Option<string> {
    match n
    case IdentName(s) => Some(s)
    case StringName(s) => Some(s)
    case NumericName(d) => Some(d)
    case ComputedName(Str(s)) => Some(s)
    case ComputedName(Template(s)) => Some(s)
    case ComputedName(_) => None
  }

  function MemberKey(m: Node): Option<Option<string>> {
    match m
    case PropAssign(name, _) => Some(KeyText(name))
    case Shorthand(s, _) => Some(Some(s))
    case Accessor(name, _) => Some(KeyText(name))
    case Method(name, _) => Some(KeyText(name))
    case _ => None
  }

  /** The keys one member of an object literal can define (section 13.2.5 of ECMA-262): its own key, one
      key of any text when the key is computed, any keys at all when it is a spread. */
  ghost predicate Contributes(m: Node, keys: set<string>) {
    match MemberKey(m)
    case Some(Some(k)) => keys == {k}
    case Some(None) => exists k :: keys == {k}
    case None => m.SpreadMember? || keys == {}
  }

  /** `v` is a value `e` can have, under some valuation of its variables, calls and spreads. An operand
      picked by an operator or a conditional gives its own value, and so does an assigned one. */
  ghost predicate Evaluates(e: Node, v: Val) {
    match e
    case Wrap(kind, inner) => TypeOnly(kind) ==> Evaluates(inner, v)
    case Pick(_, options) => options == [] || exists k | 0 <= k < |options| :: Evaluates(options[k], v)
    case Assign(op, _, r) => op == Plain ==> Evaluates(r, v)
    case ObjectLit(members) =>
      v.Obj? && |v.keys| == |members| && forall i | 0 <= i < |members| :: Contributes(members[i], v.keys[i])
    case ArrayLit(elems) =>
      v.Arr? && |v.parts| == |elems| &&
      forall i | 0 <= i < |elems| :: elems[i].Spread? || (|v.parts[i]| == 1 && Evaluates(elems[i], v.parts[i][0]))
    case _ => true
  }

  predicate RowHolds(v: Val, t: Target) {
    v.Obj? && exists i | 0 <= i < |v.keys| :: v.keys[i] * t.columns != {}
  }

  /** Writing `v`, one row or an array of rows, writes a guarded column. */
  predicate WriteHolds(v: Val, t: Target) {
    RowHolds(v, t) ||
    (v.Arr? && exists i | 0 <= i < |v.parts| :: exists j | 0 <= j < |v.parts[i]| :: RowHolds(v.parts[i][j], t))
  }

  lemma {:induction false} EvaluatesUnwrapped(e: Node, v: Val)
    ensures Evaluates(e, v) <==> Evaluates(Unwrap(e), v)
  {
    if e.Wrap? && TypeOnly(e.kind) { EvaluatesUnwrapped(e.inner, v); }
  }

  // ---------------------------------------------------------------- the definite answers are right

  lemma ObjectSound(e: Node, v: Val, t: Target)
    requires t.Valid() && Evaluates(e, v)
    ensures ObjectShape(e, t) == Guarded ==> RowHolds(v, t)
    ensures ObjectShape(e, t) == Clean ==> !RowHolds(v, t)
  {
    EvaluatesUnwrapped(e, v);
    var o := Unwrap(e);
    if o.ObjectLit? {
      if HasGuardedKey(o.members, t) {
        var i :| 0 <= i < |o.members| && ReadKey(o.members[i]).Some? && ReadKey(o.members[i]).value in t.columns;
        assert ReadKey(o.members[i]).value in v.keys[i] * t.columns;
      } else if ObjectShape(e, t) == Clean {
        forall i | 0 <= i < |v.keys| ensures v.keys[i] * t.columns == {} {
          assert o.members[i] in o.members && Contributes(o.members[i], v.keys[i]);
        }
      }
    }
  }

  /** `guarded`: every evaluation writes a guarded column. `clean`: none does. */
  lemma PayloadSound(arg: Node, v: Val, t: Target)
    requires t.Valid() && Evaluates(arg, v)
    ensures PayloadShape(arg, t) == Guarded ==> WriteHolds(v, t)
    ensures PayloadShape(arg, t) == Clean ==> !WriteHolds(v, t)
  {
    EvaluatesUnwrapped(arg, v);
    ObjectSound(arg, v, t);
    var a := Unwrap(arg);
    if a.ArrayLit? {
      forall i | 0 <= i < |a.elems| && !a.elems[i].Spread?
        ensures ElementShape(a.elems[i], t) == Guarded ==> RowHolds(v.parts[i][0], t)
        ensures ElementShape(a.elems[i], t) == Clean ==> !RowHolds(v.parts[i][0], t)
      {
        ObjectSound(a.elems[i], v.parts[i][0], t);
      }
      if PayloadShape(arg, t) == Guarded {
        var i :| 0 <= i < |a.elems| && ElementShape(a.elems[i], t) == Guarded;
        assert RowHolds(v.parts[i][0], t);
      }
      if PayloadShape(arg, t) == Clean {
        forall i, j | 0 <= i < |v.parts| && 0 <= j < |v.parts[i]| ensures !RowHolds(v.parts[i][j], t) {
          assert ElementShape(a.elems[i], t) == Clean;
        }
      }
    }
  }

  // ---------------------------------------------------------------- what a payload does, exactly

  /** Whether a payload writes a guarded column: under every valuation, under none, or under some only. */
  datatype Truth = Always | Never | Depends

  predicate Defines(m: Node, t: Target) {
    MemberKey(m).Some? && MemberKey(m).value.Some? && MemberKey(m).value.value in t.columns
  }

  /** The text leaves the member's keys open. */
  predicate Open(m: Node) {
    m.SpreadMember? || MemberKey(m) == Some(None)
  }

  /** What several alternatives say together. */
  function Agreed(truths: set<Truth>): Truth {
    if truths == {Always} then Always else if truths == {Never} then Never else Depends
  }

  function RowTruth(e: Node, t: Target): Truth {
    match e
    case Wrap(kind, inner) => if TypeOnly(kind) then RowTruth(inner, t) else Depends
    case Pick(_, options) => Agreed(set o | o in options :: RowTruth(o, t))
    case Assign(op, _, r) => if op == Plain then RowTruth(r, t) else Depends
    case ObjectLit(members) =>
      if exists m | m in members :: Defines(m, t) then Always
      else if exists m | m in members :: Open(m) then Depends
      else Never
    case ArrayLit(_) => Never
    case _ => Depends
  }

  function ElementTruth(e: Node, t: Target): Truth {
    if e.Spread? then Depends else RowTruth(e, t)
  }

  function PayloadTruth(arg: Node, t: Target): Truth {
    match arg
    case Wrap(kind, inner) => if TypeOnly(kind) then PayloadTruth(inner, t) else Depends
    case Pick(_, options) => Agreed(set o | o in options :: PayloadTruth(o, t))
    case Assign(op, _, r) => if op == Plain then PayloadTruth(r, t) else Depends
    case ArrayLit(elems) =>
      var truths := set e | e in elems :: ElementTruth(e, t);
      if Always in truths then Always else if Depends in truths then Depends else Never
    case _ => RowTruth(arg, t)
  }

  /** Alternatives settle a question together only when each does, in the same way. */
  lemma AgreedExact(truths: set<Truth>)
    requires truths != {}
    ensures Agreed(truths) == Always <==> Never !in truths && Depends !in truths
    ensures Agreed(truths) == Never <==> Always !in truths && Depends !in truths
  {
    var x :| x in truths;
    assert Agreed(truths) == Always <==> truths == {Always};
    if Never !in truths && Depends !in truths {
      assert forall y | y in truths :: y == Always;
      assert x in truths && truths == {Always};
    }
    if Always !in truths && Depends !in truths {
      assert forall y | y in truths :: y == Never;
      assert x in truths && truths == {Never};
    }
  }

  /** Looking for a value that writes (`bad`), or for one that does not: a text with this truth gives one
      that writes. */
  predicate Allows(truth: Truth, bad: bool) {
    truth == Always || (bad && truth == Depends)
  }

  /** One of some alternatives allows what they allow together. */
  lemma SomeOption(truths: set<Truth>, bad: bool) returns (x: Truth)
    requires truths != {}
    ensures x in truths && (Allows(x, bad) <==> Allows(Agreed(truths), bad))
  {
    AgreedExact(truths);
    x :| x in truths && (Allows(x, bad) <==> Allows(Agreed(truths), bad));
  }

  lemma OneKey(k: string, t: Target)
    ensures {k} * t.columns == if k in t.columns then {k} else {}
  {
  }

  /** Keys for one member: guarded if `bad` and the member allows it, harmless if it allows that. */
  ghost function SomeKeys(m: Node, bad: bool, t: Target): (keys: set<string>)
    requires t.columns != {} && t.Valid()
    ensures Contributes(m, keys)
    ensures keys * t.columns != {} <==> Defines(m, t) || (bad && Open(m))
  {
    match MemberKey(m)
    case Some(Some(k)) => OneKey(k, t); {k}
    case Some(None) =>
      var k := if bad then var c :| c in t.columns; c else "0";
      assert StartsWithDigit("0");
      OneKey(k, t);
      {k}
    case None =>
      assert t.columns * t.columns == t.columns && {} * t.columns == {};
      if m.SpreadMember? && bad then t.columns else {}
  }

  ghost function SomeObject(members: seq<Node>, bad: bool, t: Target): (v: Val)
    requires t.columns != {} && t.Valid()
    ensures Evaluates(ObjectLit(members), v)
    ensures v.Obj? && (RowHolds(v, t) <==> exists m | m in members :: Defines(m, t) || (bad && Open(m)))
  {
    var v := Obj(seq(|members|, i requires 0 <= i < |members| => SomeKeys(members[i], bad, t)));
    assert forall i | 0 <= i < |members| :: members[i] in members && v.keys[i] == SomeKeys(members[i], bad, t);
    v
  }

  lemma RowOption(options: seq<Node>, bad: bool, t: Target)
    requires options != []
    ensures exists o | o in options ::
              Allows(RowTruth(o, t), bad) <==> Allows(Agreed(set x | x in options :: RowTruth(x, t)), bad)
  {
    var truths := set x | x in options :: RowTruth(x, t);
    assert RowTruth(options[0], t) in truths;
    var truth := SomeOption(truths, bad);
  }

  /** A value of `e`: a row that writes if `bad` and `e` allows it, and does not if it allows that. */
  ghost function SomeRow(e: Node, bad: bool, t: Target): (v: Val)
    requires t.columns != {} && t.Valid()
    ensures Evaluates(e, v)
    ensures RowHolds(v, t) <==> Allows(RowTruth(e, t), bad)
    decreases e
  {
    match e
    case Wrap(kind, inner) =>
      if TypeOnly(kind) then SomeRow(inner, bad, t) else FreeRow(bad, t)
    case Pick(_, options) =>
      if options == [] then FreeRow(bad, t)
      else
        RowOption(options, bad, t);
        var o :| o in options && (Allows(RowTruth(o, t), bad) <==> Allows(RowTruth(e, t), bad));
        SomeRow(o, bad, t)
    case Assign(op, _, r) => if op == Plain then SomeRow(r, bad, t) else FreeRow(bad, t)
    case ObjectLit(members) => SomeObject(members, bad, t)
    case ArrayLit(elems) =>
      Arr(seq(|elems|, i requires 0 <= i < |elems| => if elems[i].Spread? then [] else [SomeRow(elems[i], false, t)]))
    case _ => FreeRow(bad, t)
  }

  ghost function FreeRow(bad: bool, t: Target): (v: Val)
    requires t.columns != {}
    ensures (RowHolds(v, t) <==> bad) && !v.Arr?
  {
    if bad then assert Obj([t.columns]).keys[0] * t.columns != {}; Obj([t.columns]) else Atom
  }

  ghost function SomeElement(e: Node, bad: bool, t: Target): (vs: seq<Val>)
    requires t.columns != {} && t.Valid()
    ensures !e.Spread? ==> |vs| == 1 && Evaluates(e, vs[0])
    ensures (exists j | 0 <= j < |vs| :: RowHolds(vs[j], t)) <==> Allows(ElementTruth(e, t), bad)
  {
    var v := if e.Spread? then FreeRow(bad, t) else SomeRow(e, bad, t);
    assert [v][0] == v;
    if e.Spread? && !bad then [] else [v]
  }

  ghost function SomeArray(elems: seq<Node>, bad: bool, t: Target): (v: Val)
    requires t.columns != {} && t.Valid()
    ensures Evaluates(ArrayLit(elems), v)
    ensures v.Arr? && |v.parts| == |elems| && forall i | 0 <= i < |elems| :: v.parts[i] == SomeElement(elems[i], bad, t)
  {
    Arr(seq(|elems|, i requires 0 <= i < |elems| => SomeElement(elems[i], bad, t)))
  }

  lemma ArrayTruth(elems: seq<Node>, bad: bool, t: Target)
    ensures (exists e | e in elems :: Allows(ElementTruth(e, t), bad)) <==>
            Allows(PayloadTruth(ArrayLit(elems), t), bad)
  {
    var truths := set e | e in elems :: ElementTruth(e, t);
    assert forall e | e in elems :: ElementTruth(e, t) in truths;
  }

  lemma PayloadOption(options: seq<Node>, bad: bool, t: Target) returns (k: nat)
    requires options != []
    ensures k < |options| &&
            (Allows(PayloadTruth(options[k], t), bad) <==> Allows(PayloadTruth(Pick([], options), t), bad))
  {
    var truths := set o | o in options :: PayloadTruth(o, t);
    assert PayloadTruth(options[0], t) in truths;
    var truth := SomeOption(truths, bad);
    k :| 0 <= k < |options| && PayloadTruth(options[k], t) == truth;
  }

  lemma FreeHolds(bad: bool, t: Target)
    requires t.columns != {}
    ensures WriteHolds(FreeRow(bad, t), t) <==> bad
  {
  }

  lemma FreeDepends(arg: Node, bad: bool, t: Target)
    requires match arg
             case Wrap(kind, _) => !TypeOnly(kind)
             case Pick(_, options) => options == []
             case Assign(op, _, _) => op != Plain
             case ArrayLit(_) => false
             case ObjectLit(_) => false
             case _ => true
    ensures PayloadTruth(arg, t) == Depends && (Allows(Depends, bad) <==> bad)
  {
  }

  lemma ObjectHolds(members: seq<Node>, bad: bool, t: Target)
    requires t.columns != {} && t.Valid()
    ensures WriteHolds(SomeObject(members, bad, t), t) <==> Allows(PayloadTruth(ObjectLit(members), t), bad)
  {
  }

  /** A value of a payload that writes if `bad` and the payload allows it, and does not if it allows that. */
  lemma {:induction false} SomePayload(arg: Node, bad: bool, t: Target) returns (v: Val)
    requires t.columns != {} && t.Valid()
    ensures Evaluates(arg, v)
    ensures WriteHolds(v, t) <==> Allows(PayloadTruth(arg, t), bad)
  {
    v := FreeRow(bad, t);
    FreeHolds(bad, t);
    hide WriteHolds, RowTruth, Agreed, Allows;
    match arg
    case Wrap(kind, inner) =>
      if TypeOnly(kind) { v := SomePayload(inner, bad, t); } else { FreeDepends(arg, bad, t); }
    case Pick(_, options) =>
      if options != [] {
        var k := PayloadOption(options, bad, t);
        v := SomePayload(options[k], bad, t);
      } else {
        FreeDepends(arg, bad, t);
      }
    case Assign(op, _, r) =>
      if op == Plain { v := SomePayload(r, bad, t); } else { FreeDepends(arg, bad, t); }
    case ArrayLit(elems) =>
      v := SomeArray(elems, bad, t);
      ArrayHolds(elems, v, bad, t);
      ArrayTruth(elems, bad, t);
    case ObjectLit(members) =>
      v := SomeObject(members, bad, t);
      ObjectHolds(members, bad, t);
    case _ => FreeDepends(arg, bad, t);
  }

  lemma ArrayHolds(elems: seq<Node>, v: Val, bad: bool, t: Target)
    requires t.columns != {} && t.Valid()
    requires v.Arr? && |v.parts| == |elems|
    requires forall i | 0 <= i < |elems| :: v.parts[i] == SomeElement(elems[i], bad, t)
    ensures WriteHolds(v, t) <==> exists e | e in elems :: Allows(ElementTruth(e, t), bad)
  {
    if WriteHolds(v, t) {
      var i :| 0 <= i < |v.parts| && exists j | 0 <= j < |v.parts[i]| :: RowHolds(v.parts[i][j], t);
      assert elems[i] in elems;
    }
    forall e | e in elems && Allows(ElementTruth(e, t), bad) ensures WriteHolds(v, t) {
      var i :| 0 <= i < |elems| && elems[i] == e;
      assert exists j | 0 <= j < |v.parts[i]| :: RowHolds(v.parts[i][j], t);
    }
  }

  /** The answer stands with the value. */
  predicate Settles(truth: Truth, holds: bool) {
    match truth case Always => holds case Never => !holds case Depends => true
  }

  lemma OptionSettles(truths: set<Truth>, x: Truth, holds: bool)
    requires x in truths && Settles(x, holds)
    ensures Settles(Agreed(truths), holds)
  {
    AgreedExact(truths);
  }

  lemma {:induction false} RowSettled(e: Node, v: Val, t: Target)
    requires t.Valid() && Evaluates(e, v)
    ensures Settles(RowTruth(e, t), RowHolds(v, t))
  {
    match e
    case Wrap(kind, inner) =>
      if TypeOnly(kind) { RowSettled(inner, v, t); }
    case Pick(_, options) =>
      if options != [] {
        var k :| 0 <= k < |options| && Evaluates(options[k], v);
        RowSettled(options[k], v, t);
        OptionSettles(set o | o in options :: RowTruth(o, t), RowTruth(options[k], t), RowHolds(v, t));
      }
    case Assign(op, _, r) =>
      if op == Plain { RowSettled(r, v, t); }
    case ObjectLit(members) => ObjectSettled(members, v, t);
    case _ =>
  }

  lemma ObjectSettled(members: seq<Node>, v: Val, t: Target)
    requires t.Valid() && Evaluates(ObjectLit(members), v)
    ensures Settles(RowTruth(ObjectLit(members), t), RowHolds(v, t))
  {
    var truth := RowTruth(ObjectLit(members), t);
    if truth == Always {
      var i :| 0 <= i < |members| && Defines(members[i], t);
      assert MemberKey(members[i]).value.value in v.keys[i] * t.columns;
    } else if truth == Never {
      forall i | 0 <= i < |v.keys| ensures v.keys[i] * t.columns == {} {
        assert members[i] in members && Contributes(members[i], v.keys[i]);
      }
    }
  }

  lemma {:induction false} PayloadSettled(arg: Node, v: Val, t: Target)
    requires t.Valid() && Evaluates(arg, v)
    ensures Settles(PayloadTruth(arg, t), WriteHolds(v, t))
  {
    match arg
    case Wrap(kind, inner) =>
      if TypeOnly(kind) { PayloadSettled(inner, v, t); }
    case Pick(_, options) =>
      if options != [] {
        var k :| 0 <= k < |options| && Evaluates(options[k], v);
        PayloadSettled(options[k], v, t);
        OptionSettles(set o | o in options :: PayloadTruth(o, t), PayloadTruth(options[k], t), WriteHolds(v, t));
      }
    case Assign(op, _, r) =>
      if op == Plain { PayloadSettled(r, v, t); }
    case ArrayLit(elems) => ArraySettled(elems, v, t);
    case ObjectLit(members) => ObjectSettled(members, v, t);
    case _ =>
  }

  lemma ArraySettled(elems: seq<Node>, v: Val, t: Target)
    requires t.Valid() && Evaluates(ArrayLit(elems), v)
    ensures Settles(PayloadTruth(ArrayLit(elems), t), WriteHolds(v, t))
  {
    var truth := PayloadTruth(ArrayLit(elems), t);
    forall i | 0 <= i < |elems| && !elems[i].Spread?
      ensures Settles(ElementTruth(elems[i], t), RowHolds(v.parts[i][0], t))
    {
      RowSettled(elems[i], v.parts[i][0], t);
    }
    if truth == Always {
      var i :| 0 <= i < |elems| && ElementTruth(elems[i], t) == Always;
      assert RowHolds(v.parts[i][0], t);
    } else if truth == Never {
      forall i, j | 0 <= i < |v.parts| && 0 <= j < |v.parts[i]| ensures !RowHolds(v.parts[i][j], t) {
        assert ElementTruth(elems[i], t) == Never;
      }
    }
  }

  /** Every payload: it always writes, never writes, or depends on the valuation, exactly as its text says. */
  lemma TruthExact(arg: Node, t: Target)
    requires t.Valid() && t.columns != {}
    ensures PayloadTruth(arg, t) == Always <==> forall v | Evaluates(arg, v) :: WriteHolds(v, t)
    ensures PayloadTruth(arg, t) == Never <==> forall v | Evaluates(arg, v) :: !WriteHolds(v, t)
  {
    forall v | Evaluates(arg, v) { PayloadSettled(arg, v, t); }
    var bad := SomePayload(arg, true, t);
    var good := SomePayload(arg, false, t);
    assert Evaluates(arg, bad) && Evaluates(arg, good);
  }

  /** The scanner's three answers mean always, never and it depends, exactly for the payloads it does not
      give up on without need. */
  lemma PayloadExact(arg: Node, t: Target)
    requires t.Valid() && t.columns != {}
    ensures (PayloadShape(arg, t) == Unverifiable ==> PayloadTruth(arg, t) == Depends) <==>
            (PayloadShape(arg, t) == Guarded <==> forall v | Evaluates(arg, v) :: WriteHolds(v, t)) &&
            (PayloadShape(arg, t) == Clean <==> forall v | Evaluates(arg, v) :: !WriteHolds(v, t))
  {
    TruthExact(arg, t);
    var bad := SomePayload(arg, true, t);
    var good := SomePayload(arg, false, t);
    PayloadSound(arg, bad, t);
    PayloadSound(arg, good, t);
    assert PayloadShape(arg, t) == Guarded ==> forall v | Evaluates(arg, v) :: WriteHolds(v, t) by {
      forall v | Evaluates(arg, v) { PayloadSound(arg, v, t); }
    }
    assert PayloadShape(arg, t) == Clean ==> forall v | Evaluates(arg, v) :: !WriteHolds(v, t) by {
      forall v | Evaluates(arg, v) { PayloadSound(arg, v, t); }
    }
  }

  // ---------------------------------------------------------------- arrays join, wrappers vanish

  function Join(a: Shape, b: Shape): Shape {
    if a == Guarded || b == Guarded then Guarded
    else if a == Unverifiable || b == Unverifiable then Unverifiable
    else Clean
  }

  function JoinAll(elems: seq<Node>, t: Target): Shape {
    if elems == [] then Clean else Join(ElementShape(elems[0], t), JoinAll(elems[1..], t))
  }

  lemma {:induction false} ArrayJoins(elems: seq<Node>, t: Target)
    ensures PayloadShape(ArrayLit(elems), t) == JoinAll(elems, t)
  {
    if elems != [] {
      ArrayJoins(elems[1..], t);
      assert forall e :: e in elems <==> e == elems[0] || e in elems[1..];
      var shapes := set e | e in elems :: ElementShape(e, t);
      var rest := set e | e in elems[1..] :: ElementShape(e, t);
      assert shapes == {ElementShape(elems[0], t)} + rest;
    }
  }

  /** `e` under any stack of type-only wrappers. */
  function WrapAll(kinds: seq<WrapKind>, e: Node): Node {
    if kinds == [] then e else Wrap(kinds[0], WrapAll(kinds[1..], e))
  }

  lemma {:induction false} WrappersVanish(kinds: seq<WrapKind>, e: Node, t: Target)
    requires forall k | k in kinds :: TypeOnly(k)
    ensures Unwrap(WrapAll(kinds, e)) == Unwrap(e)
    ensures PayloadShape(WrapAll(kinds, e), t) == PayloadShape(e, t)
  {
    if kinds != [] {
      assert kinds[0] in kinds;
      WrappersVanish(kinds[1..], e, t);
    }
  }
}
