/** What a file can do while it runs, read off its syntax alone: what expressions denote, what names are
    bound to, and which nodes write a guarded column. */
module Runs {
  import opened Wrappers
  import opened Syntax
  import opened Payload

  /** What a run can hold: the table object, a query chain on it (or a part of one), a text, or anything else. */
  datatype RunVal = TheTable | AChain | Text(s: string) | Something

  /** The values names are read with. */
  type Env = map<string, RunVal>

  function PartOf(v: RunVal): RunVal {
    if v == AChain then AChain else Something
  }

  /** A member access, `x.key` or `x[key]`, under any type-only wrappers. */
  datatype Access = Access(of: Node, key: Name)

  function Accessed(e: Node): (r: Option<Access>)
    ensures r.Some? ==> r.value.of < e
    ensures r.Some? && r.value.key.ComputedName? ==> r.value.key.expr < e
  {
    match e
    case Prop(o, m) => Some(Access(o, IdentName(m)))
    case Elem(o, i) => Some(Access(o, ComputedName(i)))
    case Wrap(kind, inner) => if kind == Await then None else Accessed(inner)
    case _ => None
  }

  const STARTERS := {IdentName("update"), IdentName("insert")}

  /** `v` is a value of `e` in some evaluation. `update` and `insert` of the table start a chain; members
      and calls of a chain stay part of it; a bare unbound table name is the table, and so can be the member of
      that name of any object; an operand picked by an operator or a conditional gives its own value. */
  ghost predicate Denotes(e: Node, env: Env, v: RunVal, t: Target)
    decreases e
  {
    match e
    case Ident(x) => v == if x in env then env[x] else if x == t.table then TheTable else Something
    case Str(s) => v == Text(s)
    case Template(s) => v == Text(s)
    case Wrap(_, inner) => Denotes(inner, env, v, t)
    case Call(callee, args) =>
      (match Accessed(callee)
       case Some(a) =>
         (v == AChain && |args| >= 1 && Denotes(args[0], env, TheTable, t) &&
          (a.key in STARTERS ||
           (a.key.ComputedName? &&
            (Denotes(a.key.expr, env, Text("update"), t) || Denotes(a.key.expr, env, Text("insert"), t))))) ||
         exists w :: Denotes(a.of, env, w, t) && v == PartOf(w)
       case None => exists w :: Denotes(callee, env, w, t) && v == PartOf(w))
    case Prop(o, m) => (v == TheTable && m == t.table) || exists w :: Denotes(o, env, w, t) && v == PartOf(w)
    case Elem(o, i) =>
      (v == TheTable && Denotes(i, env, Text(t.table), t)) || exists w :: Denotes(o, env, w, t) && v == PartOf(w)
    case Pick(_, options) => exists k | 0 <= k < |options| :: Denotes(options[k], env, v, t)
    case Assign(op, l, r) => Denotes(r, env, v, t) || (op == Logical && Denotes(l, env, v, t))
    case Spread(_) => true
    case _ => v == Something
  }

  /** The key can be the text `s`. */
  ghost predicate Spells(key: Name, env: Env, s: string, t: Target) {
    match key
    case IdentName(x) => x == s
    case ComputedName(e) => Denotes(e, env, Text(s), t)
    case _ => false
  }

  // ---------------------------------------------------------------- what a file binds

  /** A place that receives the value of an expression: a name, or a member of an object. */
  datatype Place = Place(target: Node, value: Node)

  /** An expression of no interest. */
  const NOTHING := Other([])

  function MemberOf(value: Node, key: Name): Node {
    match key
    case IdentName(s) => Prop(value, s)
    case StringName(s) => Prop(value, s)
    case NumericName(d) => Prop(value, d)
    case ComputedName(e) => Elem(value, e)
  }

  function OrDefault(value: Node, default: Option<Node>): Node {
    match default case Some(d) => Pick([], [value, d]) case None => value
  }

  /** The places of a target or binding pattern `n` that receives `value` (sections 13.15.5 and 14.3.3 of
      ECMA-262): each element receives the member its key or position names, or its default. */
  function Places(n: Node, value: Node, positional: bool): seq<Place>
    decreases n
  {
    match n
    case Ident(_) => [Place(n, value)]
    case Prop(_, _) => [Place(n, value)]
    case Elem(_, _) => [Place(n, value)]
    case Wrap(_, inner) => Places(inner, value, positional)
    case ObjectPattern(es) => AllPlaces(es, value, false)
    case ObjectLit(ms) => AllPlaces(ms, value, false)
    case ArrayPattern(es) => AllPlaces(es, Elem(value, NOTHING), true)
    case ArrayLit(es) => AllPlaces(es, Elem(value, NOTHING), true)
    case BindingElem(key, b, d) =>
      Places(b, OrDefault(if positional then value else MemberOf(value, KeyOrName(key, b)), d), false)
    case PropAssign(name, target) => Places(target, MemberOf(value, name), false)
    case Shorthand(x, fallback) => [Place(Ident(x), OrDefault(Prop(value, x), fallback))]
    case Assign(_, target, d) => Places(target, OrDefault(value, Some(d)), false)
    case Spread(inner) => Places(inner, value, false)
    case SpreadMember(inner) => Places(inner, Elem(value, NOTHING), false)
    case _ => []
  }

  function AllPlaces(ns: seq<Node>, value: Node, positional: bool): seq<Place>
    decreases ns
  {
    if ns == [] then [] else Places(ns[0], value, positional) + AllPlaces(ns[1..], value, positional)
  }

  function KeyOrName(key: Option<Name>, binder: Node): Name {
    match key
    case Some(k) => k
    case None => if binder.Ident? then IdentName(binder.text) else ComputedName(NOTHING)
  }

  /** The places a node fills: by an import, a declaration, a parameter's pattern and default, or an
      assignment, destructuring or not. */
  function OwnPlaces(n: Node): seq<Place> {
    match n
    case ImportSpec(imported, local) =>
      [Place(Ident(local), Prop(NOTHING, match imported case Some(x) => x case None => local))]
    case VarDecl(binder, value) => Places(binder, match value case Some(v) => v case None => NOTHING, false)
    case Param(binder, d) => Places(binder, match d case Some(v) => v case None => NOTHING, false)
    case Assign(_, left, v) => Places(left, v, false)
    case _ => []
  }

  function FilePlaces(n: Node): seq<Place>
    decreases n, 1
  {
    OwnPlaces(n) + PlacesBelow(n, |Children(n)|)
  }

  function PlacesBelow(n: Node, k: nat): seq<Place>
    requires k <= |Children(n)|
    decreases n, 0, k
  {
    if k == 0 then [] else
      assert Children(n)[k - 1] in Children(n);
      PlacesBelow(n, k - 1) + FilePlaces(Children(n)[k - 1])
  }

  // ---------------------------------------------------------------- every run of a file

  /** Everything the names of a file have been bound to so far, in any scope. */
  type History = set<(string, RunVal)>

  /** Names are read with values bound to that name at some earlier time, or with values of no interest. */
  ghost predicate ReadFrom(env: Env, h: History) {
    forall x | x in env :: env[x] == Something || (x, env[x]) in h
  }

  /** One place is filled: which, the values names are read with, and the value it receives. */
  datatype Step = Step(place: nat, env: Env, v: RunVal)

  ghost predicate Fills(ps: seq<Place>, s: Step, h: History, h': History, t: Target) {
    && s.place < |ps| && ReadFrom(s.env, h) && Denotes(ps[s.place].value, s.env, s.v, t)
    && h' == h + if ps[s.place].target.Ident? then {(ps[s.place].target.text, s.v)} else {}
  }

  /** `h` is what some run has bound: the places are filled in any order, any number of times. */
  ghost predicate Reaches(ps: seq<Place>, run: seq<Step>, h: History, t: Target) {
    if run == [] then h == {}
    else
      var last := run[|run| - 1];
      exists h0 :: Reaches(ps, run[..|run| - 1], h0, t) && Fills(ps, last, h0, h, t)
  }

  /** Some run of the file gives `e` the value `v`. */
  ghost predicate MayDenote(root: Node, e: Node, v: RunVal, t: Target) {
    exists run, h, env :: Reaches(FilePlaces(root), run, h, t) && ReadFrom(env, h) && Denotes(e, env, v, t)
  }

  // ---------------------------------------------------------------- which nodes write

  /** The key `set` can come from this member; it does so whatever the valuation. */
  predicate CanDefineSet(m: Node) {
    m.SpreadMember? || MemberKey(m) == Some(None) || DefinesSet(m)
  }

  predicate DefinesSet(m: Node) {
    MemberKey(m) == Some(Some("set"))
  }

  /** The member at `i` can be the last to define `set`. */
  predicate LastSet(members: seq<Node>, i: int) {
    0 <= i < |members| && CanDefineSet(members[i]) && forall j | i < j < |members| :: !DefinesSet(members[j])
  }

  /** `u` can be the value of `arg`'s `set`, given by the last member to define the key; `None`: it has none. */
  ghost predicate SetEvaluates(arg: Node, u: Option<Val>) {
    match arg
    case Wrap(kind, inner) => TypeOnly(kind) ==> SetEvaluates(inner, u)
    case Pick(_, options) => options == [] || exists k | 0 <= k < |options| :: SetEvaluates(options[k], u)
    case Assign(op, _, r) => op == Plain ==> SetEvaluates(r, u)
    case ObjectLit(members) =>
      (match u
       case None => forall m | m in members :: !DefinesSet(m)
       case Some(v) => exists i :: LastSet(members, i) && (members[i].PropAssign? ==> Evaluates(members[i].init, v)))
    case _ => true
  }

  /** The upsert writes a guarded column when its `set` is `u`. */
  predicate SetHolds(u: Option<Val>, t: Target) {
    u.Some? && WriteHolds(u.value, t)
  }

  /** What a call's first argument can hold, for the three writing methods: a guarded column under some
      valuation, or under every one when `always`. */
  ghost predicate ArgumentWrites(key: Name, arg: Node, env: Env, always: bool, t: Target) {
    || ((Spells(key, env, "set", t) || Spells(key, env, "values", t)) &&
        (if always then forall v | Evaluates(arg, v) :: WriteHolds(v, t)
         else exists v :: Evaluates(arg, v) && WriteHolds(v, t)))
    || (Spells(key, env, "onConflictDoUpdate", t) &&
        (if always then forall u | SetEvaluates(arg, u) :: SetHolds(u, t)
         else exists u :: SetEvaluates(arg, u) && SetHolds(u, t)))
  }

  /** A call of a writing method on a chain, whatever follows its first argument, or an assignment to a
      column of the table object, in any spelling and inside any pattern: it writes a guarded column under
      some valuation of its payload, or under every one when `always`. */
  ghost predicate SiteWrites(n: Node, env: Env, always: bool, t: Target) {
    match n
    case Call(callee, args) =>
      && Accessed(callee).Some? && |args| >= 1
      && Denotes(Accessed(callee).value.of, env, AChain, t)
      && ArgumentWrites(Accessed(callee).value.key, args[0], env, always, t)
    case Assign(_, left, v) => exists p :: p in Places(left, v, false) && FillsColumn(p.target, env, t)
    case _ => false
  }

  ghost predicate Writes(n: Node, env: Env, t: Target) {
    SiteWrites(n, env, false, t)
  }

  ghost predicate FillsColumn(target: Node, env: Env, t: Target) {
    match target
    case Prop(o, c) => c in t.columns && Denotes(o, env, TheTable, t)
    case Elem(o, i) => Denotes(o, env, TheTable, t) && exists c :: c in t.columns && Denotes(i, env, Text(c), t)
    case _ => false
  }

  /** Under some run and some valuation, the node writes a guarded column of the table. */
  ghost predicate MayWrite(root: Node, n: Node, t: Target) {
    exists run, h, env :: Reaches(FilePlaces(root), run, h, t) && ReadFrom(env, h) && Writes(n, env, t)
  }

  /** Under some run the node is a write of the table that writes a guarded column whatever the valuation
      of its payload. */
  ghost predicate AlwaysWrites(root: Node, n: Node, t: Target) {
    exists run, h, env :: Reaches(FilePlaces(root), run, h, t) && ReadFrom(env, h) && SiteWrites(n, env, true, t)
  }
}
