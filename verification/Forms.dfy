/** The scanner's readings on the spelling alone: which expressions it takes for the table, a chain or a
    payload of each shape, and which nodes it reports. */
module Forms {
  import opened Wrappers
  import opened Syntax
  import opened Payload
  import opened Aliases
  import opened Scanner

  // ---------------------------------------------------------------- wrappers and members

  /** `e` is `u` in parentheses, or under `as`, `<T>`, `!` or `satisfies`, any number of them. */
  ghost predicate Wraps(e: Node, u: Node) {
    exists kinds: seq<WrapKind> ::
      (forall k | k in kinds :: k in {Paren, As, TypeAssertion, NonNull, Satisfies}) && e == WrapAll(kinds, u)
  }

  lemma {:induction false} UnwrapWraps(e: Node)
    ensures Wraps(e, Unwrap(e))
  {
    if e.Wrap? && TypeOnly(e.kind) {
      UnwrapWraps(e.inner);
      var kinds: seq<WrapKind> :|
        (forall k | k in kinds :: k in {Paren, As, TypeAssertion, NonNull, Satisfies}) &&
        e.inner == WrapAll(kinds, Unwrap(e.inner));
      var more := [e.kind] + kinds;
      assert more[1..] == kinds;
      assert e == WrapAll(more, Unwrap(e));
    } else {
      assert e == WrapAll([], e);
    }
  }

  lemma WrapsUnwrap(e: Node, u: Node)
    requires Wraps(e, u)
    ensures Unwrap(e) == Unwrap(u)
  {
    var kinds: seq<WrapKind> :|
      (forall k | k in kinds :: k in {Paren, As, TypeAssertion, NonNull, Satisfies}) && e == WrapAll(kinds, u);
    WrappersVanish(kinds, u, FIELD_WORKERS);
  }

  /** `e` is `o.m`, `o['m']`, or the same with a template literal. */
  predicate Spelled(e: Node, o: Node, m: string) {
    e == Prop(o, m) || e == Elem(o, Str(m)) || e == Elem(o, Template(m))
  }

  lemma MemberSpelled(e: Node, m: string)
    ensures MemberName(e) == Some(m) <==> (e.Prop? || e.Elem?) && Spelled(e, e.base, m)
  {
  }

  // ---------------------------------------------------------------- the table

  /** A name known to be the table, or the member of the table's name of anything. */
  predicate BareTable(u: Node, names: Names, t: Target) {
    || (u.Ident? && (u.text == t.table || u.text in names.tables))
    || ((u.Prop? || u.Elem?) && Spelled(u, u.base, t.table))
  }

  ghost predicate TableForm(e: Node, names: Names, t: Target) {
    exists u :: Wraps(e, u) && BareTable(u, names, t)
  }

  lemma TableExact(e: Node, names: Names, t: Target)
    ensures IsTableRef(e, names, t) <==> TableForm(e, names, t)
  {
    UnwrapWraps(e);
    MemberSpelled(Unwrap(e), t.table);
    if TableForm(e, names, t) {
      var u :| Wraps(e, u) && BareTable(u, names, t);
      WrapsUnwrap(e, u);
    }
  }

  // ---------------------------------------------------------------- chains

  /** One step to the right of a chain. */
  datatype Link = Member(m: string) | Index(i: Node) | Called(args: seq<Node>) | Around(kind: WrapKind)

  function Step(o: Node, l: Link): Node {
    match l
    case Member(m) => Prop(o, m)
    case Index(i) => Elem(o, i)
    case Called(args) => Call(o, args)
    case Around(kind) => Wrap(kind, o)
  }

  function Extend(head: Node, links: seq<Link>): Node {
    if links == [] then head else Step(Extend(head, links[..|links| - 1]), links[|links| - 1])
  }

  /** An `update` or `insert` call of the table, or a name known to hold a chain. */
  ghost predicate ChainHead(h: Node, names: Names, t: Target) {
    || (h.Ident? && h.text in names.chains)
    || (h.Call? && (h.callee.Prop? || h.callee.Elem?) && h.args != [] && TableForm(h.args[0], names, t) &&
        (Spelled(h.callee, h.callee.base, "update") || Spelled(h.callee, h.callee.base, "insert")))
  }

  /** A step the walk goes back over: any but a `<T>` or `satisfies` wrapper. */
  predicate Walked(l: Link) {
    l.Around? ==> l.kind in {Paren, As, NonNull, Await}
  }

  ghost predicate ChainOf(n: Node, head: Node, links: seq<Link>, names: Names, t: Target) {
    n == Extend(head, links) && ChainHead(head, names, t) && forall l | l in links :: Walked(l)
  }

  ghost predicate ChainForm(n: Node, names: Names, t: Target) {
    exists head, links :: ChainOf(n, head, links, names, t)
  }

  lemma HeadIsChain(h: Node, names: Names, t: Target)
    requires ChainHead(h, names, t)
    ensures ChainTargets(h, names, t)
  {
    if h.Call? {
      TableExact(h.args[0], names, t);
      MemberSpelled(h.callee, "update");
      MemberSpelled(h.callee, "insert");
    }
  }

  lemma {:induction false} FormIsChain(n: Node, head: Node, links: seq<Link>, names: Names, t: Target)
    requires ChainOf(n, head, links, names, t)
    ensures ChainTargets(n, names, t)
    decreases |links|
  {
    if links == [] {
      HeadIsChain(head, names, t);
    } else {
      var front, last := links[..|links| - 1], links[|links| - 1];
      assert last in links;
      FormIsChain(Extend(head, front), head, front, names, t);
    }
  }

  lemma Further(o: Node, l: Link, names: Names, t: Target)
    requires ChainForm(o, names, t) && Walked(l)
    ensures ChainForm(Step(o, l), names, t)
  {
    var head, links :| ChainOf(o, head, links, names, t);
    var more := links + [l];
    assert more[..|more| - 1] == links;
    assert ChainOf(Step(o, l), head, more, names, t);
  }

  lemma HeadForm(h: Node, names: Names, t: Target)
    requires ChainHead(h, names, t)
    ensures ChainForm(h, names, t)
  {
    assert ChainOf(h, h, [], names, t);
  }

  lemma {:induction false} ChainHasForm(n: Node, names: Names, t: Target)
    requires ChainTargets(n, names, t)
    ensures ChainForm(n, names, t)
  {
    hide ChainForm;
    match n
    case Call(callee, args) =>
      if MemberName(callee).Some? {
        var m := MemberName(callee).value;
        MemberSpelled(callee, m);
        if StartsChain(args, m, names, t) {
          TableExact(args[0], names, t);
          HeadForm(n, names, t);
        } else {
          var step := if callee.Prop? then Member(callee.member) else Index(callee.index);
          ChainHasForm(callee.base, names, t);
          Further(callee.base, step, names, t);
          Further(callee, Called(args), names, t);
        }
      } else {
        ChainHasForm(callee, names, t);
        Further(callee, Called(args), names, t);
      }
    case Prop(o, m) =>
      ChainHasForm(o, names, t);
      Further(o, Member(m), names, t);
    case Elem(o, i) =>
      ChainHasForm(o, names, t);
      Further(o, Index(i), names, t);
    case Wrap(kind, e) =>
      ChainHasForm(e, names, t);
      Further(e, Around(kind), names, t);
    case Ident(x) => HeadForm(n, names, t);
  }

  /** The walk answers yes exactly for what goes on, by any members, indexes, calls and listed wrappers,
      from an `update` or `insert` of the table or from a name that holds a chain. */
  lemma ChainExact(n: Node, names: Names, t: Target)
    ensures ChainTargets(n, names, t) <==> ChainForm(n, names, t)
  {
    if ChainTargets(n, names, t) { ChainHasForm(n, names, t); }
    if ChainForm(n, names, t) {
      var head, links :| ChainOf(n, head, links, names, t);
      FormIsChain(n, head, links, names, t);
    }
  }

  // ---------------------------------------------------------------- payloads

  /** The member plainly names the column: as a name, a string, a literal in brackets, or in shorthand. */
  predicate NamesColumn(m: Node, c: string) {
    || (m.Shorthand? && m.text == c)
    || (m.PropAssign? && (m.name == IdentName(c) || m.name == StringName(c) || m.name == ComputedName(Str(c)) ||
                          m.name == ComputedName(Template(c))))
  }

  /** A spread, an accessor, a method, or a key in brackets that is no literal. */
  predicate Unreadable(m: Node) {
    || m.SpreadMember? || m.Accessor? || m.Method?
    || (m.PropAssign? && m.name.ComputedName? && !m.name.expr.Str? && !m.name.expr.Template?)
  }

  predicate NamesGuarded(ms: seq<Node>, t: Target) {
    exists m, c | m in ms && c in t.columns :: NamesColumn(m, c)
  }

  ghost predicate GuardedObject(e: Node, t: Target) {
    exists ms :: Wraps(e, ObjectLit(ms)) && NamesGuarded(ms, t)
  }

  ghost predicate CleanObject(e: Node, t: Target) {
    exists ms :: Wraps(e, ObjectLit(ms)) && !NamesGuarded(ms, t) && forall m | m in ms :: !Unreadable(m)
  }

  ghost predicate GuardedPayload(arg: Node, t: Target) {
    GuardedObject(arg, t) || exists es :: Wraps(arg, ArrayLit(es)) && exists e :: e in es && GuardedObject(e, t)
  }

  ghost predicate CleanPayload(arg: Node, t: Target) {
    CleanObject(arg, t) || exists es :: Wraps(arg, ArrayLit(es)) && forall e | e in es :: CleanObject(e, t)
  }

  lemma KeyNames(m: Node, t: Target)
    ensures ReadKey(m).Some? && ReadKey(m).value in t.columns <==> exists c :: c in t.columns && NamesColumn(m, c)
    ensures UnreadableMember(m) <==> Unreadable(m)
  {
    forall c ensures NamesColumn(m, c) <==> ReadKey(m) == Some(c) {}
  }

  lemma MembersExact(ms: seq<Node>, t: Target)
    ensures HasGuardedKey(ms, t) <==> NamesGuarded(ms, t)
    ensures (exists m | m in ms :: UnreadableMember(m)) <==> exists m :: m in ms && Unreadable(m)
  {
    forall m
      ensures ReadKey(m).Some? && ReadKey(m).value in t.columns <==> exists c :: c in t.columns && NamesColumn(m, c)
      ensures UnreadableMember(m) <==> Unreadable(m)
    {
      KeyNames(m, t);
    }
  }

  lemma ObjectExact(e: Node, t: Target)
    ensures ObjectShape(e, t) == Guarded <==> GuardedObject(e, t)
    ensures ObjectShape(e, t) == Clean <==> CleanObject(e, t)
  {
    hide NamesGuarded, Unreadable, HasGuardedKey, UnreadableMember, Wraps;
    UnwrapWraps(e);
    forall ms | Wraps(e, ObjectLit(ms)) ensures Unwrap(e) == ObjectLit(ms) { WrapsUnwrap(e, ObjectLit(ms)); }
    if Unwrap(e).ObjectLit? { MembersExact(Unwrap(e).members, t); }
  }

  lemma ElementExact(e: Node, t: Target)
    ensures ElementShape(e, t) == Guarded <==> GuardedObject(e, t)
    ensures ElementShape(e, t) == Clean <==> CleanObject(e, t)
  {
    ObjectExact(e, t);
  }

  lemma ArrayExact(es: seq<Node>, t: Target)
    ensures PayloadShape(ArrayLit(es), t) == Guarded <==> exists e :: e in es && GuardedObject(e, t)
    ensures PayloadShape(ArrayLit(es), t) == Clean <==> forall e | e in es :: CleanObject(e, t)
  {
    hide GuardedObject, CleanObject, ElementShape;
    forall e { ElementExact(e, t); }
    var shapes := set e | e in es :: ElementShape(e, t);
    assert forall e | e in es :: ElementShape(e, t) in shapes;
  }

  /** A payload is guarded exactly when it is an object literal, or an array with one, that plainly names a
      guarded column; clean exactly when it is an object literal, or an array of them, that names none and
      has no unreadable member; and unverifiable otherwise. */
  lemma PayloadForms(arg: Node, t: Target)
    ensures PayloadShape(arg, t) == Guarded <==> GuardedPayload(arg, t)
    ensures PayloadShape(arg, t) == Clean <==> CleanPayload(arg, t)
  {
    hide GuardedObject, CleanObject, ObjectShape, ElementShape, Wraps;
    UnwrapWraps(arg);
    forall es | Wraps(arg, ArrayLit(es)) ensures Unwrap(arg) == ArrayLit(es) { WrapsUnwrap(arg, ArrayLit(es)); }
    ObjectExact(arg, t);
    if Unwrap(arg).ArrayLit? {
      ArrayExact(Unwrap(arg).elems, t);
      ArrayNoObject(arg, t);
      assert PayloadShape(arg, t) == PayloadShape(Unwrap(arg), t);
    }
  }

  lemma ArrayNoObject(arg: Node, t: Target)
    requires Unwrap(arg).ArrayLit?
    ensures !GuardedObject(arg, t) && !CleanObject(arg, t)
  {
    forall ms | Wraps(arg, ObjectLit(ms)) ensures false { WrapsUnwrap(arg, ObjectLit(ms)); }
  }

  /** Every member is in shorthand or assigned to a key that is no computed expression. */
  predicate PlainMembers(ms: seq<Node>) {
    forall m | m in ms :: m.Shorthand? || (m.PropAssign? && IsLiteralKey(m.name))
  }

  ghost predicate PlainObject(e: Node) {
    exists ms :: Wraps(e, ObjectLit(ms)) && PlainMembers(ms)
  }

  lemma PlainShape(e: Node, t: Target)
    requires PlainObject(e)
    ensures Unwrap(e).ObjectLit? && ElementShape(e, t) == ObjectShape(e, t) != Unverifiable
  {
    var ms :| Wraps(e, ObjectLit(ms)) && PlainMembers(ms);
    WrapsUnwrap(e, ObjectLit(ms));
  }

  /** An object literal with plain members, or an array of such, is never given up on. */
  lemma PlainIsReadable(arg: Node, t: Target)
    requires PlainObject(arg) || exists es :: Wraps(arg, ArrayLit(es)) && forall e | e in es :: PlainObject(e)
    ensures PayloadShape(arg, t) != Unverifiable
  {
    hide ObjectShape, ElementShape, PlainObject, Wraps;
    if PlainObject(arg) {
      PlainShape(arg, t);
    } else {
      var es :| Wraps(arg, ArrayLit(es)) && forall e | e in es :: PlainObject(e);
      WrapsUnwrap(arg, ArrayLit(es));
      forall e | e in es { PlainShape(e, t); }
    }
  }

  // ---------------------------------------------------------------- the `set` of an upsert

  predicate PlainSet(m: Node) {
    m.PropAssign? && (m.name == IdentName("set") || m.name == StringName("set"))
  }

  /** A member the search for the `set` goes past. */
  predicate Passed(m: Node) {
    !PlainSet(m) && !m.SpreadMember? && !(m.Shorthand? && m.text == "set")
  }

  ghost predicate FirstOf(ms: seq<Node>, i: int) {
    0 <= i < |ms| && !Passed(ms[i]) && forall j | 0 <= j < i :: Passed(ms[j])
  }

  lemma {:induction false} FirstSetForm(ms: seq<Node>)
    ensures FirstSet(ms) == NoSet <==> forall m | m in ms :: Passed(m)
    ensures forall i | FirstOf(ms, i) ::
              FirstSet(ms) == if PlainSet(ms[i]) then SetTo(ms[i].init) else UnreadableSet
  {
    if ms != [] {
      FirstSetForm(ms[1..]);
      assert ReadSet(ms[0]) == NoSet <==> Passed(ms[0]);
      assert forall m :: m in ms <==> m == ms[0] || m in ms[1..];
      forall i | FirstOf(ms, i)
        ensures FirstSet(ms) == if PlainSet(ms[i]) then SetTo(ms[i].init) else UnreadableSet
      {
        if i > 0 {
          assert Passed(ms[0]);
          forall j | 0 <= j < i - 1 ensures Passed(ms[1..][j]) { assert ms[1..][j] == ms[j + 1]; }
          assert FirstOf(ms[1..], i - 1);
        }
      }
    }
  }

  /** The `set` of an upsert: none exactly in an object literal without one; the value of the first member
      that is no plain other one, when that is an assignment to a plain `set`; unreadable otherwise. */
  lemma SetForms(arg: Node, e: Node)
    ensures OnConflictSet(arg) == NoSet <==>
            exists ms :: Wraps(arg, ObjectLit(ms)) && forall m | m in ms :: Passed(m)
    ensures OnConflictSet(arg) == SetTo(e) <==>
            exists ms: seq<Node>, i :: Wraps(arg, ObjectLit(ms)) && FirstOf(ms, i) && PlainSet(ms[i]) && ms[i].init == e
  {
    UnwrapWraps(arg);
    forall ms | Wraps(arg, ObjectLit(ms)) ensures Unwrap(arg) == ObjectLit(ms) { WrapsUnwrap(arg, ObjectLit(ms)); }
    hide Wraps, FirstSet;
    if Unwrap(arg).ObjectLit? {
      var ms := Unwrap(arg).members;
      FirstSetForm(ms);
      if !(forall m | m in ms :: Passed(m)) { var i := FirstUnpassed(ms); }
    }
  }

  lemma {:induction false} FirstUnpassed(ms: seq<Node>) returns (i: nat)
    requires exists m :: m in ms && !Passed(m)
    ensures FirstOf(ms, i)
  {
    if !Passed(ms[0]) {
      i := 0;
    } else {
      i := FirstUnpassed(ms[1..]);
      i := i + 1;
    }
  }

  // ---------------------------------------------------------------- the reported nodes

  /** A call of the member `m` of a chain on the table. */
  ghost predicate ChainCall(n: Node, m: string, names: Names, t: Target) {
    n.Call? && (n.callee.Prop? || n.callee.Elem?) && Spelled(n.callee, n.callee.base, m) &&
    ChainForm(n.callee.base, names, t)
  }

  /** Every report, read off the syntax: a `set` or upsert with one argument, or `values` with a first one, on
      a chain on the table, its payload not clean; or a plain assignment to a guarded column of the table. */
  lemma ReportExact(n: Node, names: Names, t: Target, d: Detail)
    ensures Report(n, names, t) == Some(d) <==>
            match d.site
            case SetCall =>
              ChainCall(n, "set", names, t) && |n.args| == 1 && d.shape == PayloadShape(n.args[0], t) != Clean
            case UpsertCall =>
              ChainCall(n, "onConflictDoUpdate", names, t) && |n.args| == 1 &&
              d.shape == SetShape(OnConflictSet(n.args[0]), t) != Clean
            case ValuesCall =>
              ChainCall(n, "values", names, t) && n.args != [] && d.shape == PayloadShape(n.args[0], t) != Clean
            case DirectAssignment =>
              n.Assign? && n.op == Plain && n.left.Prop? && n.left.member in t.columns &&
              TableForm(n.left.base, names, t) && d.shape == Guarded
  {
    hide ChainForm, TableForm, PayloadShape, SetShape, ChainTargets;
    if n.Call? && MemberName(n.callee).Some? {
      ChainExact(n.callee.base, names, t);
      MemberSpelled(n.callee, "set");
      MemberSpelled(n.callee, "onConflictDoUpdate");
      MemberSpelled(n.callee, "values");
    }
    if n.Call? && MemberName(n.callee).None? { NotSpelled(n.callee); }
    if n.Assign? && n.left.Prop? {
      TableExact(n.left.base, names, t);
      NamedIsTable(n.left.base, names, t);
    }
  }

  lemma NotSpelled(callee: Node)
    requires MemberName(callee).None?
    ensures (callee.Prop? || callee.Elem?) ==> forall m :: !Spelled(callee, callee.base, m)
  {
  }

  lemma NamedIsTable(e: Node, names: Names, t: Target)
    ensures TableNameOf(e) == Some(t.table) ==> IsTableRef(e, names, t)
  {
  }
}
