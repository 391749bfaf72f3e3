/** Which names of a file stand for the guarded table or for a query chain on it. */
module Aliases {
  import opened Wrappers
  import opened Syntax
  import opened Payload

  datatype Names = Names(tables: set<string>, chains: set<string>)

  const NO_NAMES := Names({}, {})

  ghost predicate Below(a: Names, b: Names) {
    a.tables <= b.tables && a.chains <= b.chains
  }

  predicate IsTableRef(e: Node, names: Names, t: Target) {
    match Unwrap(e)
    case Ident(x) => x == t.table || x in names.tables
    case u => MemberName(u) == Some(t.table)
  }

  predicate StartsChain(args: seq<Node>, method': string, names: Names, t: Target) {
    (method' == "update" || method' == "insert") && |args| >= 1 && IsTableRef(args[0], names, t)
  }

  /** Walking leftward from `n`, the chain meets an update or insert of the table, or starts at a chain name. */
  predicate ChainTargets(n: Node, names: Names, t: Target) {
    match n
    case Call(callee, args) =>
      if MemberName(callee).Some?
      then StartsChain(args, MemberName(callee).value, names, t) || ChainTargets(callee.base, names, t)
      else ChainTargets(callee, names, t)
    case Prop(o, _) => ChainTargets(o, names, t)
    case Elem(o, _) => ChainTargets(o, names, t)
    case Wrap(kind, e) => kind != TypeAssertion && kind != Satisfies && ChainTargets(e, names, t)
    case Ident(x) => x in names.chains
    case _ => false
  }

  /** `chainTargetsTable`: the same walk, on a cursor. */
  method ChainTargetsTable(node: Node, names: Names, t: Target) returns (r: bool)
    ensures r == ChainTargets(node, names, t)
  {
    var cur := node;
    while true
      invariant ChainTargets(cur, names, t) == ChainTargets(node, names, t)
      decreases cur
    {
      match cur {
        case Call(callee, args) =>
          if MemberName(callee).Some? {
            if StartsChain(args, MemberName(callee).value, names, t) { return true; }
            cur := callee.base;
          } else {
            cur := callee;
          }
        case Prop(o, _) => cur := o;
        case Elem(o, _) => cur := o;
        case Wrap(kind, e) =>
          if kind == TypeAssertion || kind == Satisfies { return false; }
          cur := e;
        case Ident(x) => return x in names.chains;
        case _ => return false;
      }
    }
  }

  // ---------------------------------------------------------------- the bindings of a file

  /** A name the file binds: to the imported or destructured table, or to the value of an expression. */
  datatype Binding = TableName(name: string) | Bound(name: string, value: Node)

  function KeyIs(key: Option<Name>, binder: string, t: Target): bool {
    match key
    case None => binder == t.table
    case Some(k) => FixedName(k) == Some(t.table)
  }

  function OwnBindings(n: Node, t: Target): seq<Binding> {
    match n
    case ImportSpec(imported, local) =>
      if (match imported case Some(x) => x case None => local) == t.table then [TableName(local)] else []
    case VarDecl(Ident(x), Some(v)) => [Bound(x, v)]
    case Assign(Plain, Ident(x), v) => [Bound(x, v)]
    case BindingElem(key, Ident(x), _) => if KeyIs(key, x, t) then [TableName(x)] else []
    case _ => []
  }

  /** The bindings of a file, in visiting order. */
  function Bindings(root: Node, t: Target): seq<Binding> {
    Collect([], root, t)
  }

  /** `before`, then the bindings of `n` and of the tree below it. */
  function Collect(before: seq<Binding>, n: Node, t: Target): seq<Binding>
    decreases n, 1
  {
    CollectBelow(before + OwnBindings(n, t), n, |Children(n)|, t)
  }

  /** `before`, then the bindings in the first `k` children of `n`. */
  function CollectBelow(before: seq<Binding>, n: Node, k: nat, t: Target): seq<Binding>
    requires k <= |Children(n)|
    decreases n, 0, k
  {
    if k == 0 then before else
      assert Children(n)[k - 1] in Children(n);
      Collect(CollectBelow(before, n, k - 1, t), Children(n)[k - 1], t)
  }

  function Apply(names: Names, b: Binding, t: Target): Names {
    match b
    case TableName(x) => names.(tables := names.tables + {x})
    case Bound(x, v) =>
      if IsTableRef(v, names, t) then names.(tables := names.tables + {x})
      else if ChainTargets(Unwrap(v), names, t) then names.(chains := names.chains + {x})
      else names
  }

  function Round(names: Names, bs: seq<Binding>, t: Target): Names {
    if bs == [] then names else Apply(Round(names, bs[..|bs| - 1], t), bs[|bs| - 1], t)
  }

  function Rounds(bs: seq<Binding>, r: nat, t: Target): Names {
    if r == 0 then NO_NAMES else Round(Rounds(bs, r - 1, t), bs, t)
  }

  /** The names the scanner uses: two rounds over the file. */
  function Collected(root: Node, t: Target): Names {
    Rounds(Bindings(root, t), 2, t)
  }

  lemma {:induction false} RoundConcat(names: Names, a: seq<Binding>, b: seq<Binding>, t: Target)
    ensures Round(names, a + b, t) == Round(Round(names, a, t), b, t)
  {
    if b == [] {
      assert a + b == a;
    } else {
      assert (a + b)[..|a + b| - 1] == a + b[..|b| - 1];
      RoundConcat(names, a, b[..|b| - 1], t);
    }
  }

  /** One traversal of the tree below `n`, name set by name set. */
  function Swept(names: Names, n: Node, t: Target): Names
    decreases n, 1
  {
    SweptBelow(Round(names, OwnBindings(n, t), t), n, |Children(n)|, t)
  }

  function SweptBelow(names: Names, n: Node, k: nat, t: Target): Names
    requires k <= |Children(n)|
    decreases n, 0, k
  {
    if k == 0 then names else
      assert Children(n)[k - 1] in Children(n);
      Swept(SweptBelow(names, n, k - 1, t), Children(n)[k - 1], t)
  }

  /** Sweeping the tree is applying its bindings one after the other. */
  lemma {:induction false} SweptIsRound(names: Names, before: seq<Binding>, n: Node, t: Target)
    ensures Swept(Round(names, before, t), n, t) == Round(names, Collect(before, n, t), t)
    decreases n, 1, 0
  {
    RoundConcat(names, before, OwnBindings(n, t), t);
    SweptBelowIsRound(names, before + OwnBindings(n, t), n, |Children(n)|, t);
  }

  lemma {:induction false} SweptBelowIsRound(names: Names, before: seq<Binding>, n: Node, k: nat, t: Target)
    requires k <= |Children(n)|
    ensures SweptBelow(Round(names, before, t), n, k, t) == Round(names, CollectBelow(before, n, k, t), t)
    decreases n, 0, k
  {
    hide Round;
    if k > 0 {
      assert Children(n)[k - 1] in Children(n);
      SweptBelowIsRound(names, before, n, k - 1, t);
      SweptIsRound(names, CollectBelow(before, n, k - 1, t), Children(n)[k - 1], t);
    }
  }

  /** The two sets the pre-pass fills. */
  class TableNames {
    var tables: set<string>
    var chains: set<string>

    constructor ()
      ensures Value() == NO_NAMES
    {
      tables, chains := {}, {};
    }

    ghost function Value(): Names
      reads this
    {
      Names(tables, chains)
    }

    method Bind(name: string, value: Node, t: Target)
      modifies this
      ensures Value() == Apply(old(Value()), Bound(name, value), t)
    {
      if IsTableRef(value, Names(tables, chains), t) {
        tables := tables + {name};
      } else {
        var chain := ChainTargetsTable(Unwrap(value), Names(tables, chains), t);
        if chain { chains := chains + {name}; }
      }
    }

    /** The bindings of one node. */
    method VisitOwn(n: Node, t: Target)
      modifies this
      ensures Value() == Round(old(Value()), OwnBindings(n, t), t)
    {
      ghost var own := OwnBindings(n, t);
      assert own == [] || (|own| == 1 && own[..0] == []);
      match n {
        case ImportSpec(imported, local) =>
          if (match imported case Some(x) => x case None => local) == t.table { tables := tables + {local}; }
        case VarDecl(Ident(x), Some(v)) => Bind(x, v, t);
        case Assign(Plain, Ident(x), v) => Bind(x, v, t);
        case BindingElem(key, Ident(x), _) =>
          if KeyIs(key, x, t) { tables := tables + {x}; }
        case _ =>
      }
    }

    /** One traversal of the tree below `n`. */
    method Visit(n: Node, t: Target)
      modifies this
      ensures Value() == Swept(old(Value()), n, t)
      decreases n, 1
    {
      VisitOwn(n, t);
      VisitChildren(n, t);
    }

    method VisitChildren(n: Node, t: Target)
      modifies this
      ensures Value() == SweptBelow(old(Value()), n, |Children(n)|, t)
      decreases n, 0
    {
      for i := 0 to |Children(n)|
        invariant Value() == SweptBelow(old(Value()), n, i, t)
      {
        assert Children(n)[i] in Children(n);
        Visit(Children(n)[i], t);
      }
    }
  }

  method CollectTableNames(root: Node, t: Target) returns (names: TableNames)
    ensures fresh(names) && names.Value() == Collected(root, t)
  {
    names := new TableNames();
    names.Visit(root, t);
    names.Visit(root, t);
    var bs := Bindings(root, t);
    SweptIsRound(NO_NAMES, [], root, t);
    SweptIsRound(Round(NO_NAMES, bs, t), [], root, t);
    assert Rounds(bs, 1, t) == Round(Rounds(bs, 0, t), bs, t);
  }

  // ---------------------------------------------------------------- what the bindings say

  datatype Kind = TableKind | ChainKind

  datatype Fact = Fact(name: string, kind: Kind)

  predicate Knows(names: Names, f: Fact) {
    match f.kind case TableKind => f.name in names.tables case ChainKind => f.name in names.chains
  }

  function Just(u: Option<Fact>): Names {
    match u
    case None => NO_NAMES
    case Some(Fact(x, TableKind)) => Names({x}, {})
    case Some(Fact(x, ChainKind)) => Names({}, {x})
  }

  /** Binding `b` gives its name the kind `kind`, using at most the one fact `u`. */
  predicate Gives(b: Binding, u: Option<Fact>, kind: Kind, t: Target) {
    match b
    case TableName(_) => kind == TableKind
    case Bound(_, v) =>
      match kind
      case TableKind => IsTableRef(v, Just(u), t)
      case ChainKind => ChainTargets(Unwrap(v), Just(u), t)
  }

  /** One step of an alias path: the binding at `pos` gives its name the kind `kind`. */
  datatype Hop = Hop(pos: nat, kind: Kind)

  function FactOf(bs: seq<Binding>, h: Hop): Fact
    requires h.pos < |bs|
  {
    Fact(bs[h.pos].name, h.kind)
  }

  /** A chain of bindings, each using the fact the one before it gave. */
  predicate AliasPath(bs: seq<Binding>, p: seq<Hop>, t: Target) {
    p != [] && p[|p| - 1].pos < |bs| &&
    var last := p[|p| - 1];
    if |p| == 1 then Gives(bs[last.pos], None, last.kind, t)
    else
      var front := p[..|p| - 1];
      AliasPath(bs, front, t) && Gives(bs[last.pos], Some(FactOf(bs, front[|front| - 1])), last.kind, t)
  }

  /** How often the path uses a name before its binding in visiting order. */
  function Inversions(p: seq<Hop>): nat {
    if |p| <= 1 then 0
    else Inversions(p[..|p| - 1]) + if p[|p| - 1].pos <= p[|p| - 2].pos then 1 else 0
  }

  ghost predicate PathTo(bs: seq<Binding>, p: seq<Hop>, f: Fact, t: Target) {
    AliasPath(bs, p, t) && FactOf(bs, p[|p| - 1]) == f
  }

  ghost predicate Derivable(bs: seq<Binding>, f: Fact, t: Target) {
    exists p: seq<Hop> :: PathTo(bs, p, f, t)
  }

  ghost predicate ReachedWithin(bs: seq<Binding>, f: Fact, k: int, t: Target) {
    exists p: seq<Hop> :: PathTo(bs, p, f, t) && Inversions(p) <= k
  }

  // a single fact is enough for a single conclusion

  lemma TableRefNeedsOne(e: Node, names: Names, t: Target) returns (u: Option<Fact>)
    requires IsTableRef(e, names, t)
    ensures IsTableRef(e, Just(u), t) && (u.Some? ==> Knows(names, u.value))
  {
    match Unwrap(e)
    case Ident(x) => u := if x in names.tables then Some(Fact(x, TableKind)) else None;
    case _ => u := None;
  }

  lemma {:induction false} ChainNeedsOne(n: Node, names: Names, t: Target) returns (u: Option<Fact>)
    requires ChainTargets(n, names, t)
    ensures ChainTargets(n, Just(u), t) && (u.Some? ==> Knows(names, u.value))
  {
    match n
    case Call(callee, args) =>
      if MemberName(callee).Some? {
        if StartsChain(args, MemberName(callee).value, names, t) {
          u := TableRefNeedsOne(args[0], names, t);
        } else {
          u := ChainNeedsOne(callee.base, names, t);
        }
      } else {
        u := ChainNeedsOne(callee, names, t);
      }
    case Prop(o, _) => u := ChainNeedsOne(o, names, t);
    case Elem(o, _) => u := ChainNeedsOne(o, names, t);
    case Wrap(_, e) => u := ChainNeedsOne(e, names, t);
    case Ident(x) => u := Some(Fact(x, ChainKind));
  }

  lemma {:induction false} ChainMonotone(n: Node, a: Names, b: Names, t: Target)
    requires Below(a, b) && ChainTargets(n, a, t)
    ensures ChainTargets(n, b, t)
  {
    match n
    case Call(callee, args) =>
      if MemberName(callee).Some? {
        if !StartsChain(args, MemberName(callee).value, a, t) { ChainMonotone(callee.base, a, b, t); }
      } else {
        ChainMonotone(callee, a, b, t);
      }
    case Prop(o, _) => ChainMonotone(o, a, b, t);
    case Elem(o, _) => ChainMonotone(o, a, b, t);
    case Wrap(_, e) => ChainMonotone(e, a, b, t);
    case Ident(_) =>
  }

  lemma {:induction false} RoundGrows(names: Names, bs: seq<Binding>, i: nat, j: nat, t: Target)
    requires i <= j <= |bs|
    ensures Below(Round(names, bs[..i], t), Round(names, bs[..j], t))
  {
    if i < j {
      assert bs[..j][..j - 1] == bs[..j - 1];
      RoundGrows(names, bs, i, j - 1, t);
    }
  }

  // ---------------------------------------------------------------- nothing is invented

  /** After `r` rounds and `j` bindings more, every name found lies on an alias path with at most `r`
      uses before binding; with exactly `r`, the path ends before `j`. */
  ghost predicate Explained(bs: seq<Binding>, r: nat, j: nat, f: Fact, t: Target) {
    exists p: seq<Hop> :: PathTo(bs, p, f, t) && (Inversions(p) < r || (Inversions(p) == r && p[|p| - 1].pos < j))
  }

  lemma ExtendPath(bs: seq<Binding>, p: seq<Hop>, u: Fact, pos: nat, kind: Kind, t: Target)
    requires PathTo(bs, p, u, t) && pos < |bs| && Gives(bs[pos], Some(u), kind, t)
    ensures PathTo(bs, p + [Hop(pos, kind)], Fact(bs[pos].name, kind), t)
    ensures Inversions(p + [Hop(pos, kind)]) == Inversions(p) + if pos <= p[|p| - 1].pos then 1 else 0
  {
    var q := p + [Hop(pos, kind)];
    assert q[..|q| - 1] == p;
  }

  lemma ExplainedNext(bs: seq<Binding>, r: nat, j: nat, u: Option<Fact>, kind: Kind, t: Target)
    requires j < |bs| && Gives(bs[j], u, kind, t)
    requires u.Some? ==> Explained(bs, r, j, u.value, t)
    ensures Explained(bs, r, j + 1, Fact(bs[j].name, kind), t)
  {
    match u
    case None =>
      var p := [Hop(j, kind)];
      assert PathTo(bs, p, Fact(bs[j].name, kind), t) && Inversions(p) == 0;
    case Some(f) =>
      var p: seq<Hop> :| PathTo(bs, p, f, t) && (Inversions(p) < r || (Inversions(p) == r && p[|p| - 1].pos < j));
      ExtendPath(bs, p, f, j, kind, t);
  }

  lemma {:induction false} NothingInvented(bs: seq<Binding>, r: nat, j: nat, f: Fact, t: Target)
    requires j <= |bs| && Knows(Round(Rounds(bs, r, t), bs[..j], t), f)
    ensures Explained(bs, r, j, f, t)
    decreases r, j
  {
    if j == 0 {
      assert bs[..|bs|] == bs;
      NothingInvented(bs, r - 1, |bs|, f, t);
      var p: seq<Hop> :| PathTo(bs, p, f, t) &&
                        (Inversions(p) < r - 1 || (Inversions(p) == r - 1 && p[|p| - 1].pos < |bs|));
      assert Inversions(p) < r;
    } else {
      assert bs[..j][..j - 1] == bs[..j - 1];
      var before, b := Round(Rounds(bs, r, t), bs[..j - 1], t), bs[j - 1];
      if Knows(before, f) {
        NothingInvented(bs, r, j - 1, f, t);
        var p: seq<Hop> :| PathTo(bs, p, f, t) && (Inversions(p) < r || (Inversions(p) == r && p[|p| - 1].pos < j - 1));
        assert Inversions(p) < r || (Inversions(p) == r && p[|p| - 1].pos < j);
      } else {
        var u: Option<Fact> := None;
        if b.Bound? {
          if f.kind == TableKind { u := TableRefNeedsOne(b.value, before, t); }
          else { u := ChainNeedsOne(Unwrap(b.value), before, t); }
        }
        if u.Some? { NothingInvented(bs, r, j - 1, u.value, t); }
        ExplainedNext(bs, r, j - 1, u, f.kind, t);
      }
    }
  }

  // ---------------------------------------------------------------- the least fixed point

  /** The least fixed point of the binding rules: every name some alias path reaches. */
  ghost function Lfp(bs: seq<Binding>, t: Target): Names {
    Names(set b | b in bs && Derivable(bs, Fact(b.name, TableKind), t) :: b.name,
          set b | b in bs && Derivable(bs, Fact(b.name, ChainKind), t) :: b.name)
  }

  lemma LfpKnows(bs: seq<Binding>, f: Fact, t: Target)
    ensures Knows(Lfp(bs, t), f) <==> Derivable(bs, f, t)
  {
    if Derivable(bs, f, t) {
      var p: seq<Hop> :| PathTo(bs, p, f, t);
      var b := bs[p[|p| - 1].pos];
      assert b in bs && Fact(b.name, f.kind) == f;
    }
  }

  /** The binding rules, each on its own: no rule hides another. */
  ghost predicate Closed(names: Names, bs: seq<Binding>, t: Target) {
    forall b | b in bs ::
      match b
      case TableName(x) => x in names.tables
      case Bound(x, v) =>
        (IsTableRef(v, names, t) ==> x in names.tables) && (ChainTargets(Unwrap(v), names, t) ==> x in names.chains)
  }

  lemma DeriveOne(bs: seq<Binding>, i: nat, u: Option<Fact>, kind: Kind, t: Target)
    requires i < |bs| && Gives(bs[i], u, kind, t) && (u.Some? ==> Derivable(bs, u.value, t))
    ensures Derivable(bs, Fact(bs[i].name, kind), t)
  {
    match u
    case None => assert PathTo(bs, [Hop(i, kind)], Fact(bs[i].name, kind), t);
    case Some(f) =>
      var p: seq<Hop> :| PathTo(bs, p, f, t);
      ExtendPath(bs, p, f, i, kind, t);
  }

  lemma LfpClosed(bs: seq<Binding>, t: Target)
    ensures Closed(Lfp(bs, t), bs, t)
  {
    var names := Lfp(bs, t);
    forall f ensures Knows(names, f) <==> Derivable(bs, f, t) { LfpKnows(bs, f, t); }
    forall i | 0 <= i < |bs|
      ensures bs[i].TableName? ==> Knows(names, Fact(bs[i].name, TableKind))
      ensures bs[i].Bound? && IsTableRef(bs[i].value, names, t) ==> Knows(names, Fact(bs[i].name, TableKind))
      ensures bs[i].Bound? && ChainTargets(Unwrap(bs[i].value), names, t) ==> Knows(names, Fact(bs[i].name, ChainKind))
    {
      if bs[i].TableName? {
        DeriveOne(bs, i, None, TableKind, t);
      } else {
        if IsTableRef(bs[i].value, names, t) {
          var u := TableRefNeedsOne(bs[i].value, names, t);
          DeriveOne(bs, i, u, TableKind, t);
        }
        if ChainTargets(Unwrap(bs[i].value), names, t) {
          var u := ChainNeedsOne(Unwrap(bs[i].value), names, t);
          DeriveOne(bs, i, u, ChainKind, t);
        }
      }
    }
  }

  lemma {:induction false} PathInClosed(names: Names, bs: seq<Binding>, p: seq<Hop>, t: Target)
    requires Closed(names, bs, t) && AliasPath(bs, p, t)
    ensures Knows(names, FactOf(bs, p[|p| - 1]))
  {
    var h := p[|p| - 1];
    var b := bs[h.pos];
    var u := if |p| == 1 then None else Some(FactOf(bs, p[..|p| - 1][|p| - 2]));
    if |p| > 1 { PathInClosed(names, bs, p[..|p| - 1], t); }
    assert b in bs && Below(Just(u), names);
    if b.Bound? && h.kind == ChainKind { ChainMonotone(Unwrap(b.value), Just(u), names, t); }
  }

  /** `Lfp` is the least set of names closed under the binding rules. */
  lemma LfpLeast(bs: seq<Binding>, names: Names, t: Target)
    requires Closed(names, bs, t)
    ensures Below(Lfp(bs, t), names)
  {
    forall f | Knows(Lfp(bs, t), f) ensures Knows(names, f) {
      LfpKnows(bs, f, t);
      var p: seq<Hop> :| PathTo(bs, p, f, t);
      PathInClosed(names, bs, p, t);
    }
    forall x | x in Lfp(bs, t).tables ensures x in names.tables { assert Knows(Lfp(bs, t), Fact(x, TableKind)); }
    forall x | x in Lfp(bs, t).chains ensures x in names.chains { assert Knows(Lfp(bs, t), Fact(x, ChainKind)); }
  }

  // ---------------------------------------------------------------- what the rounds find

  /** No bound value is both the table and a chain, so the scanner's `else if` hides nothing. */
  ghost predicate NoClash(bs: seq<Binding>, t: Target) {
    forall b | b in bs && b.Bound? ::
      !(IsTableRef(b.value, Lfp(bs, t), t) && ChainTargets(Unwrap(b.value), Lfp(bs, t), t))
  }

  lemma RoundsBelowLfp(bs: seq<Binding>, r: nat, j: nat, t: Target)
    requires j <= |bs|
    ensures Below(Round(Rounds(bs, r, t), bs[..j], t), Lfp(bs, t))
  {
    var names := Round(Rounds(bs, r, t), bs[..j], t);
    forall f | Knows(names, f) ensures Knows(Lfp(bs, t), f) {
      NothingInvented(bs, r, j, f, t);
      LfpKnows(bs, f, t);
    }
    forall x | x in names.tables ensures x in Lfp(bs, t).tables { assert Knows(names, Fact(x, TableKind)); }
    forall x | x in names.chains ensures x in Lfp(bs, t).chains { assert Knows(names, Fact(x, ChainKind)); }
  }

  /** A binding that gives a fact its round is sure to add it, when nothing clashes. */
  lemma ApplyGives(bs: seq<Binding>, r: nat, i: nat, u: Option<Fact>, kind: Kind, t: Target)
    requires i < |bs| && NoClash(bs, t) && Gives(bs[i], u, kind, t)
    requires u.Some? ==> Knows(Round(Rounds(bs, r, t), bs[..i], t), u.value)
    ensures Knows(Round(Rounds(bs, r, t), bs[..i + 1], t), Fact(bs[i].name, kind))
  {
    var b, before := bs[i], Round(Rounds(bs, r, t), bs[..i], t);
    assert bs[..i + 1][..i] == bs[..i];
    assert Below(Just(u), before);
    if b.Bound? && kind == ChainKind {
      ChainMonotone(Unwrap(b.value), Just(u), before, t);
      RoundsBelowLfp(bs, r, i, t);
      ChainMonotone(Unwrap(b.value), before, Lfp(bs, t), t);
      assert b in bs && !IsTableRef(b.value, before, t);
    }
  }

  /** What round `r`, or an earlier one, has found stays found. */
  lemma FoundEarlier(bs: seq<Binding>, r: nat, i: nat, j: nat, f: Fact, t: Target)
    requires j <= |bs| && i <= |bs|
    requires (i <= j && Knows(Round(Rounds(bs, r, t), bs[..i], t), f)) ||
             (r > 0 && Knows(Round(Rounds(bs, r - 1, t), bs[..i], t), f))
    ensures Knows(Round(Rounds(bs, r, t), bs[..j], t), f)
  {
    if i <= j && Knows(Round(Rounds(bs, r, t), bs[..i], t), f) {
      RoundGrows(Rounds(bs, r, t), bs, i, j, t);
    } else {
      RoundGrows(Rounds(bs, r - 1, t), bs, i, |bs|, t);
      assert bs[..|bs|] == bs && bs[..0] == [];
      RoundGrows(Rounds(bs, r, t), bs, 0, j, t);
    }
  }

  /** A path with at most `r` uses before binding is found in round `r + 1`, by the time its last
      binding has been visited. */
  lemma {:induction false} PathFound(bs: seq<Binding>, p: seq<Hop>, r: nat, t: Target)
    requires AliasPath(bs, p, t) && Inversions(p) <= r && NoClash(bs, t)
    ensures Knows(Round(Rounds(bs, r, t), bs[..p[|p| - 1].pos + 1], t), FactOf(bs, p[|p| - 1]))
    decreases |p|
  {
    hide Round, Rounds, Gives;
    var h := p[|p| - 1];
    if |p| == 1 {
      ApplyGives(bs, r, h.pos, None, h.kind, t);
    } else {
      var front := p[..|p| - 1];
      var last := front[|front| - 1];
      var u := FactOf(bs, last);
      PathFound(bs, front, if h.pos <= last.pos then r - 1 else r, t);
      FoundEarlier(bs, r, last.pos + 1, h.pos, u, t);
      ApplyGives(bs, r, h.pos, Some(u), h.kind, t);
    }
  }

  lemma RoundsFind(bs: seq<Binding>, r: nat, f: Fact, t: Target)
    requires NoClash(bs, t) && ReachedWithin(bs, f, r - 1, t)
    ensures Knows(Rounds(bs, r, t), f)
  {
    hide NoClash, Knows;
    var p: seq<Hop> :| PathTo(bs, p, f, t) && Inversions(p) <= r - 1;
    PathFound(bs, p, r - 1, t);
    KnownByEnd(bs, r, p[|p| - 1].pos + 1, f, t);
  }

  lemma KnownByEnd(bs: seq<Binding>, r: nat, j: nat, f: Fact, t: Target)
    requires r > 0 && j <= |bs| && Knows(Round(Rounds(bs, r - 1, t), bs[..j], t), f)
    ensures Knows(Rounds(bs, r, t), f)
  {
    assert bs[..|bs|] == bs;
    RoundGrows(Rounds(bs, r - 1, t), bs, j, |bs|, t);
  }

  /** Without a clash, `r` rounds find exactly the names with an alias path of fewer than `r` uses
      before binding. */
  lemma RoundsExact(bs: seq<Binding>, r: nat, f: Fact, t: Target)
    requires NoClash(bs, t)
    ensures Knows(Rounds(bs, r, t), f) <==> ReachedWithin(bs, f, r - 1, t)
  {
    hide NoClash, Knows;
    if Knows(Rounds(bs, r, t), f) {
      assert bs[..0] == [];
      NothingInvented(bs, r, 0, f, t);
    }
    if ReachedWithin(bs, f, r - 1, t) { RoundsFind(bs, r, f, t); }
  }

  /** Every name with an alias path has one that uses a name before its binding at most once. */
  ghost predicate Shallow(bs: seq<Binding>, t: Target) {
    forall f | Derivable(bs, f, t) :: ReachedWithin(bs, f, 1, t)
  }

  lemma SameNames(a: Names, b: Names)
    requires forall f :: Knows(a, f) <==> Knows(b, f)
    ensures a == b
  {
    forall x ensures x in a.tables <==> x in b.tables {
      assert Knows(a, Fact(x, TableKind)) <==> Knows(b, Fact(x, TableKind));
    }
    forall x ensures x in a.chains <==> x in b.chains {
      assert Knows(a, Fact(x, ChainKind)) <==> Knows(b, Fact(x, ChainKind));
    }
  }

  /** The two rounds never find more than the least fixed point. */
  lemma CollectedBelowLfp(root: Node, t: Target)
    ensures Below(Collected(root, t), Lfp(Bindings(root, t), t))
  {
    assert Bindings(root, t)[..0] == [];
    RoundsBelowLfp(Bindings(root, t), 2, 0, t);
  }

  /** On every file they have reached it exactly when no binding rule would add a name any more. */
  lemma CollectedIsFixpoint(root: Node, t: Target)
    ensures Collected(root, t) == Lfp(Bindings(root, t), t) <==> Closed(Collected(root, t), Bindings(root, t), t)
  {
    var bs, names := Bindings(root, t), Collected(root, t);
    LfpClosed(bs, t);
    CollectedBelowLfp(root, t);
    if Closed(names, bs, t) { LfpLeast(bs, names, t); }
  }

  /** Without a clash they reach it exactly for shallow files. */
  lemma CollectedIsLfp(root: Node, t: Target)
    requires NoClash(Bindings(root, t), t)
    ensures Collected(root, t) == Lfp(Bindings(root, t), t) <==> Shallow(Bindings(root, t), t)
  {
    var bs := Bindings(root, t);
    forall f
      ensures Knows(Collected(root, t), f) <==> ReachedWithin(bs, f, 1, t)
      ensures Knows(Lfp(bs, t), f) <==> Derivable(bs, f, t)
    {
      RoundsExact(bs, 2, f, t);
      LfpKnows(bs, f, t);
    }
    if Shallow(bs, t) { SameNames(Collected(root, t), Lfp(bs, t)); }
  }

  // ---------------------------------------------------------------- files the two rounds do not finish

  lemma RoundThree(names: Names, a: Binding, b: Binding, c: Binding, t: Target)
    ensures Round(names, [a, b, c], t) == Apply(Apply(Apply(names, a, t), b, t), c, t)
  {
    assert [a, b, c][..2] == [a, b] && [a, b][..1] == [a] && [a][..0] == [];
    assert Round(names, [a], t) == Apply(names, a, t);
    assert Round(names, [a, b], t) == Apply(Round(names, [a], t), b, t);
  }

  /** Three aliases, each bound after its use: the outermost is missed. */
  lemma ThreeReversedAliases()
    ensures var bs := [Bound("c", Ident("b")), Bound("b", Ident("a")), Bound("a", Ident("fieldWorkers"))];
            Derivable(bs, Fact("c", TableKind), FIELD_WORKERS) &&
            !Knows(Rounds(bs, 2, FIELD_WORKERS), Fact("c", TableKind))
  {
    var t := FIELD_WORKERS;
    var a, b, c := Bound("c", Ident("b")), Bound("b", Ident("a")), Bound("a", Ident("fieldWorkers"));
    ReversedDerivable([a, b, c]);
    RoundThree(NO_NAMES, a, b, c, t);
    RoundThree(Names({"a"}, {}), a, b, c, t);
    assert Rounds([a, b, c], 1, t) == Names({"a"}, {});
    assert Rounds([a, b, c], 2, t) == Names({"a", "b"}, {});
  }

  lemma ReversedDerivable(bs: seq<Binding>)
    requires bs == [Bound("c", Ident("b")), Bound("b", Ident("a")), Bound("a", Ident("fieldWorkers"))]
    ensures Derivable(bs, Fact("c", TableKind), FIELD_WORKERS)
  {
    DeriveOne(bs, 2, None, TableKind, FIELD_WORKERS);
    DeriveOne(bs, 1, Some(Fact("a", TableKind)), TableKind, FIELD_WORKERS);
    DeriveOne(bs, 0, Some(Fact("b", TableKind)), TableKind, FIELD_WORKERS);
  }

  /** A name bound to the table and to a chain: its alias is recorded as the table only. */
  lemma ClashHidesChain()
    ensures var bs := [Bound("x", Ident("fieldWorkers")),
                       Bound("x", Call(Prop(Ident("db"), "update"), [Ident("fieldWorkers")])), Bound("y", Ident("x"))];
            Derivable(bs, Fact("y", ChainKind), FIELD_WORKERS) &&
            !Knows(Rounds(bs, 2, FIELD_WORKERS), Fact("y", ChainKind))
  {
    var t := FIELD_WORKERS;
    var v := Call(Prop(Ident("db"), "update"), [Ident("fieldWorkers")]);
    var a, b, c := Bound("x", Ident("fieldWorkers")), Bound("x", v), Bound("y", Ident("x"));
    var bs := [a, b, c];
    assert ChainTargets(v, NO_NAMES, t);
    DeriveOne(bs, 1, None, ChainKind, t);
    DeriveOne(bs, 2, Some(Fact("x", ChainKind)), ChainKind, t);
    RoundThree(NO_NAMES, a, b, c, t);
    var once := Names({"x", "y"}, {"x"});
    assert Rounds(bs, 1, t) == once;
    RoundThree(once, a, b, c, t);
    assert Rounds(bs, 2, t) == once;
  }
}
