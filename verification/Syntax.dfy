/** The part of a TypeScript syntax tree the state-write gates look at. */
module Syntax {
  import opened Wrappers

  datatype WrapKind = Paren | As | TypeAssertion | NonNull | Satisfies | Await

  /** The text of a numeric property name. */
  type NumberText = s: string | s != "" && '0' <= s[0] <= '9' witness "0"

  /** The two kinds of assignment that can pass an object on: `=`, and `||=`, `&&=`, `??=`. */
  datatype AssignOp = Plain | Logical

  datatype Name =
    | IdentName(text: string)
    | StringName(text: string)
    | NumericName(digits: NumberText)
    | ComputedName(expr: Node)

  datatype Node =
    // expressions
    | Ident(text: string)
    | Str(text: string)
    | Template(text: string)                 // a template literal without substitutions
    | Prop(base: Node, member: string)     // x.member
    | Elem(base: Node, index: Node)        // x[index]
    | Call(callee: Node, args: seq<Node>)
    | Wrap(kind: WrapKind, inner: Node)
    | ObjectLit(members: seq<Node>)
    | ArrayLit(elems: seq<Node>)
    | Spread(inner: Node)                    // ...x in an array or an argument list
    | Assign(op: AssignOp, left: Node, right: Node)
    | Pick(tests: seq<Node>, options: seq<Node>)   // c ? a : b, a || b, a ?? b, a && b, (a, b): one of the options
    | FunctionExpr(fn: Option<string>, body: seq<Node>)
    | Arrow(body: seq<Node>)
    // members of an object literal; methods and accessors also stand in classes
    | PropAssign(name: Name, init: Node)
    | Shorthand(text: string, fallback: Option<Node>)  // the initialiser stands in assignment patterns only
    | SpreadMember(inner: Node)
    | Accessor(name: Name, body: seq<Node>)
    | Method(name: Name, body: seq<Node>)
    // declarations
    | FunctionDecl(fn: Option<string>, body: seq<Node>)
    | ConstructorDecl(body: seq<Node>)
    | Signature(body: seq<Node>)             // any other function-like node
    | VarDecl(binder: Node, value: Option<Node>)
    | Param(binder: Node, default: Option<Node>)
    | ObjectPattern(elems: seq<Node>)
    | ArrayPattern(elems: seq<Node>)
    | BindingElem(key: Option<Name>, binder: Node, default: Option<Node>)
    | ImportSpec(imported: Option<string>, local: string)
    | Other(children: seq<Node>)             // every other node, a source file included

  function OptKid(n: Option<Node>): seq<Node> {
    match n case Some(x) => [x] case None => []
  }

  function NameKids(n: Name): seq<Node> {
    match n case ComputedName(e) => [e] case _ => []
  }

  function Children(n: Node): (kids: seq<Node>)
    ensures forall c | c in kids :: c < n
  {
    match n
    case Prop(o, _) => [o]
    case Elem(o, i) => [o, i]
    case Call(c, args) => [c] + args
    case Wrap(_, e) => [e]
    case ObjectLit(ms) => ms
    case ArrayLit(es) => es
    case Spread(e) => [e]
    case Assign(_, l, r) => [l, r]
    case Pick(tests, options) => tests + options
    case Shorthand(_, init) => OptKid(init)
    case FunctionExpr(_, b) => b
    case Arrow(b) => b
    case PropAssign(name, e) => NameKids(name) + [e]
    case SpreadMember(e) => [e]
    case Accessor(name, b) => NameKids(name) + b
    case Method(name, b) => NameKids(name) + b
    case FunctionDecl(_, b) => b
    case ConstructorDecl(b) => b
    case Signature(b) => b
    case VarDecl(b, v) => [b] + OptKid(v)
    case Param(b, d) => [b] + OptKid(d)
    case ObjectPattern(es) => es
    case ArrayPattern(es) => es
    case BindingElem(key, b, d) => (match key case Some(k) => NameKids(k) case None => []) + [b] + OptKid(d)
    case Other(cs) => cs
    case _ => []
  }

  // ---------------------------------------------------------------- the children are the whole node

  const HOLE := Other([])

  function Holes(k: nat): seq<Node> {
    seq(k, i => HOLE)
  }

  function BlankName(n: Name): Name {
    match n case ComputedName(_) => ComputedName(HOLE) case _ => n
  }

  function BlankOpt(n: Option<Node>): Option<Node> {
    match n case Some(_) => Some(HOLE) case None => None
  }

  /** The node with its sub-nodes taken out: its kind, its texts, and how many sub-nodes stand where. */
  function Blank(n: Node): Node {
    match n
    case Prop(_, m) => Prop(HOLE, m)
    case Elem(_, _) => Elem(HOLE, HOLE)
    case Call(_, args) => Call(HOLE, Holes(|args|))
    case Wrap(kind, _) => Wrap(kind, HOLE)
    case ObjectLit(ms) => ObjectLit(Holes(|ms|))
    case ArrayLit(es) => ArrayLit(Holes(|es|))
    case Spread(_) => Spread(HOLE)
    case Assign(op, _, _) => Assign(op, HOLE, HOLE)
    case Pick(tests, options) => Pick(Holes(|tests|), Holes(|options|))
    case Shorthand(x, init) => Shorthand(x, BlankOpt(init))
    case FunctionExpr(fn, b) => FunctionExpr(fn, Holes(|b|))
    case Arrow(b) => Arrow(Holes(|b|))
    case PropAssign(name, _) => PropAssign(BlankName(name), HOLE)
    case SpreadMember(_) => SpreadMember(HOLE)
    case Accessor(name, b) => Accessor(BlankName(name), Holes(|b|))
    case Method(name, b) => Method(BlankName(name), Holes(|b|))
    case FunctionDecl(fn, b) => FunctionDecl(fn, Holes(|b|))
    case ConstructorDecl(b) => ConstructorDecl(Holes(|b|))
    case Signature(b) => Signature(Holes(|b|))
    case VarDecl(_, v) => VarDecl(HOLE, BlankOpt(v))
    case Param(_, d) => Param(HOLE, BlankOpt(d))
    case ObjectPattern(es) => ObjectPattern(Holes(|es|))
    case ArrayPattern(es) => ArrayPattern(Holes(|es|))
    case BindingElem(key, _, d) =>
      BindingElem(match key case Some(k) => Some(BlankName(k)) case None => None, HOLE, BlankOpt(d))
    case Other(cs) => Other(Holes(|cs|))
    case _ => n
  }

  /** Takes the next sub-node, or leaves a hole. */
  function Next(kids: seq<Node>, i: nat): Node {
    if i < |kids| then kids[i] else HOLE
  }

  function From(kids: seq<Node>, i: nat): seq<Node> {
    if i <= |kids| then kids[i..] else []
  }

  function FillName(n: Name, kids: seq<Node>): Name {
    match n case ComputedName(_) => ComputedName(Next(kids, 0)) case _ => n
  }

  function FillOpt(n: Option<Node>, kids: seq<Node>, i: nat): Option<Node> {
    match n case Some(_) => Some(Next(kids, i)) case None => None
  }

  /** Puts sub-nodes back, first to last as the source text has them. */
  function Fill(n: Node, kids: seq<Node>): Node {
    match n
    case Prop(_, m) => Prop(Next(kids, 0), m)
    case Elem(_, _) => Elem(Next(kids, 0), Next(kids, 1))
    case Call(_, _) => Call(Next(kids, 0), From(kids, 1))
    case Wrap(kind, _) => Wrap(kind, Next(kids, 0))
    case ObjectLit(_) => ObjectLit(kids)
    case ArrayLit(_) => ArrayLit(kids)
    case Spread(_) => Spread(Next(kids, 0))
    case Assign(op, _, _) => Assign(op, Next(kids, 0), Next(kids, 1))
    case Pick(tests, _) => Pick(if |tests| <= |kids| then kids[..|tests|] else [], From(kids, |tests|))
    case Shorthand(x, init) => Shorthand(x, FillOpt(init, kids, 0))
    case FunctionExpr(fn, _) => FunctionExpr(fn, kids)
    case Arrow(_) => Arrow(kids)
    case PropAssign(name, _) => PropAssign(FillName(name, kids), Next(kids, |NameKids(name)|))
    case SpreadMember(_) => SpreadMember(Next(kids, 0))
    case Accessor(name, _) => Accessor(FillName(name, kids), From(kids, |NameKids(name)|))
    case Method(name, _) => Method(FillName(name, kids), From(kids, |NameKids(name)|))
    case FunctionDecl(fn, _) => FunctionDecl(fn, kids)
    case ConstructorDecl(_) => ConstructorDecl(kids)
    case Signature(_) => Signature(kids)
    case VarDecl(_, v) => VarDecl(Next(kids, 0), FillOpt(v, kids, 1))
    case Param(_, d) => Param(Next(kids, 0), FillOpt(d, kids, 1))
    case ObjectPattern(_) => ObjectPattern(kids)
    case ArrayPattern(_) => ArrayPattern(kids)
    case BindingElem(key, _, d) =>
      var k := match key case Some(k) => |NameKids(k)| case None => 0;
      BindingElem(match key case Some(k) => Some(FillName(k, kids)) case None => None, Next(kids, k),
                  FillOpt(d, kids, k + 1))
    case Other(_) => Other(kids)
    case _ => n
  }

  lemma ListsMakeNode(n: Node)
    requires || n.ObjectLit? || n.ArrayLit? || n.FunctionExpr? || n.Arrow? || n.FunctionDecl? || n.ConstructorDecl?
             || n.Signature? || n.ObjectPattern? || n.ArrayPattern? || n.Other?
    ensures Fill(Blank(n), Children(n)) == n
  {
  }

  lemma NamedMakeNode(n: Node)
    requires n.PropAssign? || n.Accessor? || n.Method? || n.BindingElem?
    ensures Fill(Blank(n), Children(n)) == n
  {
    match n
    case PropAssign(name, e) => assert Fill(Blank(n), Children(n)) == n;
    case Accessor(name, b) => assert (NameKids(name) + b)[|NameKids(name)|..] == b;
    case Method(name, b) => assert (NameKids(name) + b)[|NameKids(name)|..] == b;
    case BindingElem(key, b, d) =>
      assert Children(n) == (match key case Some(k) => NameKids(k) case None => []) + [b] + OptKid(d);
  }

  lemma OthersMakeNode(n: Node)
    requires || n.Prop? || n.Elem? || n.Call? || n.Wrap? || n.Spread? || n.Assign? || n.Pick? || n.Shorthand?
             || n.SpreadMember? || n.VarDecl? || n.Param?
    ensures Fill(Blank(n), Children(n)) == n
  {
    match n
    case Call(c, args) => assert ([c] + args)[1..] == args;
    case Pick(tests, options) =>
      assert (tests + options)[..|tests|] == tests && (tests + options)[|tests|..] == options;
    case _ =>
  }

  /** A visit of the children leaves out no part of a node and meets its parts in the order of the text: put
      back in that order, they make the node. */
  lemma ChildrenMakeNode(n: Node)
    ensures Fill(Blank(n), Children(n)) == n
  {
    if n.ObjectLit? || n.ArrayLit? || n.FunctionExpr? || n.Arrow? || n.FunctionDecl? || n.ConstructorDecl? ||
       n.Signature? || n.ObjectPattern? || n.ArrayPattern? || n.Other? {
      ListsMakeNode(n);
    } else if n.PropAssign? || n.Accessor? || n.Method? || n.BindingElem? {
      NamedMakeNode(n);
    } else if !(n.Ident? || n.Str? || n.Template? || n.ImportSpec?) {
      OthersMakeNode(n);
    }
  }

  // ---------------------------------------------------------------- positions in a tree

  /** A node's position: the child taken at each level, from the root. */
  type Path = seq<int>

  predicate At(root: Node, path: Path)
    decreases |path|
  {
    path == [] || (0 <= path[0] < |Children(root)| && At(Children(root)[path[0]], path[1..]))
  }

  function NodeAt(root: Node, path: Path): Node
    requires At(root, path)
    decreases |path|
  {
    if path == [] then root else NodeAt(Children(root)[path[0]], path[1..])
  }

  lemma {:induction false} AtParent(root: Node, path: Path)
    requires At(root, path) && path != []
    ensures At(root, path[..|path| - 1])
    ensures var parent := NodeAt(root, path[..|path| - 1]);
            0 <= path[|path| - 1] < |Children(parent)| && NodeAt(root, path) == Children(parent)[path[|path| - 1]]
    decreases |path|
  {
    var up := path[..|path| - 1];
    if |path| > 1 {
      AtParent(Children(root)[path[0]], path[1..]);
      assert up[1..] == path[1..][..|path| - 2];
    }
  }

  lemma {:induction false} AtChild(root: Node, path: Path, i: nat)
    requires At(root, path) && i < |Children(NodeAt(root, path))|
    ensures At(root, path + [i]) && NodeAt(root, path + [i]) == Children(NodeAt(root, path))[i]
    decreases |path|
  {
    if path == [] {
      assert (path + [i])[1..] == [];
    } else {
      AtChild(Children(root)[path[0]], path[1..], i);
      assert (path + [i])[1..] == path[1..] + [i];
    }
  }

  // ---------------------------------------------------------------- the enclosing function

  const ANONYMOUS := "<anonymous>"

  function FixedName(n: Name): Option<string> {
    match n
    case IdentName(s) => Some(s)
    case StringName(s) => Some(s)
    case _ => None
  }

  function OrAnonymous(fn: Option<string>): Option<string> {
    match fn case Some(_) => fn case None => Some(ANONYMOUS)
  }

  /** The name a function-like node goes by, given its parent; `None` for any other node. */
  function FunctionLabel(n: Node, parent: Option<Node>): Option<string> {
    match n
    case FunctionDecl(fn, _) => OrAnonymous(fn)
    case Method(name, _) => OrAnonymous(FixedName(name))
    case Accessor(name, _) => OrAnonymous(FixedName(name))
    case ConstructorDecl(_) => Some("constructor")
    case FunctionExpr(Some(fn), _) => Some(fn)
    case FunctionExpr(None, _) => BoundLabel(parent)
    case Arrow(_) => BoundLabel(parent)
    case Signature(_) => Some(ANONYMOUS)
    case _ => None
  }

  function BoundLabel(parent: Option<Node>): Option<string> {
    match parent
    case Some(VarDecl(Ident(x), _)) => Some(x)
    case Some(PropAssign(name, _)) => OrAnonymous(FixedName(name))
    case _ => Some(ANONYMOUS)
  }

  lemma {:induction false} AtPrefix(root: Node, path: Path, k: nat)
    requires At(root, path) && k <= |path|
    ensures At(root, path[..k])
    decreases |path|
  {
    if k < |path| {
      AtParent(root, path);
      AtPrefix(root, path[..|path| - 1], k);
      assert path[..|path| - 1][..k] == path[..k];
    } else {
      assert path[..k] == path;
    }
  }

  /** What the ancestor at depth `k` of the node at `path` calls itself. */
  function LabelUp(root: Node, path: Path, k: nat): Option<string>
    requires At(root, path) && k <= |path|
  {
    AtPrefix(root, path, k);
    FunctionLabel(NodeAt(root, path[..k]),
                  if k == 0 then None else AtPrefix(root, path, k - 1); Some(NodeAt(root, path[..k - 1])))
  }

  /** `fn` names the innermost function-like proper ancestor of the node at `path`. */
  ghost predicate InnermostLabel(root: Node, path: Path, fn: Option<string>)
    requires At(root, path)
  {
    match fn
    case None => forall k | 0 <= k < |path| :: LabelUp(root, path, k) == None
    case Some(_) => exists k :: 0 <= k < |path| && LabelUp(root, path, k) == fn &&
                                forall j | k < j < |path| :: LabelUp(root, path, j) == None
  }

  /** `enclosingFunctionName`: climb from the parent until a function-like node names itself. */
  method EnclosingFunctionName(root: Node, path: Path) returns (fn: Option<string>)
    requires At(root, path)
    ensures InnermostLabel(root, path, fn)
    ensures fn == Enclosing(root, path, |path|)
  {
    var cur: nat := |path|;
    while cur > 0
      invariant cur <= |path|
      invariant forall j | cur <= j < |path| :: LabelUp(root, path, j) == None
      invariant Enclosing(root, path, |path|) == Enclosing(root, path, cur)
    {
      cur := cur - 1;
      fn := LabelUp(root, path, cur);
      if fn.Some? { return; }
    }
    fn := None;
  }

  /** The label found when climbing from depth `k`. */
  function Enclosing(root: Node, path: Path, k: nat): Option<string>
    requires At(root, path) && k <= |path|
  {
    if k == 0 then None
    else
      match LabelUp(root, path, k - 1) case Some(l) => Some(l) case None => Enclosing(root, path, k - 1)
  }

  /** Climbing finds the innermost function-like ancestor, and only that. */
  lemma {:induction false} EnclosingIsInnermost(root: Node, path: Path, fn: Option<string>, k: nat)
    requires At(root, path) && k <= |path|
    requires forall j | k <= j < |path| :: LabelUp(root, path, j) == None
    ensures InnermostLabel(root, path, fn) <==> fn == Enclosing(root, path, k)
  {
    if k > 0 && LabelUp(root, path, k - 1).None? {
      EnclosingIsInnermost(root, path, fn, k - 1);
    }
  }

  // ---------------------------------------------------------------- what the innermost function is called

  predicate FunctionLike(n: Node) {
    || n.FunctionDecl? || n.Method? || n.Accessor? || n.ConstructorDecl? || n.FunctionExpr? || n.Arrow?
    || n.Signature?
  }

  function Ancestor(root: Node, path: Path, k: nat): Node
    requires At(root, path) && k <= |path|
  {
    AtPrefix(root, path, k);
    NodeAt(root, path[..k])
  }

  /** The innermost function-like node around the one at `path` stands at depth `k`. */
  ghost predicate InnermostFunction(root: Node, path: Path, k: nat)
    requires At(root, path)
  {
    k < |path| && FunctionLike(Ancestor(root, path, k)) &&
    forall j | k < j < |path| :: !FunctionLike(Ancestor(root, path, j))
  }

  /** The key of a member is written as this name or as this string. */
  predicate Keyed(name: Name, x: string) {
    name == IdentName(x) || name == StringName(x)
  }

  predicate Unkeyed(name: Name) {
    name.NumericName? || name.ComputedName?
  }

  /** The function-like node `f`, standing directly in `parent`, goes by `x`. */
  predicate GoesBy(f: Node, parent: Option<Node>, x: string) {
    if f.FunctionDecl? then f.fn == Some(x) || (f.fn == None && x == "<anonymous>")
    else if f.Method? || f.Accessor? then Keyed(f.name, x) || (Unkeyed(f.name) && x == "<anonymous>")
    else if f.ConstructorDecl? then x == "constructor"
    else if f.FunctionExpr? && f.fn.Some? then f.fn == Some(x)
    else if f.FunctionExpr? || f.Arrow? then
      || (parent.Some? && parent.value.VarDecl? && parent.value.binder == Ident(x))
      || (parent.Some? && parent.value.PropAssign? && Keyed(parent.value.name, x))
      || (x == "<anonymous>" && (parent.Some? ==>
            && (parent.value.VarDecl? ==> !parent.value.binder.Ident?)
            && (parent.value.PropAssign? ==> Unkeyed(parent.value.name))))
    else f.Signature? && x == "<anonymous>"
  }

  lemma LabelBears(f: Node, parent: Option<Node>)
    ensures FunctionLabel(f, parent).Some? <==> FunctionLike(f)
    ensures forall x :: FunctionLabel(f, parent) == Some(x) <==> FunctionLike(f) && GoesBy(f, parent, x)
  {
  }

  function ParentOf(root: Node, path: Path, k: nat): Option<Node>
    requires At(root, path) && k <= |path|
  {
    if k == 0 then None else Some(Ancestor(root, path, k - 1))
  }

  /** The answer of the climb, read off the tree: nothing when no function-like node is around, else what
      the innermost one goes by. */
  lemma EnclosingName(root: Node, path: Path, fn: Option<string>)
    requires At(root, path)
    ensures InnermostLabel(root, path, fn) <==>
            match fn
            case None => forall k | 0 <= k < |path| :: !FunctionLike(Ancestor(root, path, k))
            case Some(x) => exists k :: InnermostFunction(root, path, k) &&
                                        GoesBy(Ancestor(root, path, k), ParentOf(root, path, k), x)
  {
    forall k: nat | k < |path| { LabelUpBears(root, path, k); }
    hide LabelUp, Ancestor, GoesBy, FunctionLike;
    if fn.Some? && InnermostLabel(root, path, fn) {
      var k :| 0 <= k < |path| && LabelUp(root, path, k) == fn &&
               forall j | k < j < |path| :: LabelUp(root, path, j) == None;
      assert InnermostFunction(root, path, k);
    }
  }

  lemma LabelUpBears(root: Node, path: Path, k: nat)
    requires At(root, path) && k < |path|
    ensures LabelUp(root, path, k).Some? <==> FunctionLike(Ancestor(root, path, k))
    ensures forall x :: LabelUp(root, path, k) == Some(x) <==>
              FunctionLike(Ancestor(root, path, k)) && GoesBy(Ancestor(root, path, k), ParentOf(root, path, k), x)
  {
    LabelBears(Ancestor(root, path, k), ParentOf(root, path, k));
  }
}
