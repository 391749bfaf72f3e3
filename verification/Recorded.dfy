/** The names the scanner collects, read off the nodes of the tree: which nodes record a name, and that no
    other node does. */
module Recorded {
  import opened Wrappers
  import opened Syntax
  import opened Payload
  import opened Aliases
  import opened Chains
  import opened Alarms
  import opened Forms

  // ---------------------------------------------------------------- nodes that record a name

  /** `import { fieldWorkers as x }`, `import { fieldWorkers }`, `{ fieldWorkers: x }` or `{ fieldWorkers }`. */
  predicate NamesTable(n: Node, x: string, t: Target) {
    || (n.ImportSpec? && n.local == x && (n.imported == Some(t.table) || (n.imported == None && x == t.table)))
    || (n.BindingElem? && n.binder == Ident(x) &&
        (n.key == Some(IdentName(t.table)) || n.key == Some(StringName(t.table)) || (n.key == None && x == t.table)))
  }

  /** A declaration of `x` with the value `v`, or a plain assignment of `v` to it. */
  predicate Binds(n: Node, x: string, v: Node) {
    n == VarDecl(Ident(x), Some(v)) || n == Assign(Plain, Ident(x), v)
  }

  lemma OwnForms(n: Node, x: string, t: Target)
    ensures TableName(x) in OwnBindings(n, t) <==> NamesTable(n, x, t)
    ensures forall v :: Bound(x, v) in OwnBindings(n, t) <==> Binds(n, x, v)
  {
  }

  // ---------------------------------------------------------------- every node is met

  lemma {:induction false} KeptFrom(before: seq<Binding>, n: Node, i: nat, k: nat, t: Target, b: Binding)
    requires i <= k <= |Children(n)| && b in CollectBelow(before, n, i, t)
    ensures b in CollectBelow(before, n, k, t)
    decreases k
  {
    if i < k {
      assert Children(n)[k - 1] in Children(n);
      KeptFrom(before, n, i, k - 1, t, b);
      KeptIn(CollectBelow(before, n, k - 1, t), Children(n)[k - 1], t, b);
    }
  }

  lemma {:induction false} NodeIsMet(before: seq<Binding>, n: Node, path: Path, t: Target, b: Binding)
    requires At(n, path) && b in OwnBindings(NodeAt(n, path), t)
    ensures b in Collect(before, n, t)
    decreases |path|
  {
    var own := before + OwnBindings(n, t);
    if path == [] {
      KeptBelow(own, n, |Children(n)|, t, b);
    } else {
      var i := path[0];
      assert Children(n)[i] in Children(n);
      NodeIsMet(CollectBelow(own, n, i, t), Children(n)[i], path[1..], t, b);
      KeptFrom(own, n, i + 1, |Children(n)|, t, b);
    }
  }

  lemma {:induction false} BindingHasNode(n: Node, t: Target, b: Binding) returns (path: Path)
    requires b in Collect([], n, t)
    ensures At(n, path) && b in OwnBindings(NodeAt(n, path), t)
    decreases n
  {
    if b in OwnBindings(n, t) {
      path := [];
    } else {
      var i := BoundBelow(n, t, b);
      assert Children(n)[i] in Children(n);
      var rest := BindingHasNode(Children(n)[i], t, b);
      path := [i] + rest;
      assert path[1..] == rest;
    }
  }

  // ---------------------------------------------------------------- what a round records

  lemma TableMonotone(e: Node, a: Names, b: Names, t: Target)
    requires Below(a, b) && IsTableRef(e, a, t)
    ensures IsTableRef(e, b, t)
  {
  }

  /** A binding is recorded in the round that knows what its value needs. */
  lemma RoundRecords(bs: seq<Binding>, r: nat, i: nat, x: string, known: Names, t: Target)
    requires i < |bs| && bs[i].name == x && Below(known, Rounds(bs, r, t))
    ensures bs[i].TableName? || IsTableRef(bs[i].value, known, t) ==> x in Rounds(bs, r + 1, t).tables
    ensures bs[i].Bound? && ChainTargets(Unwrap(bs[i].value), known, t) ==>
              x in Rounds(bs, r + 1, t).tables || x in Rounds(bs, r + 1, t).chains
  {
    var start := Rounds(bs, r, t);
    var before := Round(start, bs[..i], t);
    assert bs[..0] == [] && bs[..i + 1][..i] == bs[..i] && bs[..|bs|] == bs;
    RoundGrows(start, bs, 0, i, t);
    RoundGrows(start, bs, i + 1, |bs|, t);
    if bs[i].Bound? {
      if IsTableRef(bs[i].value, known, t) { TableMonotone(bs[i].value, known, before, t); }
      if ChainTargets(Unwrap(bs[i].value), known, t) { ChainMonotone(Unwrap(bs[i].value), known, before, t); }
    }
  }

  lemma LaterRounds(bs: seq<Binding>, r: nat, t: Target)
    ensures Below(Rounds(bs, r, t), Rounds(bs, r + 1, t))
  {
    assert bs[..0] == [] && bs[..|bs|] == bs;
    RoundGrows(Rounds(bs, r, t), bs, 0, |bs|, t);
  }

  // ---------------------------------------------------------------- recorded names

  /** Some node gives `x` the table in so many words. */
  ghost predicate PlainTable(root: Node, x: string, t: Target) {
    exists path :: At(root, path) &&
      (NamesTable(NodeAt(root, path), x, t) ||
       exists v :: Binds(NodeAt(root, path), x, v) && TableForm(v, NO_NAMES, t))
  }

  lemma PlainInFirst(root: Node, x: string, t: Target)
    requires PlainTable(root, x, t)
    ensures x in Rounds(Bindings(root, t), 1, t).tables
  {
    var path :| At(root, path) &&
      (NamesTable(NodeAt(root, path), x, t) ||
       exists v :: Binds(NodeAt(root, path), x, v) && TableForm(v, NO_NAMES, t));
    var n, bs := NodeAt(root, path), Bindings(root, t);
    OwnForms(n, x, t);
    var b := TableName(x);
    if !NamesTable(n, x, t) {
      var v :| Binds(n, x, v) && TableForm(v, NO_NAMES, t);
      TableExact(v, NO_NAMES, t);
      b := Bound(x, v);
    }
    NodeIsMet([], root, path, t, b);
    var i :| 0 <= i < |bs| && bs[i] == b;
    RoundRecords(bs, 0, i, x, NO_NAMES, t);
  }

  /** A name that some node gives the table in so many words is collected. */
  lemma PlainIsCollected(root: Node, x: string, t: Target)
    requires PlainTable(root, x, t)
    ensures x in Collected(root, t).tables
  {
    PlainInFirst(root, x, t);
    LaterRounds(Bindings(root, t), 1, t);
  }

  /** So is a name bound, anywhere and in any order, to an alias of such a name, as the table, and a name
      bound to a chain that starts from the table under any of these names, as a chain or as the table. */
  lemma AliasIsCollected(root: Node, path: Path, x: string, v: Node, ys: set<string>, t: Target)
    requires At(root, path) && Binds(NodeAt(root, path), x, v) && forall y | y in ys :: PlainTable(root, y, t)
    ensures TableForm(v, Names(ys, {}), t) ==> x in Collected(root, t).tables
    ensures (exists u :: Wraps(v, u) && ChainForm(u, Names(ys, {}), t)) ==>
              x in Collected(root, t).tables || x in Collected(root, t).chains
  {
    hide TableForm, ChainForm, IsTableRef, ChainTargets, Wraps;
    var bs, known := Bindings(root, t), Names(ys, {});
    forall y | y in ys { PlainInFirst(root, y, t); }
    OwnForms(NodeAt(root, path), x, t);
    NodeIsMet([], root, path, t, Bound(x, v));
    var i :| 0 <= i < |bs| && bs[i] == Bound(x, v);
    RoundRecords(bs, 1, i, x, known, t);
    TableExact(v, known, t);
    if u :| Wraps(v, u) && ChainForm(u, known, t) {
      WrapsUnwrap(v, u);
      ChainExact(u, known, t);
      UnwrapChains(u, known, t);
    }
  }

  lemma {:induction false} UnwrapChains(u: Node, names: Names, t: Target)
    requires ChainTargets(u, names, t)
    ensures ChainTargets(Unwrap(u), names, t)
  {
    if u.Wrap? && TypeOnly(u.kind) { UnwrapChains(u.inner, names, t); }
  }

  // ---------------------------------------------------------------- nothing else is recorded

  /** What made a round record a name. */
  ghost predicate RecordedBy(b: Binding, x: string, kind: Kind, names: Names, t: Target) {
    b.name == x &&
    match kind
    case TableKind => b.TableName? || IsTableRef(b.value, names, t)
    case ChainKind => b.Bound? && ChainTargets(Unwrap(b.value), names, t)
  }

  lemma {:induction false} RoundFrom(names: Names, bs: seq<Binding>, f: Fact, t: Target)
    requires Knows(Round(names, bs, t), f)
    ensures Knows(names, f) || exists b :: b in bs && RecordedBy(b, f.name, f.kind, Round(names, bs, t), t)
  {
    if bs != [] {
      var front, last := bs[..|bs| - 1], bs[|bs| - 1];
      assert bs == front + [last] && bs[..|bs|] == bs;
      var before, after := Round(names, front, t), Round(names, bs, t);
      RoundGrows(names, bs, |bs| - 1, |bs|, t);
      assert Below(before, after);
      if Knows(before, f) {
        RoundFrom(names, front, f, t);
        if !Knows(names, f) {
          var b :| b in front && RecordedBy(b, f.name, f.kind, before, t);
          RecordedLater(b, f, before, after, t);
          assert b in bs;
        }
      } else {
        assert after == Apply(before, last, t) && last in bs;
        assert RecordedBy(last, f.name, f.kind, before, t);
        RecordedLater(last, f, before, after, t);
      }
    }
  }

  lemma RecordedLater(b: Binding, f: Fact, before: Names, after: Names, t: Target)
    requires Below(before, after) && RecordedBy(b, f.name, f.kind, before, t)
    ensures RecordedBy(b, f.name, f.kind, after, t)
  {
    if b.Bound? {
      if f.kind == ChainKind { ChainMonotone(Unwrap(b.value), before, after, t); }
      else { TableMonotone(b.value, before, after, t); }
    }
  }

  /** Every name the scanner takes for the table is given it by a node of the file, and every name it takes
      for a chain is bound to one, as far as the collected names tell. */
  lemma CollectedFrom(root: Node, x: string, t: Target)
    ensures x in Collected(root, t).tables ==>
              exists path :: At(root, path) &&
                (NamesTable(NodeAt(root, path), x, t) ||
                 exists v :: Binds(NodeAt(root, path), x, v) && TableForm(v, Collected(root, t), t))
    ensures x in Collected(root, t).chains ==>
              exists path, v :: At(root, path) && Binds(NodeAt(root, path), x, v) &&
                exists u :: Wraps(v, u) && ChainForm(u, Collected(root, t), t)
  {
    if x in Collected(root, t).tables { TableFrom(root, x, t); }
    if x in Collected(root, t).chains { ChainFrom(root, x, t); }
  }

  lemma CollectedBy(root: Node, f: Fact, t: Target) returns (b: Binding)
    requires Knows(Collected(root, t), f)
    ensures b in Bindings(root, t) && RecordedBy(b, f.name, f.kind, Collected(root, t), t)
  {
    hide Round;
    var bs := Bindings(root, t);
    var first := Rounds(bs, 1, t);
    assert Rounds(bs, 0, t) == NO_NAMES && first == Round(Rounds(bs, 0, t), bs, t);
    RoundFrom(first, bs, f, t);
    if Knows(first, f) {
      RoundFrom(NO_NAMES, bs, f, t);
      b :| b in bs && RecordedBy(b, f.name, f.kind, first, t);
      LaterRounds(bs, 1, t);
      RecordedLater(b, f, first, Collected(root, t), t);
    } else {
      b :| b in bs && RecordedBy(b, f.name, f.kind, Collected(root, t), t);
    }
  }

  lemma TableFrom(root: Node, x: string, t: Target)
    requires x in Collected(root, t).tables
    ensures exists path :: At(root, path) &&
              (NamesTable(NodeAt(root, path), x, t) ||
               exists v :: Binds(NodeAt(root, path), x, v) && TableForm(v, Collected(root, t), t))
  {
    hide Collected, TableForm, IsTableRef;
    var b := CollectedBy(root, Fact(x, TableKind), t);
    var path := BindingHasNode(root, t, b);
    OwnForms(NodeAt(root, path), x, t);
    if b.Bound? { TableExact(b.value, Collected(root, t), t); }
  }

  lemma ChainFrom(root: Node, x: string, t: Target)
    requires x in Collected(root, t).chains
    ensures exists path, v :: At(root, path) && Binds(NodeAt(root, path), x, v) &&
              exists u :: Wraps(v, u) && ChainForm(u, Collected(root, t), t)
  {
    hide Collected, ChainForm, ChainTargets, Wraps;
    var b := CollectedBy(root, Fact(x, ChainKind), t);
    var path := BindingHasNode(root, t, b);
    OwnForms(NodeAt(root, path), x, t);
    UnwrapWraps(b.value);
    ChainExact(Unwrap(b.value), Collected(root, t), t);
  }
}
