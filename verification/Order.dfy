/** The order of a file's findings. */
module Order {
  import opened Wrappers
  import opened Syntax
  import opened Payload
  import opened Aliases
  import opened Scanner

  /** The position `p` comes before `q` in the text: `q` lies inside it, or to its right. */
  predicate Earlier(p: Path, q: Path) {
    q != [] && (p == [] || p[0] < q[0] || (p[0] == q[0] && Earlier(p[1..], q[1..])))
  }

  lemma {:induction false} EarlierUnder(up: Path, p: Path, q: Path)
    ensures Earlier(up + p, up + q) <==> Earlier(p, q)
  {
    if up == [] {
      assert up + p == p && up + q == q;
    } else {
      assert (up + p)[1..] == up[1..] + p && (up + q)[1..] == up[1..] + q;
      EarlierUnder(up[1..], p, q);
    }
  }

  /** The findings lie at or below `up`, in the order of the text. */
  ghost predicate InOrder(fs: seq<Finding>, up: Path) {
    && (forall i | 0 <= i < |fs| :: up <= fs[i].path)
    && (forall i, j | 0 <= i < j < |fs| :: Earlier(fs[i].path, fs[j].path))
  }

  /** They lie at `up` itself or below its first `k` children. */
  ghost predicate Within(fs: seq<Finding>, up: Path, k: nat) {
    forall i | 0 <= i < |fs| :: up <= fs[i].path && (|up| < |fs[i].path| ==> fs[i].path[|up|] < k)
  }

  lemma {:induction false} VisitAppends(file: string, root: Node, path: Path, n: Node, names: Names, t: Target,
                                        before: seq<Finding>)
    ensures Visited(file, root, path, n, names, t, before) == before + Visited(file, root, path, n, names, t, [])
    decreases n, 1, 0
  {
    var own := OwnFindings(file, root, path, n, names, t);
    BelowAppends(file, root, path, n, |Children(n)|, names, t, before, own);
    assert [] + own == own;
  }

  lemma {:induction false} BelowAppends(file: string, root: Node, path: Path, n: Node, k: nat, names: Names, t: Target,
                                        before: seq<Finding>, own: seq<Finding>)
    requires k <= |Children(n)|
    ensures VisitedBelow(file, root, path, n, k, names, t, before + own) ==
            before + VisitedBelow(file, root, path, n, k, names, t, own)
    decreases n, 0, k
  {
    hide Visited;
    if k > 0 {
      var kid := Children(n)[k - 1];
      assert kid in Children(n);
      BelowAppends(file, root, path, n, k - 1, names, t, before, own);
      var sofar := VisitedBelow(file, root, path, n, k - 1, names, t, own);
      VisitAppends(file, root, path + [k - 1], kid, names, t, before + sofar);
      VisitAppends(file, root, path + [k - 1], kid, names, t, sofar);
      assert (before + sofar) + Visited(file, root, path + [k - 1], kid, names, t, []) ==
             before + (sofar + Visited(file, root, path + [k - 1], kid, names, t, []));
    }
  }

  lemma Joined(a: seq<Finding>, b: seq<Finding>, up: Path, k: nat)
    requires InOrder(a, up) && Within(a, up, k) && InOrder(b, up + [k])
    ensures InOrder(a + b, up) && Within(a + b, up, k + 1)
  {
    forall i | 0 <= i < |b| ensures up <= b[i].path && |up| < |b[i].path| && b[i].path[|up|] == k {
      assert up + [k] <= b[i].path;
    }
    forall i, j | 0 <= i < |a| && 0 <= j < |b| ensures Earlier(a[i].path, b[j].path) {
      var p, q := a[i].path[|up|..], b[j].path[|up|..];
      assert a[i].path == up + p && b[j].path == up + q;
      EarlierUnder(up, p, q);
    }
  }

  lemma {:induction false} VisitOrdered(file: string, root: Node, path: Path, n: Node, names: Names, t: Target)
    ensures InOrder(Visited(file, root, path, n, names, t, []), path)
    decreases n, 1, 0
  {
    var own := OwnFindings(file, root, path, n, names, t);
    assert [] + own == own;
    BelowOrdered(file, root, path, n, |Children(n)|, names, t, own);
  }

  lemma {:induction false} BelowOrdered(file: string, root: Node, path: Path, n: Node, k: nat, names: Names, t: Target,
                                        own: seq<Finding>)
    requires k <= |Children(n)| && own == OwnFindings(file, root, path, n, names, t)
    ensures InOrder(VisitedBelow(file, root, path, n, k, names, t, own), path)
    ensures Within(VisitedBelow(file, root, path, n, k, names, t, own), path, k)
    decreases n, 0, k
  {
    hide Visited, InOrder, Within;
    if k == 0 {
      OwnOrdered(file, root, path, n, names, t);
    } else {
      var kid := Children(n)[k - 1];
      assert kid in Children(n);
      BelowOrdered(file, root, path, n, k - 1, names, t, own);
      VisitOrdered(file, root, path + [k - 1], kid, names, t);
      var sofar := VisitedBelow(file, root, path, n, k - 1, names, t, own);
      VisitAppends(file, root, path + [k - 1], kid, names, t, sofar);
      Joined(sofar, Visited(file, root, path + [k - 1], kid, names, t, []), path, k - 1);
    }
  }

  lemma OwnOrdered(file: string, root: Node, path: Path, n: Node, names: Names, t: Target)
    ensures InOrder(OwnFindings(file, root, path, n, names, t), path)
    ensures Within(OwnFindings(file, root, path, n, names, t), path, 0)
  {
  }

  /** A file's findings stand in the order of the text, no position twice. */
  lemma ScanOrdered(file: string, root: Node, t: Target)
    ensures var fs := ScanResult(file, root, t);
            forall i, j | 0 <= i < j < |fs| :: Earlier(fs[i].path, fs[j].path) && fs[i].path != fs[j].path
  {
    VisitOrdered(file, root, [], root, Collected(root, t), t);
    var fs := ScanResult(file, root, t);
    forall i, j | 0 <= i < j < |fs| ensures fs[i].path != fs[j].path { NotEarlier(fs[i].path); }
  }

  lemma {:induction false} NotEarlier(p: Path)
    ensures !Earlier(p, p)
  {
    if p != [] { NotEarlier(p[1..]); }
  }
}
