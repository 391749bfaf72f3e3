/** The glob resolver: a walk pruned to the static prefix of each glob. */
module GlobWalk {
  import opened Wrappers
  import Text
  import GlobRegex

  /** What a directory listing tells apart: files, directories, and the rest (links, sockets). */
  datatype Entry = File | Dir(entries: seq<(string, Entry)>) | Special

  datatype Error = NotADirectory(segments: seq<string>)

  /** Names as the file system keeps them, each once in its directory. */
  predicate ValidName(n: string) {
    n != "" && '/' !in n && n != "." && n != ".."
  }

  ghost predicate WellFormed(dir: seq<(string, Entry)>)
    decreases Dir(dir)
  {
    && (forall i | 0 <= i < |dir| :: ValidName(dir[i].0) && (dir[i].1.Dir? ==> WellFormed(dir[i].1.entries)))
    && (forall i, j | 0 <= i < j < |dir| :: dir[i].0 != dir[j].0)
  }

  /** Names the walk does not enter or test. */
  predicate Skipped(n: string) {
    n == "node_modules" || (n != "" && n[0] == '.')
  }

  predicate Visible(segs: seq<string>) {
    forall n | n in segs :: !Skipped(n)
  }

  /** The names lead from the directory down to a file. */
  predicate FileAt(dir: seq<(string, Entry)>, segs: seq<string>)
    decreases |segs|, 1
  {
    exists i | 0 <= i < |dir| :: Holds(dir[i], segs)
  }

  predicate Holds(e: (string, Entry), segs: seq<string>)
    decreases |segs|, 0
  {
    && segs != [] && segs[0] == e.0
    && if |segs| == 1 then e.1.File? else e.1.Dir? && FileAt(e.1.entries, segs[1..])
  }

  function Path(segs: seq<string>): string {
    Text.Join(segs, '/')
  }

  // ---------------------------------------------------------------- the walk

  /** `p` is the path of a tested file below the directory, no name on the way from it being skipped. */
  ghost predicate Reached(glob: string, at: seq<string>, dir: seq<(string, Entry)>, p: string) {
    exists segs :: FileAt(dir, segs) && Visible(segs) && p == Path(at + segs) && GlobRegex.Tests(glob, p)
  }

  ghost predicate ReachedIn(glob: string, at: seq<string>, e: (string, Entry), p: string) {
    exists segs :: Holds(e, segs) && Visible(segs) && p == Path(at + segs) && GlobRegex.Tests(glob, p)
  }

  lemma ReachedSnoc(glob: string, at: seq<string>, dir: seq<(string, Entry)>, e: (string, Entry), p: string)
    ensures Reached(glob, at, dir + [e], p) <==> Reached(glob, at, dir, p) || ReachedIn(glob, at, e, p)
  {
    var all := dir + [e];
    forall segs ensures FileAt(all, segs) <==> FileAt(dir, segs) || Holds(e, segs) {
      if FileAt(dir, segs) {
        var i :| 0 <= i < |dir| && Holds(dir[i], segs);
        assert all[i] == dir[i];
      }
      if Holds(e, segs) { assert all[|dir|] == e; }
    }
  }

  lemma SkippedNeverReached(glob: string, at: seq<string>, e: (string, Entry), p: string)
    requires Skipped(e.0)
    ensures !ReachedIn(glob, at, e, p)
  {
    forall segs | Holds(e, segs) ensures !Visible(segs) { assert segs[0] in segs; }
  }

  lemma ReachedFile(glob: string, at: seq<string>, e: (string, Entry), p: string)
    requires !Skipped(e.0) && !e.1.Dir?
    ensures ReachedIn(glob, at, e, p) <==> e.1.File? && p == Path(at + [e.0]) && GlobRegex.Tests(glob, p)
  {
    forall segs | Holds(e, segs) ensures segs == [e.0] {}
    if e.1.File? { assert Holds(e, [e.0]) && Visible([e.0]); }
  }

  lemma HoldsBelow(e: (string, Entry), rest: seq<string>)
    requires e.1.Dir?
    ensures Holds(e, [e.0] + rest) <==> FileAt(e.1.entries, rest)
  {
    var segs := [e.0] + rest;
    assert segs[1..] == rest;
    if FileAt(e.1.entries, rest) {
      var i :| 0 <= i < |e.1.entries| && Holds(e.1.entries[i], rest);
      assert rest != [];
    }
  }

  lemma VisibleBelow(n: string, rest: seq<string>)
    requires !Skipped(n)
    ensures Visible([n] + rest) <==> Visible(rest)
  {
    assert forall x :: x in [n] + rest <==> x == n || x in rest;
  }

  lemma ReachedDir(glob: string, at: seq<string>, e: (string, Entry), p: string)
    requires !Skipped(e.0) && e.1.Dir?
    ensures ReachedIn(glob, at, e, p) <==> Reached(glob, at + [e.0], e.1.entries, p)
  {
    forall rest
      ensures Holds(e, [e.0] + rest) <==> FileAt(e.1.entries, rest)
      ensures Visible([e.0] + rest) <==> Visible(rest)
      ensures at + ([e.0] + rest) == at + [e.0] + rest
    {
      HoldsBelow(e, rest);
      VisibleBelow(e.0, rest);
    }
    if ReachedIn(glob, at, e, p) {
      var segs :| Holds(e, segs) && Visible(segs) && p == Path(at + segs) && GlobRegex.Tests(glob, p);
      assert segs == [e.0] + segs[1..];
    }
    hide Holds, FileAt, Visible;
    if Reached(glob, at + [e.0], e.1.entries, p) {
      var rest :|
        FileAt(e.1.entries, rest) && Visible(rest) && p == Path(at + [e.0] + rest) && GlobRegex.Tests(glob, p);
      assert Holds(e, [e.0] + rest) && p == Path(at + ([e.0] + rest));
    }
  }

  /** Adds the tested files below the directory to the set found so far. */
  method Walk(glob: string, at: seq<string>, dir: seq<(string, Entry)>, found: set<string>) returns (out: set<string>)
    ensures forall p :: p in out <==> p in found || Reached(glob, at, dir, p)
    decreases Dir(dir)
  {
    out := found;
    for i := 0 to |dir|
      invariant forall p :: p in out <==> p in found || Reached(glob, at, dir[..i], p)
    {
      var e := dir[i];
      ghost var before := out;
      if !Skipped(e.0) {
        if e.1.Dir? {
          out := Walk(glob, at + [e.0], e.1.entries, out);
        } else if e.1.File? {
          var rel := Path(at + [e.0]);
          if GlobRegex.Tests(glob, rel) { out := out + {rel}; }
        }
      }
      forall p ensures p in out <==> p in before || ReachedIn(glob, at, e, p) {
        if Skipped(e.0) {
          SkippedNeverReached(glob, at, e, p);
        } else if e.1.Dir? {
          ReachedDir(glob, at, e, p);
        } else {
          ReachedFile(glob, at, e, p);
        }
      }
      assert dir[..i + 1] == dir[..i] + [e];
      forall p ensures p in out <==> p in found || Reached(glob, at, dir[..i + 1], p) {
        ReachedSnoc(glob, at, dir[..i], e, p);
      }
    }
    assert dir[..|dir|] == dir;
  }

  // ---------------------------------------------------------------- where the walk starts

  /** The part before the first wildcard. */
  function StaticPrefix(glob: string): (r: string)
    ensures r <= glob
  {
    if glob == "" || glob[0] == '*' || glob[0] == '?' then "" else [glob[0]] + StaticPrefix(glob[1..])
  }

  /** `slice(0, lastIndexOf('/'))`, when there is a slash. */
  function BeforeLastSlash(s: string): (r: string)
    requires '/' in s
    ensures r + "/" <= s && '/' !in s[|r| + 1..]
  {
    if s[|s| - 1] == '/' then s[..|s| - 1] else BeforeLastSlash(s[..|s| - 1])
  }

  function BaseDir(glob: string): string {
    var prefix := StaticPrefix(glob);
    if '/' in prefix then BeforeLastSlash(prefix) else ""
  }

  /** Path normalisation; nothing when the path climbs above the root. */
  function Normalize(segs: seq<string>, done: seq<string>): Option<seq<string>> {
    if segs == [] then Some(done)
    else if segs[0] == "" || segs[0] == "." then Normalize(segs[1..], done)
    else if segs[0] != ".." then Normalize(segs[1..], done + [segs[0]])
    else if done == [] then None
    else Normalize(segs[1..], done[..|done| - 1])
  }

  function Base(glob: string): Option<seq<string>> {
    Normalize(Text.Split(BaseDir(glob), '/'), [])
  }

  function Lookup(e: Entry, segs: seq<string>): Option<Entry>
    decreases segs
  {
    if segs == [] then Some(e)
    else if !e.Dir? then None
    else
      var i := IndexOf(e.entries, segs[0]);
      if i == |e.entries| then None else Lookup(e.entries[i].1, segs[1..])
  }

  function IndexOf(dir: seq<(string, Entry)>, n: string): (i: nat)
    ensures i <= |dir| && (i < |dir| ==> dir[i].0 == n)
    ensures forall j | 0 <= j < i :: dir[j].0 != n
  {
    if dir == [] || dir[0].0 == n then 0 else 1 + IndexOf(dir[1..], n)
  }

  /** Where the walk for a glob starts: nothing when the base does not exist. */
  function Start(root: seq<(string, Entry)>, glob: string): Option<Entry> {
    match Base(glob)
    case None => None
    case Some(base) => Lookup(Dir(root), base)
  }

  // ---------------------------------------------------------------- sorting

  predicate Less(a: string, b: string) {
    b != "" && (a == "" || a[0] < b[0] || (a[0] == b[0] && Less(a[1..], b[1..])))
  }

  lemma {:induction false} LessTotal(a: string, b: string)
    ensures !(Less(a, b) && Less(b, a))
    ensures Less(a, b) || Less(b, a) || a == b
  {
    if a != "" && b != "" && a[0] == b[0] {
      LessTotal(a[1..], b[1..]);
      assert a == [a[0]] + a[1..] && b == [b[0]] + b[1..];
    }
  }

  lemma {:induction false} LessTransitive(a: string, b: string, c: string)
    requires Less(a, b) && Less(b, c)
    ensures Less(a, c)
  {
    if a != "" && a[0] == b[0] == c[0] { LessTransitive(a[1..], b[1..], c[1..]); }
  }

  ghost predicate Sorted(s: seq<string>) {
    forall i, j | 0 <= i < j < |s| :: Less(s[i], s[j])
  }

  function Insert(p: string, s: seq<string>): seq<string> {
    if s == [] then [p]
    else if Less(p, s[0]) then [p] + s
    else [s[0]] + Insert(p, s[1..])
  }

  lemma {:induction false} InsertSorted(p: string, s: seq<string>)
    requires Sorted(s) && p !in s
    ensures Sorted(Insert(p, s))
    ensures forall q :: q in Insert(p, s) <==> q == p || q in s
  {
    if s != [] {
      assert s == [s[0]] + s[1..];
      if Less(p, s[0]) {
        forall q | q in s[1..] ensures Less(p, q) { LessTransitive(p, s[0], q); }
      } else {
        LessTotal(p, s[0]);
        InsertSorted(p, s[1..]);
        forall q | q in Insert(p, s[1..]) ensures Less(s[0], q) {}
      }
    }
  }

  method Sort(out: set<string>) returns (s: seq<string>)
    ensures Sorted(s)
    ensures forall p :: p in s <==> p in out
  {
    s := [];
    var rest := out;
    while rest != {}
      invariant rest <= out && Sorted(s)
      invariant forall p :: p in s <==> p in out && p !in rest
      decreases |rest|
    {
      var p :| p in rest;
      InsertSorted(p, s);
      s := Insert(p, s);
      rest := rest - {p};
    }
  }

  /** A sorted list is determined by its members, so the order of the walk does not show. */
  lemma {:induction false} SortedUnique(a: seq<string>, b: seq<string>)
    requires Sorted(a) && Sorted(b) && forall p :: p in a <==> p in b
    ensures a == b
  {
    assert |b| > 0 ==> b[0] in b;
    if a != [] {
      assert a[0] in b;
      assert b[0] in a;
      LessTotal(a[0], b[0]);
      assert a[0] == b[0];
      assert a == [a[0]] + a[1..] && b == [b[0]] + b[1..];
      LessTotal(a[0], a[0]);
      assert a[0] !in a[1..] && a[0] !in b[1..];
      forall p ensures p in a[1..] <==> p in b[1..] { assert p in a <==> p in b; }
      SortedUnique(a[1..], b[1..]);
    }
  }

  // ---------------------------------------------------------------- the resolver

  ghost predicate Resolved(root: seq<(string, Entry)>, glob: string, p: string) {
    match Start(root, glob)
    case Some(Dir(entries)) => Reached(glob, Base(glob).value, entries, p)
    case _ => false
  }

  lemma ResolvedSnoc(root: seq<(string, Entry)>, globs: seq<string>, glob: string)
    ensures forall p :: (exists g :: g in globs + [glob] && Resolved(root, g, p)) <==>
                        Resolved(root, glob, p) || exists g :: g in globs && Resolved(root, g, p)
    ensures forall g :: g in globs + [glob] <==> g in globs || g == glob
  {
    hide Resolved;
    forall g ensures g in globs + [glob] <==> g in globs || g == glob {}
  }

  /** A base that is a file stops the run; otherwise every glob's files, sorted, each once. */
  method ResolveGlobs(root: seq<(string, Entry)>, globs: seq<string>) returns (r: Result<seq<string>, Error>)
    ensures r.Err? <==> exists g :: g in globs && Start(root, g) == Some(File)
    ensures r.Ok? ==> Sorted(r.value) && forall p :: p in r.value <==> exists g :: g in globs && Resolved(root, g, p)
  {
    var out := {};
    for i := 0 to |globs|
      invariant forall g :: g in globs[..i] ==> Start(root, g) != Some(File)
      invariant forall p :: p in out <==> exists g :: g in globs[..i] && Resolved(root, g, p)
    {
      var glob := globs[i];
      ghost var before := out;
      match Start(root, glob) {
        case Some(Dir(entries)) => out := Walk(glob, Base(glob).value, entries, out);
        case Some(File) => return Err(NotADirectory(Base(glob).value));
        case _ =>
      }
      assert forall p :: p in out <==> p in before || Resolved(root, glob, p);
      assert globs[..i + 1] == globs[..i] + [glob];
      ResolvedSnoc(root, globs[..i], glob);
    }
    assert globs[..|globs|] == globs;
    var list := Sort(out);
    r := Ok(list);
  }

  // ---------------------------------------------------------------- nothing is lost by starting at the base

  lemma {:induction false} BeforeFirstWildcard(glob: string, p: string)
    requires GlobRegex.GlobMatch(GlobRegex.Tokens(glob), p)
    ensures StaticPrefix(glob) <= p
  {
    if glob != "" && glob[0] != '*' && glob[0] != '?' {
      var ts := GlobRegex.Tokens(glob);
      assert ts == [GlobRegex.Lit(glob[0])] + GlobRegex.Tokens(glob[1..]);
      assert ts[1..] == GlobRegex.Tokens(glob[1..]);
      BeforeFirstWildcard(glob[1..], p[1..]);
      assert p == [p[0]] + p[1..];
    }
  }

  predicate ValidNames(segs: seq<string>) {
    forall n | n in segs :: ValidName(n)
  }

  /** Directories named by the base of a glob. */
  function BaseNames(glob: string): seq<string> {
    if '/' in StaticPrefix(glob) then Text.Split(BaseDir(glob), '/') else []
  }

  /** A path that starts with the static prefix goes through the directories of the base. */
  lemma BaseOnTheWay(glob: string, segs: seq<string>)
    requires segs != [] && ValidNames(segs) && StaticPrefix(glob) <= Path(segs)
    ensures BaseNames(glob) < segs
  {
    var prefix := StaticPrefix(glob);
    if '/' in prefix {
      var base, p := BaseDir(glob), Path(segs);
      var rest := p[|base| + 1..];
      assert p == base + ['/'] + rest by { assert base + "/" <= prefix <= p; }
      Text.SplitJoin(segs, '/');
      Text.SplitConcat(base, rest, '/');
    }
  }

  lemma {:induction false} NormalizeValid(segs: seq<string>, done: seq<string>)
    requires ValidNames(segs)
    ensures Normalize(segs, done) == Some(done + segs)
  {
    if segs == [] {
      assert done + segs == done;
    } else {
      assert segs[0] in segs;
      NormalizeValid(segs[1..], done + [segs[0]]);
      assert done + segs == done + [segs[0]] + segs[1..];
    }
  }

  /** The base of a glob that matches a path is the path's own first directories. */
  lemma BaseOfMatch(glob: string, segs: seq<string>)
    requires segs != [] && ValidNames(segs) && GlobRegex.GlobMatch(GlobRegex.Tokens(glob), Path(segs))
    ensures BaseNames(glob) < segs && Base(glob) == Some(BaseNames(glob))
  {
    BeforeFirstWildcard(glob, Path(segs));
    BaseOnTheWay(glob, segs);
    var names := BaseNames(glob);
    forall n | n in names ensures n in segs {}
    NormalizeValid(names, []);
    assert [] + names == names;
    if '/' !in StaticPrefix(glob) {
      assert Text.Split("", '/')[1..] == [];
    }
  }

  /** In a well-formed tree the names of a file lead through its directories. */
  lemma {:induction false} FileBelow(dir: seq<(string, Entry)>, base: seq<string>, rest: seq<string>)
    requires WellFormed(dir) && rest != []
    ensures FileAt(dir, base + rest) <==>
            Lookup(Dir(dir), base).Some? && Lookup(Dir(dir), base).value.Dir? &&
            FileAt(Lookup(Dir(dir), base).value.entries, rest)
    decreases base
  {
    if base == [] {
      assert base + rest == rest;
    } else {
      var segs := base + rest;
      assert segs[1..] == base[1..] + rest && segs[0] == base[0];
      var i := IndexOf(dir, base[0]);
      forall j | 0 <= j < |dir| && Holds(dir[j], segs) ensures j == i {}
      if i < |dir| && dir[i].1.Dir? { FileBelow(dir[i].1.entries, base[1..], rest); }
    }
  }

  /** The names lead to a file exactly when looking them up, first match by first match, finds one. */
  lemma {:induction false} LookupFile(dir: seq<(string, Entry)>, segs: seq<string>)
    requires WellFormed(dir) && segs != []
    ensures Lookup(Dir(dir), segs) == Some(File) <==> FileAt(dir, segs)
    decreases segs
  {
    var i := IndexOf(dir, segs[0]);
    forall j | 0 <= j < |dir| && Holds(dir[j], segs) ensures j == i {}
    if i < |dir| {
      if |segs| == 1 {
        assert segs[1..] == [];
      } else if dir[i].1.Dir? {
        LookupFile(dir[i].1.entries, segs[1..]);
      }
    }
  }

  lemma {:induction false} LookupWellFormed(dir: seq<(string, Entry)>, base: seq<string>)
    requires WellFormed(dir) && Lookup(Dir(dir), base).Some? && Lookup(Dir(dir), base).value.Dir?
    ensures WellFormed(Lookup(Dir(dir), base).value.entries)
    decreases base
  {
    if base != [] { LookupWellFormed(dir[IndexOf(dir, base[0])].1.entries, base[1..]); }
  }

  lemma {:induction false} FileNamesValid(dir: seq<(string, Entry)>, segs: seq<string>)
    requires WellFormed(dir) && FileAt(dir, segs)
    ensures segs != [] && ValidNames(segs)
    decreases segs
  {
    var i :| 0 <= i < |dir| && Holds(dir[i], segs);
    if |segs| > 1 {
      FileNamesValid(dir[i].1.entries, segs[1..]);
      assert segs == [segs[0]] + segs[1..];
    }
  }

  ghost predicate WantedBelow(root: seq<(string, Entry)>, glob: string, p: string) {
    exists segs :: && FileAt(root, segs) && p == Path(segs)
                   && GlobRegex.GlobMatch(GlobRegex.Tokens(glob), p)
                   && |BaseNames(glob)| <= |segs| && Visible(segs[|BaseNames(glob)|..])
  }

  lemma FoundFrom(root: seq<(string, Entry)>, glob: string, base: seq<string>, rest: seq<string>)
    requires Base(glob) == Some(base)
    requires Lookup(Dir(root), base).Some? && Lookup(Dir(root), base).value.Dir?
    requires FileAt(Lookup(Dir(root), base).value.entries, rest) && Visible(rest)
    requires GlobRegex.Tests(glob, Path(base + rest))
    ensures Resolved(root, glob, Path(base + rest))
  {
  }

  lemma WantedResolved(root: seq<(string, Entry)>, glob: string, segs: seq<string>)
    requires WellFormed(root) && GlobRegex.Safe(GlobRegex.Tokens(glob))
    requires FileAt(root, segs) && GlobRegex.GlobMatch(GlobRegex.Tokens(glob), Path(segs))
    requires |BaseNames(glob)| <= |segs| && Visible(segs[|BaseNames(glob)|..])
    ensures Resolved(root, glob, Path(segs))
  {
    FileNamesValid(root, segs);
    BaseOfMatch(glob, segs);
    var base := BaseNames(glob);
    var rest := segs[|base|..];
    assert segs == base + rest;
    FileBelow(root, base, rest);
    GlobRegex.TestsExact(glob, Path(segs));
    FoundFrom(root, glob, base, rest);
  }

  lemma ResolvedWanted(root: seq<(string, Entry)>, glob: string, p: string)
    requires WellFormed(root) && GlobRegex.Safe(GlobRegex.Tokens(glob))
    requires Resolved(root, glob, p)
    ensures WantedBelow(root, glob, p)
  {
    var base, start := Base(glob).value, Start(root, glob).value;
    var rest :| FileAt(start.entries, rest) && Visible(rest) && p == Path(base + rest) && GlobRegex.Tests(glob, p);
    var segs := base + rest;
    GlobRegex.TestsExact(glob, p);
    FileBelow(root, base, rest);
    FileNamesValid(root, segs);
    BaseOfMatch(glob, segs);
    assert segs[|base|..] == rest;
  }

  // ---------------------------------------------------------------- the base, read off the glob

  predicate NoWildcard(s: string) {
    '*' !in s && '?' !in s
  }

  /** The glob is `prefix` and then nothing or its first wildcard. */
  ghost predicate StaticPart(glob: string, prefix: string) {
    prefix <= glob && NoWildcard(prefix) && (prefix == glob || !NoWildcard([glob[|prefix|]]))
  }

  lemma {:induction false} StaticExact(glob: string, prefix: string)
    ensures StaticPrefix(glob) == prefix <==> StaticPart(glob, prefix)
  {
    if glob == "" {
    } else if glob[0] == '*' || glob[0] == '?' {
      if prefix != "" && prefix <= glob { assert prefix[0] in prefix; }
    } else {
      assert NoWildcard([glob[0]]);
      if prefix != "" && prefix[0] == glob[0] {
        StaticExact(glob[1..], prefix[1..]);
        assert prefix == [prefix[0]] + prefix[1..] && glob == [glob[0]] + glob[1..];
        assert prefix <= glob <==> prefix[1..] <= glob[1..];
      }
    }
  }

  /** The directories before the last slash of a text without wildcards. */
  ghost predicate DirectoriesOf(prefix: string, names: seq<string>) {
    if names == [] then '/' !in prefix
    else (forall n | n in names :: '/' !in n) && exists tail :: '/' !in tail && prefix == Path(names) + "/" + tail
  }

  /** The same of the part of the glob before its first wildcard. */
  ghost predicate BaseOf(glob: string, names: seq<string>) {
    exists prefix :: StaticPart(glob, prefix) && DirectoriesOf(prefix, names)
  }

  lemma NoneAfter(s: string, i: nat, c: char)
    requires i < |s| && c !in s[i + 1..]
    ensures forall k | i < k < |s| :: s[k] != c
  {
    forall k | i < k < |s| ensures s[k] != c { assert s[i + 1..][k - i - 1] == s[k]; }
  }

  lemma LastSlash(s: string, r: string, tail: string)
    requires s == r + "/" + tail && '/' !in tail
    ensures '/' in s && BeforeLastSlash(s) == r
  {
    assert s[|r|] == '/' && s[|r| + 1..] == tail;
    var q := BeforeLastSlash(s);
    assert s[|q|] == '/' by { assert (q + "/")[|q|] == '/'; }
    hide BeforeLastSlash;
    NoneAfter(s, |q|, '/');
    NoneAfter(s, |r|, '/');
    assert q == s[..|q|] && r == s[..|r|];
  }

  lemma SplitNames(glob: string)
    ensures DirectoriesOf(StaticPrefix(glob), BaseNames(glob))
  {
    var prefix := StaticPrefix(glob);
    if '/' in prefix {
      var base := BeforeLastSlash(prefix);
      Text.SplitParts(base, '/');
      Text.JoinSplit(base, '/');
      var tail := prefix[|base| + 1..];
      assert prefix == base + "/" + tail;
    }
  }

  lemma NamesSplit(glob: string, names: seq<string>)
    requires DirectoriesOf(StaticPrefix(glob), names)
    ensures BaseNames(glob) == names
  {
    var prefix := StaticPrefix(glob);
    if names != [] {
      var tail :| '/' !in tail && prefix == Path(names) + "/" + tail;
      LastSlash(prefix, Path(names), tail);
      Text.SplitJoin(names, '/');
    }
  }

  lemma BaseExact(glob: string, names: seq<string>)
    ensures BaseNames(glob) == names <==> BaseOf(glob, names)
  {
    hide StaticPart, StaticPrefix, BaseNames, DirectoriesOf;
    SplitNames(glob);
    StaticExact(glob, StaticPrefix(glob));
    if BaseOf(glob, names) {
      var prefix :| StaticPart(glob, prefix) && DirectoriesOf(prefix, names);
      StaticExact(glob, prefix);
      NamesSplit(glob, names);
    }
  }

  /** Not `node_modules`, and not a name that starts with a dot. */
  predicate Ordinary(n: string) {
    n != "node_modules" && !("." <= n)
  }

  lemma SkippedExact(n: string)
    ensures Skipped(n) <==> !Ordinary(n)
  {
  }

  /** Every file of the tree that a glob matches, all names below the glob's base being ordinary. */
  ghost predicate Wanted(root: seq<(string, Entry)>, glob: string, p: string) {
    exists segs, base :: && FileAt(root, segs) && p == Path(segs)
                         && GlobRegex.GlobMatch(GlobRegex.Tokens(glob), p)
                         && BaseOf(glob, base) && |base| <= |segs|
                         && forall n | n in segs[|base|..] :: Ordinary(n)
  }

  lemma WantedExact(root: seq<(string, Entry)>, glob: string, p: string)
    ensures WantedBelow(root, glob, p) <==> Wanted(root, glob, p)
  {
    hide BaseOf, Skipped, Ordinary, BaseNames, FileAt;
    forall n { SkippedExact(n); }
    forall base { BaseExact(glob, base); }
    if WantedBelow(root, glob, p) {
      var segs :| && FileAt(root, segs) && p == Path(segs)
                  && GlobRegex.GlobMatch(GlobRegex.Tokens(glob), p)
                  && |BaseNames(glob)| <= |segs| && Visible(segs[|BaseNames(glob)|..]);
      assert BaseOf(glob, BaseNames(glob));
    }
  }

  /** The pruned walk loses nothing: for safe globs the result is the sorted list of every matching file of
      the tree that has no skipped name below the glob's base. */
  lemma ResolveExact(root: seq<(string, Entry)>, globs: seq<string>, r: seq<string>)
    requires WellFormed(root) && forall g | g in globs :: GlobRegex.Safe(GlobRegex.Tokens(g))
    requires forall p :: p in r <==> exists g :: g in globs && Resolved(root, g, p)
    ensures forall p :: p in r <==> exists g :: g in globs && Wanted(root, g, p)
  {
    forall p, g | g in globs ensures Resolved(root, g, p) <==> Wanted(root, g, p) {
      ResolvedIsWanted(root, g, p);
      WantedExact(root, g, p);
    }
  }

  lemma ResolvedIsWanted(root: seq<(string, Entry)>, g: string, p: string)
    requires WellFormed(root) && GlobRegex.Safe(GlobRegex.Tokens(g))
    ensures Resolved(root, g, p) <==> WantedBelow(root, g, p)
  {
    if Resolved(root, g, p) { ResolvedWanted(root, g, p); }
    if WantedBelow(root, g, p) {
      var segs :| && FileAt(root, segs) && p == Path(segs)
                  && GlobRegex.GlobMatch(GlobRegex.Tokens(g), p)
                  && |BaseNames(g)| <= |segs| && Visible(segs[|BaseNames(g)|..]);
      WantedResolved(root, g, segs);
    }
  }

  /** Joining a path drops empty and `.` parts, and a name followed by `..`. */
  lemma {:induction false} NormalizeSteps(a: seq<string>, b: seq<string>, n: string, done: seq<string>)
    requires n != "" && n != "." && n != ".."
    ensures Normalize(a + ["."] + b, done) == Normalize(a + [""] + b, done) == Normalize(a + b, done)
    ensures Normalize(a + [n, ".."] + b, done) == Normalize(a + b, done)
    decreases a
  {
    if a == [] {
      assert a + b == b && (a + ["."] + b)[1..] == b && (a + [""] + b)[1..] == b;
      assert (a + [n, ".."] + b)[1..] == [".."] + b && ([".."] + b)[1..] == b;
      assert (done + [n])[..|done + [n]| - 1] == done;
      assert Normalize([".."] + b, done + [n]) == Normalize(b, done);
    } else {
      assert (a + ["."] + b)[1..] == a[1..] + ["."] + b && (a + [""] + b)[1..] == a[1..] + [""] + b;
      assert (a + [n, ".."] + b)[1..] == a[1..] + [n, ".."] + b && (a + b)[1..] == a[1..] + b;
      if a[0] == "" || a[0] == "." {
        NormalizeSteps(a[1..], b, n, done);
      } else if a[0] != ".." {
        NormalizeSteps(a[1..], b, n, done + [a[0]]);
      } else if done != [] {
        NormalizeSteps(a[1..], b, n, done[..|done| - 1]);
      }
    }
  }
}
