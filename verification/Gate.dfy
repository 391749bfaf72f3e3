/** The gate over a set of files: allowed, unreadable and foreign writes, and the non-vacuity floor. */
module Gate {
  import opened Wrappers
  import opened Syntax
  import opened Payload
  import opened Aliases
  import opened Runs
  import opened Chains
  import opened Scanner
  import opened Alarms

  datatype SourceFile = SourceFile(path: string, tree: Node)

  datatype AllowlistEntry = AllowlistEntry(file: string, functions: set<string>)

  const MIN_EXPECTED_FILES := 50

  const ALLOWLIST := [AllowlistEntry("packages/domain/src/field-worker/project.ts",
                                     {"projectFieldWorkerGenesis", "projectFieldWorkerTransition"})]

  predicate IsAllowlistedWrite(f: Finding, allowlist: seq<AllowlistEntry>) {
    exists e | e in allowlist :: e.file == f.file && f.enclosing.Some? && f.enclosing.value in e.functions
  }

  function SeenKey(file: string, fn: string): string {
    file + "#" + fn
  }

  datatype Outcome =
    | TooFewFiles
    | Unseen(writers: set<string>)
    | Foreign(findings: seq<Finding>)
    | Passed

  // ---------------------------------------------------------------- the loop over files

  predicate Accepted(f: Finding, allowlist: seq<AllowlistEntry>) {
    IsAllowlistedWrite(f, allowlist) && f.detail.shape == Guarded
  }

  function AllFindings(files: seq<SourceFile>, t: Target): seq<Finding> {
    if files == [] then []
    else AllFindings(files[..|files| - 1], t) + ScanResult(files[|files| - 1].path, files[|files| - 1].tree, t)
  }

  function Rejected(fs: seq<Finding>, allowlist: seq<AllowlistEntry>): seq<Finding> {
    if fs == [] then []
    else Rejected(fs[..|fs| - 1], allowlist) + if Accepted(fs[|fs| - 1], allowlist) then [] else [fs[|fs| - 1]]
  }

  function Seen(fs: seq<Finding>, allowlist: seq<AllowlistEntry>): set<string> {
    set f | f in fs && Accepted(f, allowlist) :: SeenKey(f.file, f.enclosing.value)
  }

  function WriterKeys(allowlist: seq<AllowlistEntry>): set<string> {
    set e, fn | e in allowlist && fn in e.functions :: SeenKey(e.file, fn)
  }

  /** The gate's answer, from the findings of all files. */
  function Verdict(files: seq<SourceFile>, allowlist: seq<AllowlistEntry>, t: Target): Outcome {
    var fs := AllFindings(files, t);
    if |files| < MIN_EXPECTED_FILES then TooFewFiles
    else if WriterKeys(allowlist) - Seen(fs, allowlist) != {} then Unseen(WriterKeys(allowlist) - Seen(fs, allowlist))
    else if Rejected(fs, allowlist) != [] then Foreign(Rejected(fs, allowlist))
    else Passed
  }

  lemma SeenSnoc(fs: seq<Finding>, f: Finding, allowlist: seq<AllowlistEntry>)
    ensures Rejected(fs + [f], allowlist) == Rejected(fs, allowlist) + if Accepted(f, allowlist) then [] else [f]
    ensures Seen(fs + [f], allowlist) ==
            Seen(fs, allowlist) + if Accepted(f, allowlist) then {SeenKey(f.file, f.enclosing.value)} else {}
  {
    assert (fs + [f])[..|fs|] == fs;
    assert forall x :: x in fs + [f] <==> x in fs || x == f;
  }

  /** The loop over one file's findings, given those of the files before. */
  method Separate(found: seq<Finding>, allowlist: seq<AllowlistEntry>, ghost earlier: seq<Finding>,
                  findings0: seq<Finding>, seen0: set<string>)
      returns (findings: seq<Finding>, seen: set<string>)
    requires findings0 == Rejected(earlier, allowlist) && seen0 == Seen(earlier, allowlist)
    ensures findings == Rejected(earlier + found, allowlist) && seen == Seen(earlier + found, allowlist)
  {
    findings, seen := findings0, seen0;
    ghost var all := earlier;
    for j := 0 to |found|
      invariant all == earlier + found[..j]
      invariant findings == Rejected(all, allowlist) && seen == Seen(all, allowlist)
    {
      var f := found[j];
      SeenSnoc(all, f, allowlist);
      if IsAllowlistedWrite(f, allowlist) {
        if f.detail.shape != Guarded {
          findings := findings + [f];
        } else {
          seen := seen + {SeenKey(f.file, f.enclosing.value)};
        }
      } else {
        findings := findings + [f];
      }
      all := all + [f];
    }
    assert all == earlier + found;
  }

  /** Scan one more file, given the findings of the files before. */
  method ScanAndSeparate(s: SourceFile, allowlist: seq<AllowlistEntry>, t: Target, ghost earlier: seq<SourceFile>,
                         findings0: seq<Finding>, seen0: set<string>)
      returns (findings: seq<Finding>, seen: set<string>)
    requires findings0 == Rejected(AllFindings(earlier, t), allowlist)
    requires seen0 == Seen(AllFindings(earlier, t), allowlist)
    ensures findings == Rejected(AllFindings(earlier + [s], t), allowlist)
    ensures seen == Seen(AllFindings(earlier + [s], t), allowlist)
  {
    var found := Scan(s.path, s.tree, t);
    AllSnoc(earlier, s, t);
    findings, seen := Separate(found, allowlist, AllFindings(earlier, t), findings0, seen0);
  }

  /** The loop over the files. */
  method Gather(files: seq<SourceFile>, allowlist: seq<AllowlistEntry>, t: Target)
      returns (findings: seq<Finding>, seen: set<string>)
    ensures findings == Rejected(AllFindings(files, t), allowlist)
    ensures seen == Seen(AllFindings(files, t), allowlist)
  {
    findings, seen := [], {};
    for i := 0 to |files|
      invariant findings == Rejected(AllFindings(files[..i], t), allowlist)
      invariant seen == Seen(AllFindings(files[..i], t), allowlist)
    {
      assert files[..i + 1] == files[..i] + [files[i]];
      findings, seen := ScanAndSeparate(files[i], allowlist, t, files[..i], findings, seen);
    }
    assert files[..|files|] == files;
  }

  /** `main`. */
  method Check(files: seq<SourceFile>, allowlist: seq<AllowlistEntry>, t: Target) returns (outcome: Outcome)
    ensures outcome == Verdict(files, allowlist, t)
  {
    if |files| < MIN_EXPECTED_FILES { return TooFewFiles; }
    var findings, allowlistedSeen := Gather(files, allowlist, t);
    var unseen := WriterKeys(allowlist) - allowlistedSeen;
    if unseen != {} { return Unseen(unseen); }
    outcome := if findings == [] then Passed else Foreign(findings);
  }

  lemma AllSnoc(files: seq<SourceFile>, s: SourceFile, t: Target)
    ensures AllFindings(files + [s], t) == AllFindings(files, t) + ScanResult(s.path, s.tree, t)
  {
    assert (files + [s])[..|files|] == files;
  }

  // ---------------------------------------------------------------- what a pass means

  predicate FoundIn(f: Finding, s: SourceFile, t: Target) {
    f in ScanResult(s.path, s.tree, t)
  }

  lemma {:induction false} InAllFindings(files: seq<SourceFile>, t: Target, f: Finding)
    ensures f in AllFindings(files, t) <==> exists s :: s in files && FoundIn(f, s, t)
  {
    if files != [] {
      var front, last := files[..|files| - 1], files[|files| - 1];
      assert files == front + [last];
      AllSnoc(front, last, t);
      InAllFindings(front, t, f);
      assert f in AllFindings(files, t) <==> f in AllFindings(front, t) || FoundIn(f, last, t);
    }
  }

  lemma {:induction false} NoneRejected(fs: seq<Finding>, allowlist: seq<AllowlistEntry>, f: Finding)
    requires Rejected(fs, allowlist) == [] && f in fs
    ensures Accepted(f, allowlist)
  {
    if f != fs[|fs| - 1] {
      assert fs == fs[..|fs| - 1] + [fs[|fs| - 1]];
      NoneRejected(fs[..|fs| - 1], allowlist, f);
    }
  }

  /** The node lies in an allowlisted function of its file: the innermost function around it is one. */
  ghost predicate InAllowlistedFunction(file: string, root: Node, path: Path, allowlist: seq<AllowlistEntry>)
    requires At(root, path)
  {
    exists e, fn :: e in allowlist && e.file == file && fn in e.functions && InnermostLabel(root, path, Some(fn))
  }

  /** A passing gate is sound: in every transparent file, every sighted node that may write a guarded
      column of the table stands directly in an allowlisted function. It writes one whatever the valuation
      exactly when it is no upsert, or one whose `set` always does. */
  lemma PassIsSound(files: seq<SourceFile>, allowlist: seq<AllowlistEntry>, t: Target, s: SourceFile, path: Path)
    requires t.Valid() && t.columns != {} && Verdict(files, allowlist, t) == Passed && s in files && At(s.tree, path)
    requires Transparent(s.tree, t) && MayWrite(s.tree, NodeAt(s.tree, path), t)
    requires SightedSite(NodeAt(s.tree, path), ViewOf(s.tree, t), t)
    ensures InAllowlistedFunction(s.path, s.tree, path, allowlist)
    ensures var n := NodeAt(s.tree, path);
            AlwaysWrites(s.tree, n, t) <==> (Upsert(n) ==> SetTruth(n.args[0], t) == Always)
  {
    hide Report, SightedSite, Transparent, MayWrite, AlwaysWrites;
    var n, names := NodeAt(s.tree, path), Collected(s.tree, t);
    WritesAreReported(s.tree, n, t);
    FoundIsAccepted(files, allowlist, t, s, path);
    ReportedWrites(s.tree, n, names, t);
  }

  /** When the gate passes, every reported node is allowlisted and readable. */
  lemma FoundIsAccepted(files: seq<SourceFile>, allowlist: seq<AllowlistEntry>, t: Target, s: SourceFile, path: Path)
    requires Verdict(files, allowlist, t) == Passed && s in files && At(s.tree, path)
    requires Report(NodeAt(s.tree, path), Collected(s.tree, t), t).Some?
    ensures InAllowlistedFunction(s.path, s.tree, path, allowlist)
    ensures Report(NodeAt(s.tree, path), Collected(s.tree, t), t).value.shape == Guarded
  {
    hide Report;
    var n, names := NodeAt(s.tree, path), Collected(s.tree, t);
    var fn := Enclosing(s.tree, path, |path|);
    EnclosingIsInnermost(s.tree, path, fn, |path|);
    var f := Finding(s.path, path, Report(n, names, t).value, fn);
    ScanExact(s.path, s.tree, t, f);
    assert FoundIn(f, s, t);
    InAllFindings(files, t, f);
    NoneRejected(AllFindings(files, t), allowlist, f);
  }

  predicate NoHash(allowlist: seq<AllowlistEntry>) {
    forall e, fn | e in allowlist && fn in e.functions :: '#' !in fn
  }

  lemma SeenKeyInjective(file: string, fn: string, file': string, fn': string)
    requires SeenKey(file, fn) == SeenKey(file', fn') && '#' !in fn && '#' !in fn'
    ensures file == file' && fn == fn'
  {
    var k := SeenKey(file, fn);
    assert k[|file|] == '#' && k[|file'|] == '#';
    assert forall i | |file| < i < |k| :: k[i] == fn[i - |file| - 1];
    assert forall i | |file'| < i < |k| :: k[i] == fn'[i - |file'| - 1];
    assert file == k[..|file|] && file' == k[..|file'|];
    assert fn == k[|file| + 1..] && fn' == k[|file'| + 1..];
  }

  // ---------------------------------------------------------------- the gate's answer, exactly

  /** `f` is a report of the file: the node at its position, read with the file's names, under the innermost
      function around it. */
  ghost predicate Finds(s: SourceFile, f: Finding, t: Target) {
    f.file == s.path && At(s.tree, f.path) &&
    Report(NodeAt(s.tree, f.path), Collected(s.tree, t), t) == Some(f.detail) &&
    InnermostLabel(s.tree, f.path, f.enclosing)
  }

  /** The report is readable and stands directly in a function allowed for its file. */
  ghost predicate Allowed(f: Finding, allowlist: seq<AllowlistEntry>) {
    f.detail.shape == Guarded &&
    exists e :: e in allowlist && e.file == f.file && f.enclosing.Some? && f.enclosing.value in e.functions
  }

  ghost predicate ForeignIn(files: seq<SourceFile>, f: Finding, allowlist: seq<AllowlistEntry>, t: Target) {
    !Allowed(f, allowlist) && exists s :: s in files && Finds(s, f, t)
  }

  /** The function of the file directly holds a readable write. */
  ghost predicate WriterHeld(files: seq<SourceFile>, file: string, fn: string, t: Target) {
    exists s, f :: s in files && Finds(s, f, t) && f.detail.shape == Guarded && f.file == file &&
                   f.enclosing == Some(fn)
  }

  ghost predicate AllHeld(files: seq<SourceFile>, allowlist: seq<AllowlistEntry>, t: Target) {
    forall e, fn | e in allowlist && fn in e.functions :: WriterHeld(files, e.file, fn, t)
  }

  lemma FindsExact(s: SourceFile, f: Finding, t: Target)
    ensures FoundIn(f, s, t) <==> Finds(s, f, t)
  {
    ScanExact(s.path, s.tree, t, f);
  }

  lemma AllowedExact(f: Finding, allowlist: seq<AllowlistEntry>)
    ensures Accepted(f, allowlist) <==> Allowed(f, allowlist)
  {
  }

  lemma {:induction false} RejectedExact(fs: seq<Finding>, allowlist: seq<AllowlistEntry>, f: Finding)
    ensures f in Rejected(fs, allowlist) <==> f in fs && !Accepted(f, allowlist)
  {
    if fs != [] {
      assert fs == fs[..|fs| - 1] + [fs[|fs| - 1]];
      RejectedExact(fs[..|fs| - 1], allowlist, f);
    }
  }

  lemma ForeignExact(files: seq<SourceFile>, allowlist: seq<AllowlistEntry>, t: Target, f: Finding)
    ensures f in Rejected(AllFindings(files, t), allowlist) <==> ForeignIn(files, f, allowlist, t)
  {
    hide Allowed, Accepted, Finds, FoundIn;
    RejectedExact(AllFindings(files, t), allowlist, f);
    InAllFindings(files, t, f);
    AllowedExact(f, allowlist);
    forall s { FindsExact(s, f, t); }
  }

  lemma SeenExact(files: seq<SourceFile>, allowlist: seq<AllowlistEntry>, t: Target, e: AllowlistEntry, fn: string)
    requires NoHash(allowlist) && e in allowlist && fn in e.functions
    ensures SeenKey(e.file, fn) in Seen(AllFindings(files, t), allowlist) <==> WriterHeld(files, e.file, fn, t)
  {
    hide Finds, FoundIn;
    var fs := AllFindings(files, t);
    if SeenKey(e.file, fn) in Seen(fs, allowlist) {
      var f :| f in fs && Accepted(f, allowlist) && SeenKey(f.file, f.enclosing.value) == SeenKey(e.file, fn);
      SeenKeyInjective(f.file, f.enclosing.value, e.file, fn);
      InAllFindings(files, t, f);
      var s :| s in files && FoundIn(f, s, t);
      FindsExact(s, f, t);
    }
    if WriterHeld(files, e.file, fn, t) {
      var s, f :|
        s in files && Finds(s, f, t) && f.detail.shape == Guarded && f.file == e.file && f.enclosing == Some(fn);
      FindsExact(s, f, t);
      InAllFindings(files, t, f);
      assert Accepted(f, allowlist);
    }
  }

  lemma UnseenExact(files: seq<SourceFile>, allowlist: seq<AllowlistEntry>, t: Target, k: string)
    requires NoHash(allowlist)
    ensures k in WriterKeys(allowlist) - Seen(AllFindings(files, t), allowlist) <==>
            exists e, fn :: e in allowlist && fn in e.functions && k == e.file + "#" + fn &&
                            !WriterHeld(files, e.file, fn, t)
  {
    hide WriterHeld, Seen, AllFindings;
    forall e, fn | e in allowlist && fn in e.functions { SeenExact(files, allowlist, t, e, fn); }
  }

  /** What each answer of the gate means. Since the four cases exclude each other, each is given exactly when
      its case holds. */
  lemma VerdictExact(files: seq<SourceFile>, allowlist: seq<AllowlistEntry>, t: Target)
    requires NoHash(allowlist)
    ensures match Verdict(files, allowlist, t)
            case TooFewFiles => |files| < 50
            case Unseen(writers) =>
              |files| >= 50 && !AllHeld(files, allowlist, t) &&
              forall k :: k in writers <==> exists e, fn :: e in allowlist && fn in e.functions &&
                                                            k == e.file + "#" + fn && !WriterHeld(files, e.file, fn, t)
            case Foreign(findings) =>
              |files| >= 50 && AllHeld(files, allowlist, t) &&
              findings != [] && forall f :: f in findings <==> ForeignIn(files, f, allowlist, t)
            case Passed =>
              |files| >= 50 && AllHeld(files, allowlist, t) && forall f :: !ForeignIn(files, f, allowlist, t)
  {
    hide WriterHeld, ForeignIn, Seen, AllFindings, Rejected, WriterKeys;
    var fs := AllFindings(files, t);
    forall k { UnseenExact(files, allowlist, t, k); }
    forall f { ForeignExact(files, allowlist, t, f); }
    var unseen := WriterKeys(allowlist) - Seen(fs, allowlist);
    if unseen == {} {
      forall e, fn | e in allowlist && fn in e.functions ensures WriterHeld(files, e.file, fn, t) {
        assert e.file + "#" + fn !in unseen;
      }
    } else {
      var k :| k in unseen;
    }
  }

  /** The gate passes exactly when there are enough files, every report of every file is readable and stands
      directly in a function allowed for its file, and every allowed function directly holds one. */
  lemma PassesExactly(files: seq<SourceFile>, allowlist: seq<AllowlistEntry>, t: Target)
    requires NoHash(allowlist)
    ensures Verdict(files, allowlist, t) == Passed <==>
            && |files| >= 50
            && (forall s, f | s in files && Finds(s, f, t) :: Allowed(f, allowlist))
            && forall e, fn | e in allowlist && fn in e.functions :: WriterHeld(files, e.file, fn, t)
  {
    hide Finds, Allowed, Verdict, WriterHeld;
    VerdictExact(files, allowlist, t);
    var outcome := Verdict(files, allowlist, t);
    if outcome == Passed {
      forall s, f | s in files && Finds(s, f, t) ensures Allowed(f, allowlist) {
        assert !ForeignIn(files, f, allowlist, t);
      }
    } else if outcome.Foreign? {
      var f := outcome.findings[0];
      assert f in outcome.findings && ForeignIn(files, f, allowlist, t);
    }
  }

  /** What the floor counts as one: a guarded report. In some run it is a write of the table; it may write a
      guarded column exactly when it is no upsert, or one whose `set` can, and does so whatever the
      valuation exactly when it is no upsert, or one whose `set` always does. */
  ghost predicate SeenWrite(root: Node, n: Node, t: Target) {
    && Report(n, Collected(root, t), t).Some? && Report(n, Collected(root, t), t).value.shape == Guarded
    && (exists env :: Held(root, env, t) && OnTable(n, env, t))
    && (MayWrite(root, n, t) <==> (Upsert(n) ==> SetTruth(n.args[0], t) != Never))
    && (AlwaysWrites(root, n, t) <==> (Upsert(n) ==> SetTruth(n.args[0], t) == Always))
  }

  lemma GuardedIsSeen(root: Node, n: Node, t: Target)
    requires t.Valid() && Parsed(root)
    requires Report(n, Collected(root, t), t).Some? && Report(n, Collected(root, t), t).value.shape == Guarded
    ensures SeenWrite(root, n, t)
  {
    hide Report, Parsed, Held, OnTable, MayWrite, AlwaysWrites, Collected;
    GuardedSite(n, Collected(root, t), t);
    var env := ReportedOnTable(root, n, t);
    ReportIsRight(root, n, t);
  }

  /** A passing gate is not vacuous: directly in every allowlisted function it saw a node that is a write of
      the table, and writes a guarded column but for the upserts that `SeenWrite` tells. */
  lemma PassIsNotVacuous(files: seq<SourceFile>, allowlist: seq<AllowlistEntry>, t: Target,
                         e: AllowlistEntry, fn: string)
      returns (s: SourceFile, path: Path)
    requires t.Valid() && Verdict(files, allowlist, t) == Passed && NoHash(allowlist)
    requires e in allowlist && fn in e.functions && forall f | f in files :: Parsed(f.tree)
    ensures s in files && s.path == e.file && At(s.tree, path) && InnermostLabel(s.tree, path, Some(fn))
    ensures SeenWrite(s.tree, NodeAt(s.tree, path), t)
  {
    hide SeenWrite;
    var fs := AllFindings(files, t);
    var unseen := WriterKeys(allowlist) - Seen(fs, allowlist);
    assert SeenKey(e.file, fn) in WriterKeys(allowlist);
    assert unseen == {} && SeenKey(e.file, fn) !in unseen;
    var f :| f in fs && Accepted(f, allowlist) && SeenKey(f.file, f.enclosing.value) == SeenKey(e.file, fn);
    SeenKeyInjective(f.file, f.enclosing.value, e.file, fn);
    InAllFindings(files, t, f);
    s :| s in files && FoundIn(f, s, t);
    path := f.path;
    ScanExact(s.path, s.tree, t, f);
    GuardedIsSeen(s.tree, NodeAt(s.tree, path), t);
  }

  /** The gates' own configuration, and that it meets the conditions above. */
  lemma OwnConfiguration()
    ensures FIELD_WORKERS.Valid() && FIELD_WORKERS.columns != {} && NoHash(ALLOWLIST)
    ensures MARKETPLACE_MODULES.Valid() && MARKETPLACE_MODULES.columns != {}
  {
    assert ALLOWLIST[0] in ALLOWLIST;
    assert "auditId" in FIELD_WORKERS.columns && "auditId" in MARKETPLACE_MODULES.columns;
  }
}
