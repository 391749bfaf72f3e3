/** The memory log's commands, run for the life of the file, with a crash at any step of any write. */
module MemlogRuns {
  import opened Wrappers
  import opened Memlog
  import opened LogText
  import Text

  // ---------------------------------------------------------------- the body

  function CountEntries(lines: seq<string>): nat {
    if lines == [] then 0 else (if "- " <= lines[0] then 1 else 0) + CountEntries(lines[1..])
  }

  /** Each line that starts with the list mark counts one, wherever it stands. */
  lemma {:induction false} CountOne(a: seq<string>, l: string, b: seq<string>)
    ensures CountEntries([]) == 0
    ensures CountEntries(a + [l] + b) ==
            CountEntries(a + b) + if |l| >= 2 && l[0] == '-' && l[1] == ' ' then 1 else 0
  {
    if a == [] {
      assert ([l] + b)[1..] == b && a + [l] + b == [l] + b && a + b == b;
    } else {
      assert (a + [l] + b)[1..] == a[1..] + [l] + b && (a + b)[1..] == a[1..] + b;
      CountOne(a[1..], l, b);
    }
  }

  function EntryCount(body: string): nat {
    CountEntries(Lines(body))
  }

  /** The inline tag: kind, author, both or neither. */
  function Tag(kind: string, author: string): string {
    var inner := if author != "" then Strip(kind + " by " + author) else kind;
    if inner != "" then "(" + inner + ") " else ""
  }

  function Entry(text: string, kind: string, author: string): string {
    "- " + Tag(kind, author) + Collapse(text)
  }

  /** What stands in the parentheses: the kind, then ` by ` and the author when one is given, trimmed. */
  ghost predicate LabelFor(inner: string, kind: string, author: string) {
    if author == "" then inner == kind else StripsTo(kind + " by " + author, inner)
  }

  /** An entry: the list mark, the label in parentheses unless it is empty, and the words of the text with
      single spaces between them. */
  ghost predicate EntryFor(e: string, text: string, kind: string, author: string) {
    exists words, inner :: AreWords(text, words) && LabelFor(inner, kind, author) &&
      e == "- " + (if inner == "" then "" else "(" + inner + ") ") + Text.Join(words, ' ')
  }

  lemma EntryExact(e: string, text: string, kind: string, author: string)
    ensures e == Entry(text, kind, author) <==> EntryFor(e, text, kind, author)
  {
    hide AreWords, StripsTo, Words, Strip;
    forall words { WordsExact(text, words); }
    forall inner ensures StripsTo(kind + " by " + author, inner) <==> Strip(kind + " by " + author) == inner {
      StripExact(kind + " by " + author, inner);
    }
    var inner := if author != "" then Strip(kind + " by " + author) else kind;
    assert LabelFor(inner, kind, author) && AreWords(text, Words(text, ""));
    assert Tag(kind, author) == if inner == "" then "" else "(" + inner + ") ";
  }

  /** A kind and an author without outer spaces stand as they are. */
  lemma LabelPlain(inner: string, kind: string, author: string)
    requires Trimmed(kind) && Trimmed(author)
    ensures LabelFor(inner, kind, author) <==>
            inner == if author == "" then kind else if kind == "" then "by " + author else kind + " by " + author
  {
    if author != "" {
      var whole := kind + " by " + author;
      var plain := if kind == "" then "by " + author else whole;
      var a := if kind == "" then " " else "";
      assert whole == a + plain + "" && Blank(a) && Blank("");
      assert plain[|plain| - 1] == author[|author| - 1];
      StripExact(whole, plain);
      StripExact(whole, inner);
    }
  }

  function NextBody(body: string, entry: string): string {
    if Strip(body) != "" then TrimRight(body) + "\n" + entry else entry
  }

  lemma BlankStrips(body: string)
    ensures Strip(body) == "" <==> Blank(body)
    ensures TrimRight(body) == "" ==> Blank(body)
  {
    StripExact(body, "");
    assert body == body + "" + "" && Blank("");
    if StripsTo(body, "") {
      var a, b :| Blank(a) && Blank(b) && body == a + "" + b;
    }
    var ends := TrimRightParts(body);
  }

  /** Whatever the body, an entry goes on a line of its own after it; newlines at its end are dropped, and a
      blank body altogether. */
  lemma NextBodyExact(body: string, e: string)
    ensures Blank(body) ==> NextBody(body, e) == e
    ensures !Blank(body) ==>
              exists core, ends :: body == core + ends && Newlines(ends) && core != "" && core[|core| - 1] != '\n' &&
                                   NextBody(body, e) == core + "\n" + e
  {
    BlankStrips(body);
    var ends := TrimRightParts(body);
  }

  predicate GoodEntry(e: string) {
    "- " <= e && NoBreak(e)
  }

  predicate GoodEntries(es: seq<string>) {
    forall e | e in es :: GoodEntry(e)
  }

  function Body(entries: seq<string>): string {
    Text.Join(entries, '\n')
  }

  /** A broken tag is the only thing that can spread an entry over several lines. */
  lemma EntryOneLine(text: string, kind: string, author: string)
    ensures GoodEntry(Entry(text, kind, author)) <==> NoBreak(Tag(kind, author))
    ensures NoBreak(kind) && NoBreak(author) ==> NoBreak(Tag(kind, author))
  {
    WordsUnbroken(text, "");
    JoinUnbroken(Words(text, ""));
    StripTrims(kind + " by " + author);
    var e, t := Entry(text, kind, author), Tag(kind, author);
    assert e == "- " + t + Collapse(text);
    if NoBreak(e) {
      forall c | c in t ensures c in e {}
    }
  }

  lemma {:induction false} JoinSnoc(ls: seq<string>, l: string)
    requires ls != []
    ensures Body(ls + [l]) == Body(ls) + "\n" + l
  {
    assert (ls + [l])[0] == ls[0];
    if |ls| == 1 {
      assert (ls + [l])[1..] == [l];
      assert Text.Join([l], '\n') == l;
    } else {
      JoinSnoc(ls[1..], l);
      assert (ls + [l])[1..] == ls[1..] + [l];
      var rest := Body(ls[1..]);
      assert ls[0] + ['\n'] + (rest + "\n" + l) == ls[0] + ['\n'] + rest + "\n" + l;
    }
  }

  lemma {:induction false} BodyEnds(es: seq<string>)
    requires es != [] && GoodEntries(es)
    ensures Body(es) != "" && Body(es)[0] == '-' && Body(es)[|Body(es)| - 1] != '\n'
  {
    assert GoodEntry(es[0]);
    if |es| == 1 {
      assert es[0][|es[0]| - 1] in es[0];
    } else {
      BodyEnds(es[1..]);
    }
  }

  lemma {:induction false} StripKeeps(s: string)
    requires s != "" && !IsSpace(s[0])
    ensures StripRight(s) != ""
  {
    if IsSpace(s[|s| - 1]) { StripKeeps(s[..|s| - 1]); }
  }

  /** Appending puts the entry at the end. */
  lemma BodyAppended(es: seq<string>, e: string)
    requires GoodEntries(es)
    ensures NextBody(Body(es), e) == Body(es + [e])
  {
    if es == [] {
      assert es + [e] == [e];
    } else {
      BodyEnds(es);
      StripKeeps(Body(es));
      JoinSnoc(es, e);
    }
  }

  lemma {:induction false} BodyLines(es: seq<string>)
    requires GoodEntries(es)
    ensures Lines(Body(es)) == es
  {
    if |es| > 0 {
      assert GoodEntry(es[0]);
      UnbrokenLine(es[0]);
    }
    if |es| > 1 {
      BodyLines(es[1..]);
      LinesCons(es[0], Body(es[1..]));
      assert [es[0]] + es[1..] == es;
    }
  }

  lemma {:induction false} AllCounted(es: seq<string>)
    requires GoodEntries(es)
    ensures CountEntries(es) == |es|
  {
    if es != [] {
      assert GoodEntry(es[0]);
      AllCounted(es[1..]);
    }
  }

  /** The body is read back as it was. */
  lemma BodyRead(es: seq<string>)
    requires GoodEntries(es)
    ensures TrimLeft(Text.Join([""] + Lines(TrimRight(Body(es)) + "\n"), '\n')) == Body(es)
  {
    if es == [] {
      assert Lines("\n") == [""];
      assert [""] + [""] == ["", ""] && ["", ""][1..] == [""];
      assert TrimLeft("\n") == "";
    } else {
      BodyEnds(es);
      UnlinesJoin(es);
      forall e | e in es ensures NoBreak(e) {}
      LinesUnlines(es, "");
      assert Unlines(es) + "" == Unlines(es) && es + [] == es;
      assert ([""] + es)[1..] == es;
      assert Text.Join([""] + es, '\n') == "\n" + Body(es);
      assert ("\n" + Body(es))[1..] == Body(es);
    }
  }

  // ---------------------------------------------------------------- the write

  datatype Disk = Disk(target: Option<string>, tmp: Option<string>)

  /** Where a run of the program stops: not at all, before the temporary file is opened, with part of it
      written, with all of it written, or after it replaced the target. */
  datatype Crash = Never | BeforeOpen | Writing(k: nat) | BeforeReplace | AfterReplace

  predicate Landed(crash: Crash) {
    crash.Never? || crash.AfterReplace?
  }

  function Written(d: Disk, text: string, crash: Crash): Disk {
    match crash
    case BeforeOpen => d
    case Writing(k) => d.(tmp := Some(text[..if k <= |text| then k else |text|]))
    case BeforeReplace => d.(tmp := Some(text))
    case _ => Disk(Some(text), None)
  }

  // ---------------------------------------------------------------- the commands

  datatype Command =
    | Init(fields: seq<string>)
    | Append(text: string, kind: string, author: string)
    | Set(key: string, value: string)

  datatype Reply = Ack(entries: nat) | AlreadyExists | BadField | NoFile | Malformed(error: ParseError) | Died

  function InitFields(fields: seq<string>, meta: Meta): Option<Meta>
    decreases fields
  {
    if fields == [] then Some(meta)
    else if '=' !in fields[0] then None
    else
      var i := IndexOf(fields[0], '=');
      InitFields(fields[1..], Put(meta, Strip(fields[0][..i]), Strip(fields[0][i + 1..])))
  }

  /** The log a command would write, or its refusal. */
  function Planned(target: Option<string>, c: Command, now: string): Result<Log, Reply> {
    match c
    case Init(fields) =>
      if target.Some? then Err(AlreadyExists)
      else (match InitFields(fields, [])
        case None => Err(BadField)
        case Some(meta) => Ok(Log(Touched(meta, now), "")))
    case Append(text, kind, author) =>
      (match Read(target)
        case Err(r) => Err(r)
        case Ok(log) => Ok(Log(Touched(log.meta, now), NextBody(log.body, Entry(text, kind, author)))))
    case Set(key, value) =>
      (match Read(target)
        case Err(r) => Err(r)
        case Ok(log) => Ok(Log(Touched(Put(log.meta, key, value), now), log.body)))
  }

  function Read(target: Option<string>): Result<Log, Reply> {
    match target
    case None => Err(NoFile)
    case Some(text) =>
      match Split(text)
      case Err(e) => Err(Malformed(e))
      case Ok(log) => Ok(log)
  }

  function FieldPair(f: string): (string, string)
    requires '=' in f
  {
    (Strip(f[..IndexOf(f, '=')]), Strip(f[IndexOf(f, '=') + 1..]))
  }

  /** A field is split at its first `=`. */
  lemma FieldPairSplit(a: string, b: string)
    requires '=' !in a
    ensures FieldPair(a + "=" + b) == (Strip(a), Strip(b))
  {
    FirstIndex(a, '=', b);
    var f := a + ['='] + b;
    assert f == a + "=" + b && f[..|a|] == a && f[|a| + 1..] == b;
  }

  predicate AllSplit(fields: seq<string>) {
    forall f | f in fields :: '=' in f
  }

  /** The pairs of the fields given to `init`. */
  function InitPairs(fields: seq<string>): Meta
    requires AllSplit(fields)
  {
    seq(|fields|, i requires 0 <= i < |fields| => assert fields[i] in fields; FieldPair(fields[i]))
  }

  lemma {:induction false} InitFieldsSnoc(fields: seq<string>, f: string, meta: Meta)
    ensures InitFields(fields + [f], meta) ==
            match InitFields(fields, meta)
            case None => None
            case Some(done) => if '=' !in f then None else Some(Put(done, FieldPair(f).0, FieldPair(f).1))
    decreases fields
  {
    if fields == [] {
      assert fields + [f] == [f] && [f][1..] == [];
    } else {
      assert (fields + [f])[1..] == fields[1..] + [f] && (fields + [f])[0] == fields[0];
      if '=' in fields[0] {
        var i := IndexOf(fields[0], '=');
        InitFieldsSnoc(fields[1..], f, Put(meta, Strip(fields[0][..i]), Strip(fields[0][i + 1..])));
      }
    }
  }

  lemma InitPairsSnoc(fields: seq<string>, f: string)
    ensures AllSplit(fields + [f]) <==> AllSplit(fields) && '=' in f
    ensures AllSplit(fields + [f]) ==> InitPairs(fields + [f]) == InitPairs(fields) + [FieldPair(f)]
  {
    var more := fields + [f];
    assert forall x :: x in more <==> x in fields || x == f;
    if AllSplit(more) { assert forall i | 0 <= i < |fields| :: more[i] == fields[i]; }
  }

  lemma PutPairsSnoc(pairs: Meta, p: (string, string))
    ensures PutPairs(pairs + [p]) == Put(PutPairs(pairs), p.0, p.1)
  {
    assert (pairs + [p])[..|pairs|] == pairs;
  }

  /** `init` refuses its fields exactly when one has no `=`, and otherwise starts from the dict of their pairs. */
  lemma {:induction false} InitExact(fields: seq<string>)
    ensures InitFields(fields, []).Some? <==> AllSplit(fields)
    ensures AllSplit(fields) ==> InitFields(fields, []) == Some(PutPairs(InitPairs(fields)))
  {
    if fields == [] {
      assert InitPairs([]) == [];
    } else {
      var front, last := fields[..|fields| - 1], fields[|fields| - 1];
      assert fields == front + [last];
      InitExact(front);
      InitFieldsSnoc(front, last, []);
      InitPairsSnoc(front, last);
      if AllSplit(fields) { PutPairsSnoc(InitPairs(front), FieldPair(last)); }
      hide AllSplit, InitPairs, PutPairs, FieldPair, InitFields;
    }
  }

  datatype Outcome = Outcome(disk: Disk, reply: Reply)

  function Execute(d: Disk, c: Command, now: string, crash: Crash): Outcome {
    match Planned(d.target, c, now)
    case Err(r) => Outcome(d, r)
    case Ok(log) => Outcome(Written(d, Render(log), crash), if crash.Never? then Ack(EntryCount(log.body)) else Died)
  }

  /** When a command refuses, and what it then prints; a refusal changes nothing. Otherwise it prints the
      count, unless it dies. */
  lemma RepliesExact(d: Disk, c: Command, now: string, crash: Crash)
    ensures var out := Execute(d, c, now, crash);
            && (out.reply == AlreadyExists <==> c.Init? && d.target.Some?)
            && (out.reply == BadField <==> c.Init? && d.target.None? && !AllSplit(c.fields))
            && (out.reply == NoFile <==> !c.Init? && d.target.None?)
            && (forall e :: out.reply == Malformed(e) <==>
                            !c.Init? && d.target.Some? && Split(d.target.value) == Err(e))
            && (out.reply.Ack? || out.reply.Died? || out.disk == d)
            && (out.reply.Ack? ==> crash.Never?) && (out.reply.Died? ==> !crash.Never?)
  {
    if c.Init? { InitExact(c.fields); }
  }

  /** The run folder: the log and the temporary file beside it. */
  class Folder {
    var target: Option<string>
    var tmp: Option<string>

    function State(): Disk
      reads this
    {
      Disk(target, tmp)
    }

    constructor ()
      ensures State() == Disk(None, None)
    {
      target, tmp := None, None;
    }

    method WriteAtomic(text: string, crash: Crash) returns (alive: bool)
      modifies this
      ensures State() == Written(old(State()), text, crash)
      ensures alive <==> crash.Never?
    {
      if crash.BeforeOpen? { return false; }
      tmp := Some("");
      if crash.Writing? {
        tmp := Some(text[..if crash.k <= |text| then crash.k else |text|]);
        return false;
      }
      tmp := Some(text);
      if crash.BeforeReplace? { return false; }
      target, tmp := tmp, None;
      alive := crash.Never?;
    }

    method Finish(log: Log, crash: Crash) returns (reply: Reply)
      modifies this
      ensures State() == Written(old(State()), Render(log), crash)
      ensures reply == if crash.Never? then Ack(EntryCount(log.body)) else Died
    {
      var alive := WriteAtomic(Render(log), crash);
      reply := if alive then Ack(EntryCount(log.body)) else Died;
    }

    method CmdInit(fields: seq<string>, now: string, crash: Crash) returns (reply: Reply)
      modifies this
      ensures Outcome(State(), reply) == Execute(old(State()), Init(fields), now, crash)
    {
      if target.Some? { return AlreadyExists; }
      var meta: Meta := [];
      for i := 0 to |fields|
        invariant InitFields(fields[i..], meta) == InitFields(fields, [])
      {
        if '=' !in fields[i] { return BadField; }
        var k := IndexOf(fields[i], '=');
        assert fields[i..][1..] == fields[i + 1..];
        meta := Put(meta, Strip(fields[i][..k]), Strip(fields[i][k + 1..]));
      }
      var front := new Frontmatter(meta);
      front.Touch(now);
      reply := Finish(Log(front.items, ""), crash);
    }

    method CmdAppend(text: string, kind: string, author: string, now: string, crash: Crash) returns (reply: Reply)
      modifies this
      ensures Outcome(State(), reply) == Execute(old(State()), Append(text, kind, author), now, crash)
    {
      if target.None? { return NoFile; }
      var log := SplitText(target.value);
      if log.Err? { return Malformed(log.error); }
      var front := new Frontmatter(log.value.meta);
      front.Touch(now);
      reply := Finish(Log(front.items, NextBody(log.value.body, Entry(text, kind, author))), crash);
    }

    method CmdSet(key: string, value: string, now: string, crash: Crash) returns (reply: Reply)
      modifies this
      ensures Outcome(State(), reply) == Execute(old(State()), Set(key, value), now, crash)
    {
      if target.None? { return NoFile; }
      var log := SplitText(target.value);
      if log.Err? { return Malformed(log.error); }
      var front := new Frontmatter(Put(log.value.meta, key, value));
      front.Touch(now);
      reply := Finish(Log(front.items, log.value.body), crash);
    }
  }

  // ---------------------------------------------------------------- what the file stands for

  datatype Event = Event(command: Command, now: string, crash: Crash)

  ghost predicate GoodFields(fields: seq<string>) {
    forall f | f in fields && '=' in f :: GoodKey(Strip(f[..IndexOf(f, '=')]))
  }

  /** Keys fit a line, an entry's tag has no line break, the clock shows a plain stamp. */
  ghost predicate GoodEvent(e: Event) {
    && NoBreak(e.now) && Trimmed(e.now)
    && match e.command
       case Init(fields) => GoodFields(fields)
       case Append(_, kind, author) => NoBreak(Tag(kind, author))
       case Set(key, _) => GoodKey(key)
  }

  datatype History = History(meta: Meta, entries: seq<string>)

  /** The log without its text: only what landed counts. */
  function After(h: Option<History>, e: Event): Option<History> {
    if !Landed(e.crash) then h
    else
      match e.command
      case Init(fields) =>
        if h.Some? then h
        else (match InitFields(fields, [])
          case None => None
          case Some(meta) => Some(History(Touched(Settled(meta), e.now), [])))
      case Append(text, kind, author) =>
        if h.None? then h
        else Some(History(Touched(h.value.meta, e.now), h.value.entries + [Entry(text, kind, author)]))
      case Set(key, value) =>
        if h.None? then h
        else Some(History(Touched(Put(h.value.meta, key, SettledValue(value)), e.now), h.value.entries))
  }

  ghost predicate GoodHistory(h: History) {
    && GoodKeys(h.meta) && Distinct(h.meta) && Settled(h.meta) == h.meta
    && h.meta != [] && h.meta[|h.meta| - 1].0 == UPDATED
    && GoodEntries(h.entries)
  }

  /** The file parses, its fields and entries are the history's, and `updated` is its last field. */
  ghost predicate Holds(target: Option<string>, h: Option<History>) {
    match h
    case None => target.None?
    case Some(x) => target.Some? && GoodHistory(x) && Split(target.value) == Ok(Log(x.meta, Body(x.entries)))
  }

  lemma {:induction false} SettledConcat(a: Meta, b: Meta)
    ensures Settled(a + b) == Settled(a) + Settled(b)
  {
    if a == [] {
      assert a + b == b;
    } else {
      SettledConcat(a[1..], b);
      Text.HeadTail(a, b);
      Text.Assoc([(a[0].0, SettledValue(a[0].1))], Settled(a[1..]), Settled(b));
    }
  }

  lemma {:induction false} SettledRemove(meta: Meta, k: string)
    ensures Settled(Remove(meta, k)) == Remove(Settled(meta), k)
  {
    if meta != [] { SettledRemove(meta[1..], k); }
  }

  lemma {:induction false} SettledPut(meta: Meta, k: string, v: string)
    ensures Settled(Put(meta, k, v)) == Put(Settled(meta), k, SettledValue(v))
  {
    if meta != [] && meta[0].0 != k { SettledPut(meta[1..], k, v); }
  }

  lemma SettledTouched(meta: Meta, now: string)
    requires NoBreak(now) && Trimmed(now)
    ensures Settled(Touched(meta, now)) == Touched(Settled(meta), now)
  {
    SettledConcat(Remove(meta, UPDATED), [(UPDATED, now)]);
    SettledRemove(meta, UPDATED);
    UnbrokenLine(now);
    StripTrimmed(now);
    assert Settled([(UPDATED, now)]) == [(UPDATED, now)] + Settled([]);
  }

  lemma SettledOnce(v: string)
    ensures SettledValue(SettledValue(v)) == SettledValue(v)
  {
    OneLineUnbroken(v);
    StripTrims(OneLine(v));
    UnbrokenLine(SettledValue(v));
    StripTrimmed(SettledValue(v));
  }

  lemma {:induction false} SettledTwice(meta: Meta)
    ensures Settled(Settled(meta)) == Settled(meta)
  {
    if meta != [] {
      SettledOnce(meta[0].1);
      SettledTwice(meta[1..]);
    }
  }

  lemma {:induction false} KeysSnoc(meta: Meta, f: (string, string))
    ensures Keys(meta + [f]) == Keys(meta) + [f.0]
    ensures Distinct(meta) && f.0 !in Keys(meta) ==> Distinct(meta + [f])
  {
    if meta == [] {
      assert meta + [f] == [f];
    } else {
      KeysSnoc(meta[1..], f);
      assert (meta + [f])[1..] == meta[1..] + [f];
    }
  }

  lemma TouchedGood(meta: Meta, now: string)
    requires GoodKeys(meta) && Distinct(meta)
    ensures GoodKeys(Touched(meta, now)) && Distinct(Touched(meta, now))
  {
    RemoveKeys(meta, UPDATED);
    KeysSnoc(Remove(meta, UPDATED), (UPDATED, now));
  }

  /** Whatever fields are written with a fresh stamp, the file then holds them and the entries. */
  lemma WriteHolds(meta: Meta, es: seq<string>, now: string)
    requires GoodKeys(meta) && Distinct(meta) && GoodEntries(es)
    requires NoBreak(now) && Trimmed(now)
    ensures Holds(Some(Render(Log(Touched(meta, now), Body(es)))), Some(History(Touched(Settled(meta), now), es)))
  {
    TouchedGood(meta, now);
    RenderSplit(Log(Touched(meta, now), Body(es)));
    BodyRead(es);
    SettledTouched(meta, now);
    SettledKeys(Touched(meta, now));
    SettledTwice(Touched(meta, now));
    DistinctByKeys(Touched(meta, now), Settled(Touched(meta, now)));
  }

  lemma {:induction false} DistinctByKeys(a: Meta, b: Meta)
    requires Keys(a) == Keys(b) && Distinct(a)
    ensures Distinct(b)
  {
    if a != [] && b != [] {
      assert Keys(a)[1..] == Keys(a[1..]) && Keys(b)[1..] == Keys(b[1..]);
      DistinctByKeys(a[1..], b[1..]);
    }
  }

  lemma PutGood(meta: Meta, k: string, v: string)
    requires GoodKeys(meta) && Distinct(meta) && GoodKey(k)
    ensures GoodKeys(Put(meta, k, v)) && Distinct(Put(meta, k, v))
  {
    PutKeys(meta, k, v);
  }

  lemma FirstFieldGood(fields: seq<string>)
    requires GoodFields(fields) && fields != []
    ensures GoodFields(fields[1..])
    ensures '=' in fields[0] ==> GoodKey(Strip(fields[0][..IndexOf(fields[0], '=')]))
  {
    assert fields[0] in fields;
    forall f | f in fields[1..] ensures f in fields {}
  }

  lemma {:induction false} InitGood(fields: seq<string>, meta: Meta, done: Meta)
    requires GoodFields(fields) && GoodKeys(meta) && Distinct(meta)
    requires InitFields(fields, meta) == Some(done)
    ensures GoodKeys(done) && Distinct(done)
    decreases fields
  {
    if fields != [] {
      var i := IndexOf(fields[0], '=');
      var k, v := Strip(fields[0][..i]), Strip(fields[0][i + 1..]);
      FirstFieldGood(fields);
      PutGood(meta, k, v);
      InitGood(fields[1..], Put(meta, k, v), done);
    }
  }

  /** What a completed command leaves, and the count it prints. */
  ghost predicate Completes(target: Option<string>, h: Option<History>, c: Command, now: string) {
    var next := After(h, Event(c, now, Never));
    match Planned(target, c, now)
    case Err(_) => next == h
    case Ok(log) => Holds(Some(Render(log)), next) && next.Some? && EntryCount(log.body) == |next.value.entries|
  }

  lemma InitCompletes(target: Option<string>, h: Option<History>, fields: seq<string>, now: string)
    requires Holds(target, h) && GoodFields(fields) && NoBreak(now) && Trimmed(now)
    ensures Completes(target, h, Init(fields), now)
  {
    if h.None? && InitFields(fields, []).Some? {
      InitGood(fields, [], InitFields(fields, []).value);
      WriteHolds(InitFields(fields, []).value, [], now);
    }
  }

  lemma AppendCompletes(target: Option<string>, h: Option<History>, text: string, kind: string, author: string,
                        now: string)
    requires Holds(target, h) && NoBreak(Tag(kind, author)) && NoBreak(now) && Trimmed(now)
    ensures Completes(target, h, Append(text, kind, author), now)
  {
    if h.Some? {
      var es, entry := h.value.entries, Entry(text, kind, author);
      EntryOneLine(text, kind, author);
      BodyAppended(es, entry);
      WriteHolds(h.value.meta, es + [entry], now);
      BodyLines(es + [entry]);
      AllCounted(es + [entry]);
    }
  }

  lemma SetCompletes(target: Option<string>, h: Option<History>, key: string, value: string, now: string)
    requires Holds(target, h) && GoodKey(key) && NoBreak(now) && Trimmed(now)
    ensures Completes(target, h, Set(key, value), now)
  {
    if h.Some? {
      PutKeys(h.value.meta, key, value);
      SettledPut(h.value.meta, key, value);
      WriteHolds(Put(h.value.meta, key, value), h.value.entries, now);
      BodyLines(h.value.entries);
      AllCounted(h.value.entries);
    }
  }

  lemma CommandCompletes(target: Option<string>, h: Option<History>, e: Event)
    requires Holds(target, h) && GoodEvent(e)
    ensures Completes(target, h, e.command, e.now)
  {
    match e.command
    case Init(fields) => InitCompletes(target, h, fields, e.now);
    case Append(text, kind, author) => AppendCompletes(target, h, text, kind, author, e.now);
    case Set(key, value) => SetCompletes(target, h, key, value, e.now);
  }

  lemma LandedOnly(h: Option<History>, e: Event)
    ensures After(h, e) == if Landed(e.crash) then After(h, Event(e.command, e.now, Never)) else h
  {
  }

  lemma ExecuteTarget(d: Disk, e: Event)
    ensures Execute(d, e.command, e.now, e.crash).disk.target ==
            match Planned(d.target, e.command, e.now)
            case Err(_) => d.target
            case Ok(log) => if Landed(e.crash) then Some(Render(log)) else d.target
  {
  }

  /** One command, with or without a crash: the file holds the history before or after it, and an
      acknowledgement counts the entries. */
  lemma StepHolds(d: Disk, h: Option<History>, e: Event)
    requires Holds(d.target, h) && GoodEvent(e)
    ensures Holds(Execute(d, e.command, e.now, e.crash).disk.target, After(h, e))
    ensures var r := Execute(d, e.command, e.now, e.crash).reply;
            r.Ack? ==> After(h, e).Some? && r.entries == |After(h, e).value.entries|
  {
    CommandCompletes(d.target, h, e);
    LandedOnly(h, e);
    ExecuteTarget(d, e);
  }

  // ---------------------------------------------------------------- whole runs

  function Run(d: Disk, events: seq<Event>): Disk
    decreases events
  {
    if events == [] then d
    else Run(Execute(d, events[0].command, events[0].now, events[0].crash).disk, events[1..])
  }

  function AfterAll(h: Option<History>, events: seq<Event>): Option<History>
    decreases events
  {
    if events == [] then h else AfterAll(After(h, events[0]), events[1..])
  }

  /** The entries of the appends that landed on a started log, in order. */
  function Completed(events: seq<Event>, started: bool): seq<string> {
    if events == [] then []
    else if !Landed(events[0].crash) then Completed(events[1..], started)
    else
      match events[0].command
      case Init(fields) => Completed(events[1..], started || InitFields(fields, []).Some?)
      case Append(text, kind, author) =>
        (if started then [Entry(text, kind, author)] else []) + Completed(events[1..], started)
      case Set(_, _) => Completed(events[1..], started)
  }

  /** The appends that landed on a log that an `init` had started, in order. */
  function LandedAppends(events: seq<Event>, started: bool): seq<Command> {
    if events == [] then []
    else if !Landed(events[0].crash) then LandedAppends(events[1..], started)
    else
      match events[0].command
      case Init(fields) => LandedAppends(events[1..], started || AllSplit(fields))
      case Append(_, _, _) =>
        (if started then [events[0].command] else []) + LandedAppends(events[1..], started)
      case Set(_, _) => LandedAppends(events[1..], started)
  }

  /** One entry for each append, in order. */
  ghost predicate EntriesFor(es: seq<string>, appends: seq<Command>) {
    |es| == |appends| &&
    forall i | 0 <= i < |es| ::
      appends[i].Append? && EntryFor(es[i], appends[i].text, appends[i].kind, appends[i].author)
  }

  lemma FirstEntryFor(c: Command, es: seq<string>, appends: seq<Command>)
    requires c.Append? && EntriesFor(es, appends)
    ensures EntriesFor([Entry(c.text, c.kind, c.author)] + es, [c] + appends)
  {
    hide EntryFor;
    EntryExact(Entry(c.text, c.kind, c.author), c.text, c.kind, c.author);
  }

  /** Whether a log is started after one more event. */
  function Starts(e: Event, started: bool): bool {
    started || (Landed(e.crash) && e.command.Init? && AllSplit(e.command.fields))
  }

  lemma OneMore(events: seq<Event>, started: bool)
    requires events != []
    ensures var e, next := events[0], Starts(events[0], started);
            && Completed(events, started) ==
               (if Landed(e.crash) && e.command.Append? && started
                then [Entry(e.command.text, e.command.kind, e.command.author)] else []) + Completed(events[1..], next)
            && LandedAppends(events, started) ==
               (if Landed(e.crash) && e.command.Append? && started then [e.command] else []) +
               LandedAppends(events[1..], next)
  {
    if events[0].command.Init? { InitExact(events[0].command.fields); }
  }

  lemma {:induction false} CompletedAre(events: seq<Event>, started: bool)
    ensures EntriesFor(Completed(events, started), LandedAppends(events, started))
  {
    if events != [] {
      var e, next := events[0], Starts(events[0], started);
      CompletedAre(events[1..], next);
      OneMore(events, started);
      if Landed(e.crash) && e.command.Append? && started {
        FirstEntryFor(e.command, Completed(events[1..], next), LandedAppends(events[1..], next));
      }
    }
  }

  lemma {:induction false} RunHolds(d: Disk, h: Option<History>, events: seq<Event>)
    requires Holds(d.target, h) && forall e | e in events :: GoodEvent(e)
    ensures Holds(Run(d, events).target, AfterAll(h, events))
    decreases events
  {
    if events != [] {
      var e := events[0];
      assert e in events;
      StepHolds(d, h, e);
      RunHolds(Execute(d, e.command, e.now, e.crash).disk, After(h, e), events[1..]);
    }
  }

  function EntriesOf(h: Option<History>): seq<string> {
    if h.Some? then h.value.entries else []
  }

  lemma {:induction false} CompletedEntries(h: Option<History>, events: seq<Event>)
    ensures EntriesOf(AfterAll(h, events)) == EntriesOf(h) + Completed(events, h.Some?)
    decreases events
  {
    if events == [] {
      assert EntriesOf(h) + [] == EntriesOf(h);
    } else {
      CompletedEntries(After(h, events[0]), events[1..]);
    }
  }

  /** After any run from an empty folder, with a crash at any step of any write, the file parses, its
      entries are the completed appends in order, and `updated` is its last field; before the first
      completed init there is no file. */
  lemma RunExact(events: seq<Event>)
    requires forall e | e in events :: GoodEvent(e)
    ensures Holds(Run(Disk(None, None), events).target, AfterAll(None, events))
    ensures match Run(Disk(None, None), events).target
            case None => Completed(events, false) == []
            case Some(text) =>
              && Split(text).Ok?
              && Split(text).value.meta != []
              && Split(text).value.meta[|Split(text).value.meta| - 1].0 == UPDATED
              && Lines(Split(text).value.body) == Completed(events, false)
    ensures EntriesFor(Completed(events, false), LandedAppends(events, false))
  {
    CompletedAre(events, false);
    RunHolds(Disk(None, None), None, events);
    CompletedEntries(None, events);
    var h := AfterAll(None, events);
    assert [] + Completed(events, false) == Completed(events, false);
    if h.Some? { BodyLines(h.value.entries); }
  }

  lemma {:induction false} RunSnoc(d: Disk, h: Option<History>, events: seq<Event>, e: Event)
    ensures Run(d, events + [e]) == Execute(Run(d, events), e.command, e.now, e.crash).disk
    ensures AfterAll(h, events + [e]) == After(AfterAll(h, events), e)
    decreases events
  {
    if events == [] {
      assert [e][1..] == [];
      assert events + [e] == [e];
    } else {
      Text.HeadTail(events, [e]);
      RunSnoc(Execute(d, events[0].command, events[0].now, events[0].crash).disk, After(h, events[0]), events[1..], e);
    }
  }

  /** Every acknowledgement prints the number of appends completed so far. */
  lemma AcknowledgedCount(events: seq<Event>, e: Event)
    requires GoodEvent(e) && forall x | x in events :: GoodEvent(x)
    ensures var r := Execute(Run(Disk(None, None), events), e.command, e.now, e.crash).reply;
            r.Ack? ==> r.entries == |Completed(events + [e], false)|
  {
    RunHolds(Disk(None, None), None, events);
    StepHolds(Run(Disk(None, None), events), AfterAll(None, events), e);
    RunSnoc(Disk(None, None), None, events, e);
    CompletedEntries(None, events + [e]);
  }

  /** An interrupted command is all or nothing, and the temporary file it leaves changes nothing later. */
  lemma AllOrNothing(d: Disk, c: Command, now: string, crash: Crash)
    ensures Execute(d, c, now, crash).disk.target == d.target ||
            Execute(d, c, now, crash).disk.target == Execute(d, c, now, Never).disk.target
    ensures forall tmp, next, t, k ::
              Execute(d.(tmp := tmp), next, t, k).disk.target == Execute(d, next, t, k).disk.target &&
              Execute(d.(tmp := tmp), next, t, k).reply == Execute(d, next, t, k).reply
  {
    forall tmp, next, t, k
      ensures Execute(d.(tmp := tmp), next, t, k).disk.target == Execute(d, next, t, k).disk.target
      ensures Execute(d.(tmp := tmp), next, t, k).reply == Execute(d, next, t, k).reply
    {
      ExecuteTarget(d.(tmp := tmp), Event(next, t, k));
      ExecuteTarget(d, Event(next, t, k));
    }
  }

  // ---------------------------------------------------------------- where the conditions are needed

  /** An appended entry is listed as one line after the others exactly when its tag has no line break. */
  lemma EntryKept(h: History, target: string, text: string, kind: string, author: string, now: string)
    requires Holds(Some(target), Some(h)) && NoBreak(now) && Trimmed(now)
    ensures var log := Planned(Some(target), Append(text, kind, author), now);
            && log.Ok? && Split(Render(log.value)).Ok?
            && (Lines(Split(Render(log.value)).value.body) == h.entries + [Entry(text, kind, author)] <==>
                NoBreak(Tag(kind, author)))
  {
    var entry := Entry(text, kind, author);
    var log := Planned(Some(target), Append(text, kind, author), now).value;
    EntryOneLine(text, kind, author);
    TouchedGood(h.meta, now);
    RenderSplit(log);
    if NoBreak(Tag(kind, author)) {
      AppendCompletes(Some(target), Some(h), text, kind, author, now);
      BodyLines(h.entries + [entry]);
    } else {
      LinesUnbroken(Split(Render(log)).value.body);
      assert entry in h.entries + [entry];
    }
  }
}
