/** The memory log: its text form, its commands, and the write that replaces the file in one step. */
module Memlog {
  import opened Wrappers
  import Text

  // ---------------------------------------------------------------- strings as Python sees them

  /** The line boundaries of `str.splitlines`. */
  predicate IsBreak(c: char) {
    var n := c as int;
    10 <= n <= 13 || 0x1C <= n <= 0x1E || n == 0x85 || n == 0x2028 || n == 0x2029
  }

  /** The whitespace of `str.strip` and `str.split`. */
  predicate IsSpace(c: char) {
    var n := c as int;
    || IsBreak(c) || n == 9 || n == 0x1F || n == 32 || n == 0xA0 || n == 0x1680
    || 0x2000 <= n <= 0x200A || n == 0x202F || n == 0x205F || n == 0x3000
  }

  /** The breaks, character by character, and the spaces beside them. */
  lemma BreaksListed(c: char)
    ensures IsBreak(c) <==> c in "\n\U{000B}\U{000C}\r\U{001C}\U{001D}\U{001E}\U{0085}\U{2028}\U{2029}"
    ensures IsSpace(c) <==>
            || c in "\t\n\U{000B}\U{000C}\r\U{001C}\U{001D}\U{001E}\U{001F} \U{0085}\U{00A0}\U{1680}"
            || c in "\U{2028}\U{2029}\U{202F}\U{205F}\U{3000}" || '\U{2000}' <= c <= '\U{200A}'
  {
  }

  predicate NoBreak(s: string) {
    forall c | c in s :: !IsBreak(c)
  }

  /** `splitlines`: a carriage return and line feed are one break, and a final break opens no line. */
  function Lines(s: string): seq<string>
    decreases |s|
  {
    if s == "" then []
    else if IsBreak(s[0]) then [""] + Lines(s[if "\r\n" <= s then 2 else 1..])
    else
      var rest := Lines(s[1..]);
      if rest == [] then [[s[0]]] else [[s[0]] + rest[0]] + rest[1..]
  }

  /** `' '.join(s.splitlines())` */
  function OneLine(s: string): string {
    Text.Join(Lines(s), ' ')
  }

  function StripLeft(s: string): string {
    if s != "" && IsSpace(s[0]) then StripLeft(s[1..]) else s
  }

  function StripRight(s: string): string {
    if s != "" && IsSpace(s[|s| - 1]) then StripRight(s[..|s| - 1]) else s
  }

  function Strip(s: string): string {
    StripRight(StripLeft(s))
  }

  function TrimLeft(s: string): string {
    if s != "" && s[0] == '\n' then TrimLeft(s[1..]) else s
  }

  function TrimRight(s: string): string {
    if s != "" && s[|s| - 1] == '\n' then TrimRight(s[..|s| - 1]) else s
  }

  /** `split()`, with the word being read. */
  function Words(s: string, word: string): seq<string> {
    if s == "" then if word == "" then [] else [word]
    else if !IsSpace(s[0]) then Words(s[1..], word + [s[0]])
    else (if word == "" then [] else [word]) + Words(s[1..], "")
  }

  function Collapse(s: string): string {
    Text.Join(Words(s, ""), ' ')
  }

  lemma {:induction false} LinesUnbroken(s: string)
    ensures forall l | l in Lines(s) :: NoBreak(l)
    decreases |s|
  {
    if s != "" {
      if IsBreak(s[0]) {
        LinesUnbroken(s[if "\r\n" <= s then 2 else 1..]);
      } else {
        LinesUnbroken(s[1..]);
        var rest := Lines(s[1..]);
        if rest != [] { assert rest[0] in rest; }
      }
    }
  }

  lemma {:induction false} JoinUnbroken(ls: seq<string>)
    requires forall l | l in ls :: NoBreak(l)
    ensures NoBreak(Text.Join(ls, ' '))
  {
    if |ls| > 0 {
      assert ls[0] in ls;
      if |ls| > 1 { JoinUnbroken(ls[1..]); }
    }
  }

  lemma OneLineUnbroken(s: string)
    ensures NoBreak(OneLine(s))
  {
    LinesUnbroken(s);
    JoinUnbroken(Lines(s));
  }

  lemma {:induction false} UnbrokenLine(s: string)
    requires NoBreak(s)
    ensures Lines(s) == if s == "" then [] else [s]
    ensures OneLine(s) == s
  {
    if s != "" {
      assert s[0] in s;
      UnbrokenLine(s[1..]);
      assert [s[0]] + s[1..] == s;
      var rest := Lines(s[1..]);
      if s[1..] == "" {
        assert s == [s[0]];
      } else {
        assert Lines(s) == [[s[0]] + rest[0]] + [];
      }
    }
  }

  lemma {:induction false} WordsUnbroken(s: string, word: string)
    requires NoBreak(word)
    ensures forall w | w in Words(s, word) :: NoBreak(w)
    decreases s
  {
    if s != "" {
      if IsSpace(s[0]) { WordsUnbroken(s[1..], ""); } else { WordsUnbroken(s[1..], word + [s[0]]); }
    }
  }

  predicate Trimmed(s: string) {
    s == "" || (!IsSpace(s[0]) && !IsSpace(s[|s| - 1]))
  }

  lemma {:induction false} StripTrims(s: string)
    ensures Trimmed(Strip(s)) && (NoBreak(s) ==> NoBreak(Strip(s)))
    ensures forall c | c in Strip(s) :: c in s
  {
    LeftTrims(s);
    RightTrims(StripLeft(s));
  }

  lemma {:induction false} LeftTrims(s: string)
    ensures StripLeft(s) == "" || !IsSpace(StripLeft(s)[0])
    ensures forall c | c in StripLeft(s) :: c in s
  {
    if s != "" && IsSpace(s[0]) { LeftTrims(s[1..]); }
  }

  lemma {:induction false} RightTrims(s: string)
    ensures StripRight(s) <= s
    ensures StripRight(s) == "" || !IsSpace(StripRight(s)[|StripRight(s)| - 1])
  {
    if s != "" && IsSpace(s[|s| - 1]) { RightTrims(s[..|s| - 1]); }
  }

  // ---------------------------------------------------------------- the frontmatter, a dict in source order

  type Meta = seq<(string, string)>

  function Keys(meta: Meta): seq<string> {
    if meta == [] then [] else [meta[0].0] + Keys(meta[1..])
  }

  /** `meta[k] = v` */
  function Put(meta: Meta, k: string, v: string): Meta {
    if meta == [] then [(k, v)]
    else if meta[0].0 == k then [(k, v)] + meta[1..]
    else [meta[0]] + Put(meta[1..], k, v)
  }

  /** `meta.pop(k, None)` */
  function Remove(meta: Meta, k: string): Meta {
    if meta == [] then []
    else if meta[0].0 == k then Remove(meta[1..], k)
    else [meta[0]] + Remove(meta[1..], k)
  }

  const UPDATED := "updated"

  /** The other fields in their order, then the stamp. */
  function Touched(meta: Meta, now: string): Meta {
    Remove(meta, UPDATED) + [(UPDATED, now)]
  }

  predicate Distinct(meta: Meta) {
    meta == [] || (meta[0].0 !in Keys(meta[1..]) && Distinct(meta[1..]))
  }

  lemma {:induction false} PutKeys(meta: Meta, k: string, v: string)
    ensures forall q :: q in Keys(Put(meta, k, v)) <==> q == k || q in Keys(meta)
    ensures Distinct(meta) ==> Distinct(Put(meta, k, v))
  {
    if meta != [] && meta[0].0 != k { PutKeys(meta[1..], k, v); }
  }

  lemma {:induction false} PutAbsent(meta: Meta, k: string, v: string)
    requires k !in Keys(meta)
    ensures Put(meta, k, v) == meta + [(k, v)]
  {
    if meta != [] {
      PutAbsent(meta[1..], k, v);
      assert meta == [meta[0]] + meta[1..];
    }
  }

  lemma {:induction false} RemoveKeys(meta: Meta, k: string)
    ensures forall q :: q in Keys(Remove(meta, k)) <==> q != k && q in Keys(meta)
    ensures Distinct(meta) ==> Distinct(Remove(meta, k))
  {
    if meta != [] { RemoveKeys(meta[1..], k); }
  }

  /** What `touch` does to the dict it is given. */
  class Frontmatter {
    var items: Meta

    constructor (meta: Meta)
      ensures items == meta
    {
      items := meta;
    }

    method Touch(now: string)
      modifies this
      ensures items == Touched(old(items), now)
    {
      items := Remove(items, UPDATED);
      RemoveKeys(old(items), UPDATED);
      PutAbsent(items, UPDATED, now);
      items := Put(items, UPDATED, now);
    }
  }

  // ---------------------------------------------------------------- reading and printing the file

  datatype ParseError = NoFrontmatter | NotTerminated

  datatype Log = Log(meta: Meta, body: string)

  const FENCE := "---"

  function IndexOf(s: string, c: char): (i: nat)
    requires c in s
    ensures i < |s| && s[i] == c && c !in s[..i]
  {
    if s[0] == c then 0 else
      var i := 1 + IndexOf(s[1..], c);
      assert s[..i] == [s[0]] + s[1..][..i - 1];
      i
  }

  /** One line of the frontmatter: split at its first colon, or passed over. */
  function AddField(meta: Meta, line: string): Meta {
    if ':' in line then Put(meta, Strip(line[..IndexOf(line, ':')]), Strip(line[IndexOf(line, ':') + 1..])) else meta
  }

  function AddFields(meta: Meta, lines: seq<string>): Meta
    decreases lines
  {
    if lines == [] then meta else AddFields(AddField(meta, lines[0]), lines[1..])
  }

  /** The first fence at or after a line, or the number of lines. */
  function NextFence(lines: seq<string>, i: nat): (end: nat)
    requires i <= |lines|
    ensures i <= end <= |lines|
    decreases |lines| - i
  {
    if i == |lines| || lines[i] == FENCE then i else NextFence(lines, i + 1)
  }

  function Split(text: string): Result<Log, ParseError> {
    var lines := Lines(text);
    if lines == [] || lines[0] != FENCE then Err(NoFrontmatter)
    else
      var end := NextFence(lines, 1);
      if end == |lines| then Err(NotTerminated)
      else Ok(Log(AddFields([], lines[1..end]), TrimLeft(Text.Join(lines[end + 1..], '\n'))))
  }

  method SplitText(text: string) returns (r: Result<Log, ParseError>)
    ensures r == Split(text)
  {
    var lines := Lines(text);
    if lines == [] || lines[0] != FENCE { return Err(NoFrontmatter); }
    var end := 1;
    while end < |lines| && lines[end] != FENCE
      invariant 1 <= end <= |lines| && NextFence(lines, 1) == NextFence(lines, end)
    {
      end := end + 1;
    }
    if end == |lines| { return Err(NotTerminated); }
    var meta: Meta := [];
    var fields := lines[1..end];
    for i := 0 to |fields|
      invariant AddFields(meta, fields[i..]) == AddFields([], fields)
    {
      assert fields[i..][1..] == fields[i + 1..];
      meta := AddField(meta, fields[i]);
    }
    r := Ok(Log(meta, TrimLeft(Text.Join(lines[end + 1..], '\n'))));
  }

  function FieldLine(f: (string, string)): string {
    f.0 + ": " + OneLine(f.1)
  }

  function FieldLines(meta: Meta): seq<string> {
    if meta == [] then [] else [FieldLine(meta[0])] + FieldLines(meta[1..])
  }

  function Render(log: Log): string {
    "---\n" + Text.Join(FieldLines(log.meta), '\n') + "\n---\n\n" + TrimRight(log.body) + "\n"
  }

  // ---------------------------------------------------------------- round trip

  function Unlines(ls: seq<string>): string {
    if ls == [] then "" else ls[0] + "\n" + Unlines(ls[1..])
  }

  lemma {:induction false} UnlinesJoin(ls: seq<string>)
    requires ls != []
    ensures Unlines(ls) == Text.Join(ls, '\n') + "\n"
  {
    if |ls| == 1 {
      assert ls[0] + "\n" + "" == ls[0] + "\n";
    } else {
      UnlinesJoin(ls[1..]);
    }
  }

  lemma {:induction false} LinesCons(l: string, rest: string)
    requires NoBreak(l)
    ensures Lines(l + "\n" + rest) == [l] + Lines(rest)
  {
    var s := l + "\n" + rest;
    if l == "" {
      assert s[0] == '\n' && s[1..] == rest;
    } else {
      LinesCons(l[1..], rest);
      assert s[1..] == l[1..] + "\n" + rest;
      assert l == [l[0]] + l[1..];
    }
  }

  lemma {:induction false} LinesUnlines(ls: seq<string>, rest: string)
    requires forall l | l in ls :: NoBreak(l)
    ensures Lines(Unlines(ls) + rest) == ls + Lines(rest)
  {
    if ls == [] {
      assert Unlines(ls) + rest == rest;
    } else {
      assert ls[0] in ls;
      LinesUnlines(ls[1..], rest);
      LinesCons(ls[0], Unlines(ls[1..]) + rest);
      Text.Assoc(ls[0] + "\n", Unlines(ls[1..]), rest);
      Text.Assoc([ls[0]], ls[1..], Lines(rest));
      assert ls == [ls[0]] + ls[1..];
    }
  }

  /** Keys that a frontmatter line can hold. */
  predicate GoodKey(k: string) {
    ':' !in k && NoBreak(k) && Trimmed(k)
  }

  ghost predicate GoodKeys(meta: Meta) {
    forall k | k in Keys(meta) :: GoodKey(k)
  }

  /** A value as it is read back. */
  function SettledValue(v: string): string {
    Strip(OneLine(v))
  }

  function Settled(meta: Meta): Meta {
    if meta == [] then [] else [(meta[0].0, SettledValue(meta[0].1))] + Settled(meta[1..])
  }

  lemma {:induction false} LeftTrimmed(s: string)
    requires s == "" || !IsSpace(s[0])
    ensures StripLeft(s) == s && StripLeft([' '] + s) == s
  {
    assert ([' '] + s)[1..] == s;
  }

  lemma {:induction false} StripSpace(v: string)
    ensures Strip([' '] + v) == Strip(v)
  {
    assert ([' '] + v)[1..] == v;
  }

  lemma StripTrimmed(s: string)
    requires Trimmed(s)
    ensures Strip(s) == s
  {
    LeftTrimmed(s);
  }

  lemma {:induction false} FirstIndex(a: string, c: char, b: string)
    requires c !in a
    ensures IndexOf(a + [c] + b, c) == |a|
  {
    if a != "" {
      FirstIndex(a[1..], c, b);
      assert (a + [c] + b)[1..] == a[1..] + [c] + b;
    }
  }

  /** A printed field is one line, no fence, and reads back as its key and its settled value. */
  lemma FieldRead(meta: Meta, f: (string, string))
    requires GoodKey(f.0)
    ensures NoBreak(FieldLine(f)) && FieldLine(f) != FENCE
    ensures AddField(meta, FieldLine(f)) == Put(meta, f.0, SettledValue(f.1))
  {
    OneLineUnbroken(f.1);
    var line := FieldLine(f);
    var v := OneLine(f.1);
    assert line == f.0 + [':'] + ([' '] + v);
    FirstIndex(f.0, ':', [' '] + v);
    var i := |f.0|;
    assert line[..i] == f.0;
    assert line[i + 1..] == [' '] + v;
    StripTrimmed(f.0);
    StripSpace(v);
  }

  lemma {:induction false} FieldsPrinted(meta: Meta)
    requires GoodKeys(meta)
    ensures |FieldLines(meta)| == |meta|
    ensures forall l | l in FieldLines(meta) :: NoBreak(l) && l != FENCE
  {
    if meta != [] {
      assert meta[0].0 in Keys(meta);
      FieldRead([], meta[0]);
      FieldsPrinted(meta[1..]);
    }
  }

  /** The fields put one after the other, as reading does. */
  function PutAll(done: Meta, meta: Meta): Meta
    decreases meta
  {
    if meta == [] then done else PutAll(Put(done, meta[0].0, SettledValue(meta[0].1)), meta[1..])
  }

  lemma {:induction false} FieldsRead(done: Meta, meta: Meta)
    requires GoodKeys(meta)
    ensures AddFields(done, FieldLines(meta)) == PutAll(done, meta)
    decreases meta
  {
    if meta != [] {
      assert meta[0].0 in Keys(meta);
      FieldRead(done, meta[0]);
      FieldsRead(Put(done, meta[0].0, SettledValue(meta[0].1)), meta[1..]);
      assert FieldLines(meta)[1..] == FieldLines(meta[1..]);
    }
  }

  lemma {:induction false} PutAllDistinct(done: Meta, meta: Meta)
    requires Distinct(meta) && forall k | k in Keys(meta) :: k !in Keys(done)
    ensures PutAll(done, meta) == done + Settled(meta)
    decreases meta
  {
    if meta == [] {
      assert done + [] == done;
    } else {
      var k, v := meta[0].0, SettledValue(meta[0].1);
      assert k in Keys(meta);
      PutAbsent(done, k, v);
      PutKeys(done, k, v);
      PutAllDistinct(done + [(k, v)], meta[1..]);
      Text.Assoc(done, [(k, v)], Settled(meta[1..]));
    }
  }

  /** The printed frontmatter, line by line. */
  function HeadLines(meta: Meta): seq<string> {
    [FENCE] + (if meta == [] then [""] else FieldLines(meta)) + [FENCE, ""]
  }

  lemma {:induction false} UnlinesConcat(a: seq<string>, b: seq<string>)
    ensures Unlines(a + b) == Unlines(a) + Unlines(b)
  {
    if a == [] {
      assert a + b == b;
    } else {
      UnlinesConcat(a[1..], b);
      assert (a + b)[1..] == a[1..] + b;
    }
  }

  lemma RenderLines(log: Log)
    ensures Render(log) == Unlines(HeadLines(log.meta)) + (TrimRight(log.body) + "\n")
  {
    var fields := if log.meta == [] then [""] else FieldLines(log.meta);
    assert Text.Join(fields, '\n') == Text.Join(FieldLines(log.meta), '\n');
    UnlinesConcat([FENCE] + fields, [FENCE, ""]);
    UnlinesConcat([FENCE], fields);
    UnlinesJoin(fields);
    assert Unlines([FENCE, ""]) == "---\n\n" by {
      assert [FENCE, ""][1..] == [""];
      assert Unlines([""]) == "\n";
    }
    assert Unlines([FENCE]) == "---\n";
  }

  lemma {:induction false} FenceFound(lines: seq<string>, i: nat, end: nat)
    requires i <= end < |lines| && lines[end] == FENCE
    requires forall j | i <= j < end :: lines[j] != FENCE
    ensures NextFence(lines, i) == end
    decreases end - i
  {
    if i < end { FenceFound(lines, i + 1, end); }
  }

  lemma SplitLines(text: string, fields: seq<string>, rest: seq<string>)
    requires Lines(text) == [FENCE] + fields + ([FENCE] + rest)
    requires forall l | l in fields :: l != FENCE
    ensures Split(text) == Ok(Log(AddFields([], fields), TrimLeft(Text.Join(rest, '\n'))))
  {
    var lines := Lines(text);
    var end := 1 + |fields|;
    forall j | 1 <= j < end ensures lines[j] != FENCE { assert lines[j] == fields[j - 1] && fields[j - 1] in fields; }
    FenceFound(lines, 1, end);
    assert lines[1..end] == fields && lines[end + 1..] == rest;
  }

  /** What is read back of a printed log whose keys fit their lines. */
  lemma RenderSplit(log: Log)
    requires GoodKeys(log.meta) && Distinct(log.meta)
    ensures Split(Render(log)) ==
            Ok(Log(Settled(log.meta), TrimLeft(Text.Join([""] + Lines(TrimRight(log.body) + "\n"), '\n'))))
  {
    var meta, tail := log.meta, TrimRight(log.body) + "\n";
    var fields := if meta == [] then [""] else FieldLines(meta);
    FieldsPrinted(meta);
    RenderLines(log);
    LinesUnlines(HeadLines(meta), tail);
    assert HeadLines(meta) + Lines(tail) == [FENCE] + fields + ([FENCE] + ([""] + Lines(tail)));
    SplitLines(Render(log), fields, [""] + Lines(tail));
    FieldsRead([], meta);
    PutAllDistinct([], meta);
    assert [] + Settled(meta) == Settled(meta);
  }

  /** Whatever is read, its keys fit their lines and are distinct, and its values are settled. */
  lemma {:induction false} ReadKeysGood(meta: Meta, lines: seq<string>)
    requires Distinct(meta) && GoodKeys(meta) && forall l | l in lines :: NoBreak(l)
    ensures Distinct(AddFields(meta, lines)) && GoodKeys(AddFields(meta, lines))
    decreases lines
  {
    if lines != [] {
      var l := lines[0];
      if ':' in l {
        var i := IndexOf(l, ':');
        var k := Strip(l[..i]);
        assert l in lines;
        assert NoBreak(l[..i]);
        StripTrims(l[..i]);
        assert GoodKey(k);
        PutKeys(meta, k, Strip(l[i + 1..]));
      }
      ReadKeysGood(AddField(meta, l), lines[1..]);
    }
  }

  lemma {:induction false} SettledKeys(meta: Meta)
    ensures Keys(Settled(meta)) == Keys(meta)
  {
    if meta != [] { SettledKeys(meta[1..]); }
  }

  /** The fields of a printed log come back exactly when every key has no colon, no line break and no
      outer space. */
  lemma FieldsKept(log: Log)
    requires Distinct(log.meta)
    ensures (Split(Render(log)).Ok? && Keys(Split(Render(log)).value.meta) == Keys(log.meta)) <==> GoodKeys(log.meta)
  {
    if GoodKeys(log.meta) {
      RenderSplit(log);
      SettledKeys(log.meta);
    }
    if Split(Render(log)).Ok? {
      var lines := Lines(Render(log));
      LinesUnbroken(Render(log));
      ReadKeysGood([], lines[1..NextFence(lines, 1)]);
    }
  }
}
