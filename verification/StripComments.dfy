/** The comment stripper of the survey-advisory gate: line by line, with a block state carried across. */
module StripComments {
  import opened Wrappers
  import opened Text

  const OPEN := Pair('/', '*')
  const CLOSE := Pair('*', '/')
  const SLASHES := Pair('/', '/')
  const DASHES := Pair('-', '-')

  datatype Line = Line(text: string, inBlock: bool)

  /** Delete block comments until none opens; after each deletion the line is read from its start again. */
  function DropBlocks(line: string): Line
    decreases |line|
  {
    match Find(line, OPEN, 0)
    case None => Line(line, false)
    case Some(start) =>
      match Find(line, CLOSE, start + 2)
      case None => Line(line[..start], true)
      case Some(end) => DropBlocks(line[..start] + line[end + 2..])
  }

  function CutAt(line: string, p: Pair): string {
    match Find(line, p, 0) case None => line case Some(i) => line[..i]
  }

  function StripBlocks(raw: string, inBlock: bool): Line {
    if !inBlock then DropBlocks(raw)
    else
      match Find(raw, CLOSE, 0) case None => Line("", true) case Some(end) => DropBlocks(raw[end + 2..])
  }

  function StripLine(raw: string, inBlock: bool): Line {
    var l := StripBlocks(raw, inBlock);
    Line(CutAt(CutAt(l.text, SLASHES), DASHES), l.inBlock)
  }

  /** The stripped lines, and the block state left behind. */
  function StripLines(lines: seq<string>, inBlock: bool): seq<string> {
    if lines == [] then []
    else
      var front := lines[..|lines| - 1];
      StripLines(front, inBlock) + [StripLine(lines[|lines| - 1], StateAfter(front, inBlock)).text]
  }

  function StateAfter(lines: seq<string>, inBlock: bool): bool {
    if lines == [] then inBlock
    else StripLine(lines[|lines| - 1], StateAfter(lines[..|lines| - 1], inBlock)).inBlock
  }

  function Strip(source: string): seq<string> {
    StripLines(Split(source, '\n'), false)
  }

  /** The inner loop. */
  method DropBlocksLoop(text: string) returns (line: string, inBlock: bool)
    ensures Line(line, inBlock) == DropBlocks(text)
  {
    line, inBlock := text, false;
    while true
      invariant !inBlock && DropBlocks(line) == DropBlocks(text)
      decreases |line|
    {
      var start := Find(line, OPEN, 0);
      if start.None? { return; }
      var end := Find(line, CLOSE, start.value + 2);
      if end.None? {
        line, inBlock := line[..start.value], true;
        return;
      }
      line := line[..start.value] + line[end.value + 2..];
    }
  }

  /** The body of the outer loop. */
  method StripOne(raw: string, was: bool) returns (line: string, inBlock: bool)
    ensures Line(line, inBlock) == StripLine(raw, was)
  {
    line := raw;
    if was {
      var end := Find(line, CLOSE, 0);
      if end.None? { return "", true; }
      line := line[end.value + 2..];
    }
    line, inBlock := DropBlocksLoop(line);
    var slash := Find(line, SLASHES, 0);
    if slash.Some? { line := line[..slash.value]; }
    var dash := Find(line, DASHES, 0);
    if dash.Some? { line := line[..dash.value]; }
  }

  /** `stripComments`. */
  method StripCommentsLoop(source: string) returns (out: seq<string>)
    ensures out == Strip(source)
  {
    var lines := Split(source, '\n');
    out := [];
    var inBlock := false;
    for i := 0 to |lines|
      invariant out == StripLines(lines[..i], false) && inBlock == StateAfter(lines[..i], false)
    {
      assert lines[..i + 1][..i] == lines[..i];
      var line;
      line, inBlock := StripOne(lines[i], inBlock);
      out := out + [line];
    }
    assert lines[..|lines|] == lines;
  }

  // ---------------------------------------------------------------- one line

  predicate NoComment(line: string) {
    !Contains(line, OPEN) && !Contains(line, SLASHES) && !Contains(line, DASHES)
  }

  lemma PrefixContains(s: string, k: nat, p: Pair)
    requires k <= |s| && Contains(s[..k], p)
    ensures Contains(s, p)
  {
    var i :| 0 <= i < k && OccursAt(s[..k], p, i);
    assert OccursAt(s, p, i);
  }

  lemma PrefixClean(line: string, p: Pair, k: nat)
    requires Find(line, p, 0) == Some(k)
    ensures !Contains(line[..k], p)
  {
    forall i | 0 <= i < k ensures !OccursAt(line[..k], p, i) {
      assert OccursAt(line[..k], p, i) ==> OccursAt(line, p, i);
    }
  }

  lemma CutClean(line: string, p: Pair)
    ensures !Contains(CutAt(line, p), p)
    ensures |CutAt(line, p)| <= |line| && CutAt(line, p) == line[..|CutAt(line, p)|]
    ensures !Contains(line, p) ==> CutAt(line, p) == line
  {
    match Find(line, p, 0)
    case None =>
    case Some(k) => PrefixClean(line, p, k);
  }

  lemma PrefixSubsequence(s: string, k: nat)
    requires k <= |s|
    ensures Subsequence(s[..k], s)
  {
    DeleteIsSubsequence(s, k, |s|);
    assert s[..k] + s[|s|..] == s[..k];
  }

  /** Deleting blocks leaves a subsequence. */
  lemma {:induction false} DropBlocksSubsequence(line: string)
    ensures Subsequence(DropBlocks(line).text, line)
    decreases |line|
  {
    match Find(line, OPEN, 0)
    case None =>
      PrefixSubsequence(line, |line|);
      assert line[..|line|] == line;
    case Some(start) =>
      match Find(line, CLOSE, start + 2) {
        case None => PrefixSubsequence(line, start);
        case Some(end) =>
          var shorter := line[..start] + line[end + 2..];
          hide Subsequence;
          DeleteIsSubsequence(line, start, end + 2);
          DropBlocksSubsequence(shorter);
          SubsequenceTransitive(DropBlocks(shorter).text, shorter, line);
      }
  }

  /** No block opener is left. */
  lemma {:induction false} DropBlocksClean(line: string)
    ensures !Contains(DropBlocks(line).text, OPEN)
    decreases |line|
  {
    if Find(line, OPEN, 0).Some? {
      var start := Find(line, OPEN, 0).value;
      match Find(line, CLOSE, start + 2)
      case None => PrefixClean(line, OPEN, start);
      case Some(end) => DropBlocksClean(line[..start] + line[end + 2..]);
    }
  }

  lemma DropBlocksUntouched(line: string)
    requires !Contains(line, OPEN)
    ensures DropBlocks(line) == Line(line, false)
  {
  }

  lemma CutsClean(text: string)
    requires !Contains(text, OPEN)
    ensures var out := CutAt(CutAt(text, SLASHES), DASHES);
            NoComment(out) && Subsequence(out, text) && (NoComment(text) ==> out == text)
  {
    var a := CutAt(text, SLASHES);
    var b := CutAt(a, DASHES);
    CutClean(text, SLASHES);
    CutClean(a, DASHES);
    assert b == text[..|b|];
    if Contains(b, OPEN) { PrefixContains(text, |b|, OPEN); }
    if Contains(b, SLASHES) { PrefixContains(a, |b|, SLASHES); }
    PrefixSubsequence(text, |b|);
  }

  /** A stripped line is the raw line with characters left out and no comment opener in it; a line
      without openers, outside a block, is untouched. */
  lemma StripLineClean(raw: string, inBlock: bool)
    ensures NoComment(StripLine(raw, inBlock).text)
    ensures Subsequence(StripLine(raw, inBlock).text, raw)
    ensures !inBlock && NoComment(raw) ==> StripLine(raw, inBlock) == Line(raw, false)
  {
    var l := StripBlocks(raw, inBlock);
    if !inBlock {
      DropBlocksClean(raw);
      DropBlocksSubsequence(raw);
      if NoComment(raw) { DropBlocksUntouched(raw); }
    } else if Find(raw, CLOSE, 0).Some? {
      var k := Find(raw, CLOSE, 0).value + 2;
      DropBlocksClean(raw[k..]);
      DropBlocksSubsequence(raw[k..]);
      SubsequenceSkip(raw[..k], raw[k..]);
      assert raw[..k] + raw[k..] == raw;
      SubsequenceTransitive(l.text, raw[k..], raw);
    }
    CutsClean(l.text);
    SubsequenceTransitive(StripLine(raw, inBlock).text, l.text, raw);
  }

  /** A `//` or a `--` starts at `i`. */
  predicate CommentAt(text: string, i: int) {
    0 <= i && i + 1 < |text| && ((text[i] == '/' && text[i + 1] == '/') || (text[i] == '-' && text[i + 1] == '-'))
  }

  /** `out` is the text up to the first `//` or `--` in it, or all of it when there is none. */
  ghost predicate UpToComment(out: string, text: string) {
    && out <= text
    && (forall i | 0 <= i < |out| :: !CommentAt(text, i))
    && (out == text || CommentAt(text, |out|))
  }

  lemma CutExact(text: string, p: Pair)
    ensures CutAt(text, p) <= text
    ensures forall i | 0 <= i < |CutAt(text, p)| :: !OccursAt(text, p, i)
    ensures CutAt(text, p) == text || OccursAt(text, p, |CutAt(text, p)|)
  {
  }

  lemma CutsExact(text: string)
    ensures UpToComment(CutAt(CutAt(text, SLASHES), DASHES), text)
  {
    var a := CutAt(text, SLASHES);
    var b := CutAt(a, DASHES);
    CutExact(text, SLASHES);
    CutExact(a, DASHES);
    hide CutAt;
    assert forall i | 0 <= i < |b| :: OccursAt(text, DASHES, i) ==> OccursAt(a, DASHES, i) || i + 1 == |a|;
    assert b != a ==> OccursAt(text, DASHES, |b|);
    forall i ensures CommentAt(text, i) <==> OccursAt(text, SLASHES, i) || OccursAt(text, DASHES, i) {}
    forall i | 0 <= i < |b| ensures !OccursAt(text, DASHES, i) {
      if i + 1 == |a| && a != text { assert text[|a|] == '/'; }
    }
  }

  /** What is left of a line once its blocks are gone is cut at its first line comment; a line without a block
      opener, outside a block, is only cut. */
  lemma StripLineCut(raw: string, inBlock: bool)
    ensures UpToComment(StripLine(raw, inBlock).text, StripBlocks(raw, inBlock).text)
    ensures !inBlock && !Contains(raw, OPEN) ==>
              UpToComment(StripLine(raw, false).text, raw) && !StripLine(raw, false).inBlock
  {
    CutsExact(StripBlocks(raw, inBlock).text);
    if !Contains(raw, OPEN) { DropBlocksUntouched(raw); }
  }

  // ---------------------------------------------------------------- one text

  lemma {:induction false} StripLinesClean(lines: seq<string>, inBlock: bool)
    ensures |StripLines(lines, inBlock)| == |lines|
    ensures forall i | 0 <= i < |lines| ::
              NoComment(StripLines(lines, inBlock)[i]) && Subsequence(StripLines(lines, inBlock)[i], lines[i])
  {
    if lines != [] {
      var front, last := lines[..|lines| - 1], lines[|lines| - 1];
      StripLinesClean(front, inBlock);
      StripLineClean(last, StateAfter(front, inBlock));
    }
  }

  lemma {:induction false} StripCleanLines(lines: seq<string>)
    requires forall l | l in lines :: NoComment(l)
    ensures StripLines(lines, false) == lines && !StateAfter(lines, false)
  {
    if lines != [] {
      var front, last := lines[..|lines| - 1], lines[|lines| - 1];
      assert lines == front + [last] && last in lines;
      StripCleanLines(front);
      StripLineClean(last, false);
    }
  }

  /** The output has the input's lines, each a subsequence of its line with no comment opener left. */
  lemma StripClean(source: string)
    ensures |Strip(source)| == |Split(source, '\n')|
    ensures forall i | 0 <= i < |Strip(source)| ::
              NoComment(Strip(source)[i]) && Subsequence(Strip(source)[i], Split(source, '\n')[i])
  {
    StripLinesClean(Split(source, '\n'), false);
  }

  /** Stripping the stripped text changes nothing. */
  lemma StripIdempotent(source: string)
    ensures Strip(Join(Strip(source), '\n')) == Strip(source)
  {
    var lines, out := Split(source, '\n'), Strip(source);
    StripLinesClean(lines, false);
    SplitParts(source, '\n');
    forall i | 0 <= i < |out| ensures '\n' !in out[i] { SubsequenceOver(out[i], lines[i], '\n'); }
    SplitJoin(out, '\n');
    StripCleanLines(out);
  }

  lemma StripSnoc(lines: seq<string>, l: string, inBlock: bool)
    ensures StripLines(lines + [l], inBlock) ==
            StripLines(lines, inBlock) + [StripLine(l, StateAfter(lines, inBlock)).text]
    ensures StateAfter(lines + [l], inBlock) == StripLine(l, StateAfter(lines, inBlock)).inBlock
  {
    assert (lines + [l])[..|lines|] == lines;
  }

  lemma {:induction false} StripLinesConcat(a: seq<string>, b: seq<string>, inBlock: bool)
    ensures StripLines(a + b, inBlock) == StripLines(a, inBlock) + StripLines(b, StateAfter(a, inBlock))
    ensures StateAfter(a + b, inBlock) == StateAfter(b, StateAfter(a, inBlock))
  {
    if b == [] {
      assert a + b == a;
    } else {
      var front, last := b[..|b| - 1], b[|b| - 1];
      assert b == front + [last] && a + b == (a + front) + [last];
      StripLinesConcat(a, front, inBlock);
      StripSnoc(a + front, last, inBlock);
      StripSnoc(front, last, StateAfter(a, inBlock));
    }
  }

  /** A text of two parts is the first part stripped, then the second from the state the first left. */
  lemma StripConcat(a: string, b: string)
    ensures Strip(a + "\n" + b) == Strip(a) + StripLines(Split(b, '\n'), StateAfter(Split(a, '\n'), false))
  {
    SplitConcat(a, b, '\n');
    StripLinesConcat(Split(a, '\n'), Split(b, '\n'), false);
  }

  // ---------------------------------------------------------------- against a single pass

  /** Reads the line once, left to right, dropping what lies in block comments. */
  function OnePass(s: string, inBlock: bool): Line
    decreases |s|
  {
    if s == "" then Line("", inBlock)
    else if inBlock then (if OccursAt(s, CLOSE, 0) then OnePass(s[2..], false) else OnePass(s[1..], true))
    else if OccursAt(s, OPEN, 0) then OnePass(s[2..], true)
    else Line([s[0]] + OnePass(s[1..], false).text, OnePass(s[1..], false).inBlock)
  }

  lemma {:induction false} OnePassCode(p: string, q: string)
    requires forall i | 0 <= i < |p| :: !OccursAt(p + q, OPEN, i)
    ensures OnePass(p + q, false) == Line(p + OnePass(q, false).text, OnePass(q, false).inBlock)
    decreases |p|
  {
    var s := p + q;
    if p == "" {
      assert s == q;
    } else {
      var p' := p[1..];
      assert s[1..] == p' + q;
      forall i | 0 <= i < |p'| ensures !OccursAt(p' + q, OPEN, i) { assert !OccursAt(s, OPEN, i + 1); }
      OnePassCode(p', q);
      assert !OccursAt(s, OPEN, 0);
      assert [s[0]] + (p' + OnePass(q, false).text) == p + OnePass(q, false).text;
    }
  }

  lemma {:induction false} OnePassBlock(s: string)
    ensures match Find(s, CLOSE, 0)
            case None => OnePass(s, true) == Line("", true)
            case Some(end) => OnePass(s, true) == OnePass(s[end + 2..], false)
    decreases |s|
  {
    if s != "" && !OccursAt(s, CLOSE, 0) {
      var s' := s[1..];
      OnePassBlock(s');
      assert forall i | 0 <= i :: OccursAt(s', CLOSE, i) <==> OccursAt(s, CLOSE, i + 1);
      match Find(s, CLOSE, 0)
      case None =>
      case Some(end) =>
        assert OccursAt(s', CLOSE, end - 1);
        assert s'[end + 1..] == s[end + 2..];
    }
  }

  lemma FindShift(s: string, p: Pair, k: nat)
    requires k <= |s|
    ensures match Find(s, p, k)
            case None => Find(s[k..], p, 0) == None
            case Some(i) => Find(s[k..], p, 0) == Some(i - k)
  {
    var t := s[k..];
    assert forall i | 0 <= i :: OccursAt(t, p, i) <==> OccursAt(s, p, i + k);
    match Find(s, p, k)
    case None =>
    case Some(i) => assert OccursAt(t, p, i - k);
  }

  lemma OnePassOpened(line: string, start: nat)
    requires Find(line, OPEN, 0) == Some(start)
    ensures OnePass(line, false) == Line(line[..start] + OnePass(line[start + 2..], true).text,
                                         OnePass(line[start + 2..], true).inBlock)
  {
    var p, q := line[..start], line[start..];
    assert p + q == line && OccursAt(q, OPEN, 0);
    OnePassCode(p, q);
    assert q[2..] == line[start + 2..];
  }

  lemma OnePassFirstBlock(line: string, start: nat)
    requires Find(line, OPEN, 0) == Some(start)
    ensures match Find(line, CLOSE, start + 2)
            case None => OnePass(line, false) == Line(line[..start], true)
            case Some(end) => OnePass(line, false) == Line(line[..start] + OnePass(line[end + 2..], false).text,
                                                           OnePass(line[end + 2..], false).inBlock)
  {
    hide OnePass;
    OnePassOpened(line, start);
    var rest := line[start + 2..];
    OnePassBlock(rest);
    FindShift(line, CLOSE, start + 2);
    match Find(line, CLOSE, start + 2)
    case None => assert line[..start] + "" == line[..start];
    case Some(end) => assert rest[end - start..] == line[end + 2..];
  }

  /** Deleting the first block, when no opener is left by the single pass: the text before and after it
      does not close up into one. */
  lemma DeletedHasNoOpener(line: string, start: nat, end: nat)
    requires Find(line, OPEN, 0) == Some(start) && start + 2 <= end <= |line|
    requires !Contains(line[..start] + OnePass(line[end..], false).text, OPEN)
    ensures forall i | 0 <= i < start :: !OccursAt(line[..start] + line[end..], OPEN, i)
  {
    var kept, shorter := line[..start] + OnePass(line[end..], false).text, line[..start] + line[end..];
    forall i | 0 <= i < start ensures !OccursAt(shorter, OPEN, i) {
      assert !OccursAt(line, OPEN, i);
      if i == start - 1 && OccursAt(shorter, OPEN, i) {
        assert line[end..][0] == '*' && !OccursAt(line[end..], OPEN, 0);
        assert OccursAt(kept, OPEN, i);
      }
    }
  }

  lemma OnePassPlain(line: string)
    requires Find(line, OPEN, 0) == None
    ensures OnePass(line, false) == Line(line, false)
  {
    assert line + "" == line;
    OnePassCode(line, "");
  }

  lemma {:induction false} DropBlocksOnePass(line: string)
    requires !Contains(OnePass(line, false).text, OPEN)
    ensures DropBlocks(line) == OnePass(line, false)
    decreases |line|
  {
    hide OnePass, Contains;
    match Find(line, OPEN, 0)
    case None => OnePassPlain(line);
    case Some(start) =>
      OnePassFirstBlock(line, start);
      match Find(line, CLOSE, start + 2) {
        case None =>
        case Some(end) =>
          DeletedHasNoOpener(line, start, end + 2);
          OnePassCode(line[..start], line[end + 2..]);
          DropBlocksOnePass(line[..start] + line[end + 2..]);
      }
  }

  /** Reading left to right, some block comment is closed between a `/` and a `*` that are kept: `slash`
      says that the character kept last is a `/`. */
  predicate Glued(s: string, inBlock: bool, slash: bool)
    decreases |s|
  {
    if s == "" then false
    else if inBlock then (if OccursAt(s, CLOSE, 0) then Glued(s[2..], false, slash) else Glued(s[1..], true, slash))
    else if OccursAt(s, OPEN, 0) then Glued(s[2..], true, slash)
    else (slash && s[0] == '*') || Glued(s[1..], false, s[0] == '/')
  }

  lemma ContainsCons(c: char, s: string)
    ensures Contains([c] + s, OPEN) <==> (c == '/' && s != "" && s[0] == '*') || Contains(s, OPEN)
  {
    var r := [c] + s;
    forall i | 0 <= i < |s| ensures OccursAt(s, OPEN, i) <==> OccursAt(r, OPEN, i + 1) {}
    if Contains(r, OPEN) {
      var i :| 0 <= i < |r| && OccursAt(r, OPEN, i);
      if i > 0 { assert OccursAt(s, OPEN, i - 1); }
    }
    if c == '/' && s != "" && s[0] == '*' { assert OccursAt(r, OPEN, 0); }
    if Contains(s, OPEN) {
      var i :| 0 <= i < |s| && OccursAt(s, OPEN, i);
      assert OccursAt(r, OPEN, i + 1);
    }
  }

  /** What the single pass keeps holds an opener exactly when a closed block stood between its two characters. */
  lemma {:induction false} GluedExact(s: string, inBlock: bool, slash: bool)
    ensures var kept := OnePass(s, inBlock).text;
            Glued(s, inBlock, slash) <==> (slash && kept != "" && kept[0] == '*') || Contains(kept, OPEN)
    decreases |s|
  {
    if s == "" {
    } else if inBlock {
      GluedExact(if OccursAt(s, CLOSE, 0) then s[2..] else s[1..], !OccursAt(s, CLOSE, 0), slash);
    } else if OccursAt(s, OPEN, 0) {
      GluedExact(s[2..], true, slash);
    } else {
      GluedExact(s[1..], false, s[0] == '/');
      ContainsCons(s[0], OnePass(s[1..], false).text);
    }
  }

  /** For every line and either block state, the repeated deletion is the single pass exactly when no closed
      block stands between a `/` and a `*`: deleting it would make an opener that was not there. */
  lemma StripBlocksOnePass(raw: string, inBlock: bool)
    ensures StripBlocks(raw, inBlock) == OnePass(raw, inBlock) <==> !Glued(raw, inBlock, false)
  {
    GluedExact(raw, inBlock, false);
    StripBlocksClean(raw, inBlock);
    if !inBlock {
      if !Glued(raw, false, false) { DropBlocksOnePass(raw); }
    } else {
      OnePassBlock(raw);
      match Find(raw, CLOSE, 0)
      case None =>
      case Some(end) => if !Glued(raw, true, false) { DropBlocksOnePass(raw[end + 2..]); }
    }
  }

  lemma StripBlocksClean(raw: string, inBlock: bool)
    ensures !Contains(StripBlocks(raw, inBlock).text, OPEN)
  {
    if !inBlock {
      DropBlocksClean(raw);
    } else if Find(raw, CLOSE, 0).Some? {
      DropBlocksClean(raw[Find(raw, CLOSE, 0).value + 2..]);
    }
  }

  /** Here the deletion opens a second block that the single pass does
      not see. */
  lemma GlueOpensBlock()
    ensures DropBlocks("//**/* a").inBlock && !OnePass("//**/* a", false).inBlock
  {
    var line := "//**/* a";
    assert OccursAt(line, OPEN, 1) && !OccursAt(line, OPEN, 0);
    assert OccursAt(line, CLOSE, 3);
    assert line[..1] + line[5..] == "/* a";
    assert OccursAt("/* a", OPEN, 0) && !OccursAt("/* a", CLOSE, 2) && !OccursAt("/* a", CLOSE, 3);
    assert line[1..] == "/**/* a" && line[1..][2..] == "*/* a" && "*/* a"[2..] == "* a";
    OnePassCode("* a", "");
    assert "* a" + "" == "* a";
  }

  // ---------------------------------------------------------------- the whole text against a single pass

  /** Reads the whole text once, dropping what lies in block comments and keeping every newline. */
  function TextPass(s: string, inBlock: bool): string
    decreases |s|
  {
    if s == "" then ""
    else if s[0] == '\n' then "\n" + TextPass(s[1..], inBlock)
    else if inBlock then (if OccursAt(s, CLOSE, 0) then TextPass(s[2..], false) else TextPass(s[1..], true))
    else if OccursAt(s, OPEN, 0) then TextPass(s[2..], true)
    else [s[0]] + TextPass(s[1..], false)
  }

  /** Somewhere in the text a closed block stands between a kept `/` and a kept `*` of one line. */
  predicate TextGlued(s: string, inBlock: bool, slash: bool)
    decreases |s|
  {
    if s == "" then false
    else if s[0] == '\n' then TextGlued(s[1..], inBlock, false)
    else if inBlock then
      if OccursAt(s, CLOSE, 0) then TextGlued(s[2..], false, slash) else TextGlued(s[1..], true, slash)
    else if OccursAt(s, OPEN, 0) then TextGlued(s[2..], true, slash)
    else (slash && s[0] == '*') || TextGlued(s[1..], false, s[0] == '/')
  }

  /** A line and what follows its newline are read one after the other. */
  lemma {:induction false} LinePassed(l: string, rest: string, inBlock: bool, slash: bool)
    requires '\n' !in l
    ensures TextPass(l + "\n" + rest, inBlock) ==
            OnePass(l, inBlock).text + "\n" + TextPass(rest, OnePass(l, inBlock).inBlock)
    ensures TextGlued(l + "\n" + rest, inBlock, slash) <==>
            Glued(l, inBlock, slash) || TextGlued(rest, OnePass(l, inBlock).inBlock, false)
    decreases |l|
  {
    var s := l + "\n" + rest;
    if l == "" {
      assert s[0] == '\n' && s[1..] == rest;
    } else {
      assert s[0] == l[0] && l[0] in l && s[1] == if |l| > 1 then l[1] else '\n';
      assert s[1..] == l[1..] + "\n" + rest;
      if |l| > 1 { assert s[2..] == l[2..] + "\n" + rest; }
      assert OccursAt(s, OPEN, 0) <==> OccursAt(l, OPEN, 0);
      assert OccursAt(s, CLOSE, 0) <==> OccursAt(l, CLOSE, 0);
      if inBlock {
        LinePassed(if OccursAt(l, CLOSE, 0) then l[2..] else l[1..], rest, !OccursAt(l, CLOSE, 0), slash);
      } else if OccursAt(l, OPEN, 0) {
        LinePassed(l[2..], rest, true, slash);
      } else {
        LinePassed(l[1..], rest, false, l[0] == '/');
        var kept := OnePass(l[1..], false);
        assert [l[0]] + (kept.text + "\n" + TextPass(rest, kept.inBlock)) ==
               ([l[0]] + kept.text) + "\n" + TextPass(rest, kept.inBlock);
      }
    }
  }

  lemma {:induction false} LastLinePassed(l: string, inBlock: bool, slash: bool)
    requires '\n' !in l
    ensures TextPass(l, inBlock) == OnePass(l, inBlock).text
    ensures TextGlued(l, inBlock, slash) <==> Glued(l, inBlock, slash)
    decreases |l|
  {
    if l != "" {
      assert l[0] in l;
      if inBlock {
        LastLinePassed(if OccursAt(l, CLOSE, 0) then l[2..] else l[1..], !OccursAt(l, CLOSE, 0), slash);
      } else if OccursAt(l, OPEN, 0) {
        LastLinePassed(l[2..], true, slash);
      } else {
        LastLinePassed(l[1..], false, l[0] == '/');
      }
    }
  }

  lemma {:induction false} OnePassUnbroken(l: string, inBlock: bool)
    requires '\n' !in l
    ensures '\n' !in OnePass(l, inBlock).text
    decreases |l|
  {
    if l != "" {
      assert l[0] in l;
      OnePassUnbroken(l[1..], inBlock);
      OnePassUnbroken(l[1..], true);
      if |l| > 1 {
        OnePassUnbroken(l[2..], false);
        OnePassUnbroken(l[2..], true);
      }
    }
  }

  /** The lines, each cut at its first line comment. */
  ghost predicate CutLines(out: seq<string>, lines: seq<string>) {
    |out| == |lines| && forall i | 0 <= i < |out| :: UpToComment(out[i], lines[i])
  }

  lemma CutCons(a: string, as': seq<string>, b: string, bs: seq<string>)
    requires UpToComment(a, b) && CutLines(as', bs)
    ensures CutLines([a] + as', [b] + bs)
  {
  }

  lemma OneLinePassed(l: string, inBlock: bool)
    requires '\n' !in l && !TextGlued(l, inBlock, false)
    ensures CutLines(StripLines([l], inBlock), Split(TextPass(l, inBlock), '\n'))
  {
    var kept := OnePass(l, inBlock);
    LastLinePassed(l, inBlock, false);
    FirstCut(l, inBlock);
    OnePassUnbroken(l, inBlock);
    SplitWhole(kept.text, '\n');
    FirstStripped(l, [], inBlock);
    NoLines(StripLine(l, inBlock).inBlock);
    hide OnePass, TextPass, TextGlued, Glued, StripLine, StripLines, UpToComment, Split;
    assert [l] + [] == [l];
    CutCons(StripLine(l, inBlock).text, [], kept.text, []);
    assert [StripLine(l, inBlock).text] + [] == [StripLine(l, inBlock).text] && [kept.text] + [] == [kept.text];
  }

  lemma FirstLinePassed(l: string, lines: seq<string>, rest: string, inBlock: bool)
    requires '\n' !in l && !TextGlued(l + "\n" + rest, inBlock, false)
    requires CutLines(StripLines(lines, OnePass(l, inBlock).inBlock),
                      Split(TextPass(rest, OnePass(l, inBlock).inBlock), '\n'))
    ensures CutLines(StripLines([l] + lines, inBlock), Split(TextPass(l + "\n" + rest, inBlock), '\n'))
  {
    var kept := OnePass(l, inBlock);
    LinePassed(l, rest, inBlock, false);
    FirstCut(l, inBlock);
    OnePassUnbroken(l, inBlock);
    SplitWhole(kept.text, '\n');
    FirstStripped(l, lines, inBlock);
    SplitConcat(kept.text, TextPass(rest, kept.inBlock), '\n');
    hide OnePass, TextPass, TextGlued, Glued, StripLine, StripLines, UpToComment, Split;
    CutCons(StripLine(l, inBlock).text, StripLines(lines, kept.inBlock), kept.text,
            Split(TextPass(rest, kept.inBlock), '\n'));
  }

  lemma {:induction false} LinesPassed(lines: seq<string>, inBlock: bool)
    requires lines != [] && forall l | l in lines :: '\n' !in l
    requires !TextGlued(Join(lines, '\n'), inBlock, false)
    ensures CutLines(StripLines(lines, inBlock), Split(TextPass(Join(lines, '\n'), inBlock), '\n'))
    decreases |lines|
  {
    hide OnePass, TextPass, TextGlued, Glued, StripLine, StripLines, CutLines, Split;
    var l := lines[0];
    assert l in lines && lines == [l] + lines[1..];
    if |lines| == 1 {
      assert lines == [l];
      OneLinePassed(l, inBlock);
    } else {
      var rest := Join(lines[1..], '\n');
      assert Join(lines, '\n') == l + "\n" + rest;
      LinePassed(l, rest, inBlock, false);
      LinesPassed(lines[1..], OnePass(l, inBlock).inBlock);
      FirstLinePassed(l, lines[1..], rest, inBlock);
    }
  }

  lemma NoLines(inBlock: bool)
    ensures StripLines([], inBlock) == []
  {
  }

  lemma FirstCut(l: string, inBlock: bool)
    requires !Glued(l, inBlock, false)
    ensures UpToComment(StripLine(l, inBlock).text, OnePass(l, inBlock).text)
    ensures StripLine(l, inBlock).inBlock == OnePass(l, inBlock).inBlock
  {
    StripLineCut(l, inBlock);
    StripBlocksOnePass(l, inBlock);
  }

  lemma FirstStripped(l: string, rest: seq<string>, inBlock: bool)
    ensures StripLines([l] + rest, inBlock) ==
            [StripLine(l, inBlock).text] + StripLines(rest, StripLine(l, inBlock).inBlock)
  {
    hide StripLine;
    StripLinesConcat([l], rest, inBlock);
    StripSnoc([], l, inBlock);
    assert [] + [l] == [l];
    assert [] + [StripLine(l, inBlock).text] == [StripLine(l, inBlock).text];
  }

  /** From the whole text: where no closed block stands between a kept `/` and a kept `*`, the stripped lines
      are those of a single pass over the text, block state carried across lines, each cut at its first line
      comment. */
  lemma StripIsTextPass(source: string)
    requires !TextGlued(source, false, false)
    ensures CutLines(Strip(source), Split(TextPass(source, false), '\n'))
  {
    SplitParts(source, '\n');
    JoinSplit(source, '\n');
    LinesPassed(Split(source, '\n'), false);
  }
}
