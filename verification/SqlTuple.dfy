/** The `VALUES` tuple parser, the row loop over a multi-row insert, and the tag validation. */
module SqlTuple {
  import opened Wrappers
  import opened Text

  const QUOTE := '\''

  /** The white space of `trim` and `\s` (sections 22.1.3 and 22.2.2 of ECMA-262). */
  predicate IsSpace(c: char) {
    var n := c as int;
    n == 0x20 || 0x09 <= n <= 0x0D || n == 0xA0 || n == 0x1680 || 0x2000 <= n <= 0x200A || n == 0x2028 || n == 0x2029 ||
    n == 0x202F || n == 0x205F || n == 0x3000 || n == 0xFEFF
  }

  /** Tab, the line breaks, form feed, the space and the no-break space, the other Unicode spaces, the two
      Unicode separators, and the byte order mark. */
  lemma SpacesListed(c: char)
    ensures IsSpace(c) <==>
            c in "\t\n\U{000B}\U{000C}\r \U{00A0}\U{1680}\U{2028}\U{2029}\U{202F}\U{205F}\U{3000}\U{FEFF}" ||
            '\U{2000}' <= c <= '\U{200A}'
  {
  }

  predicate AllSpace(s: string) {
    forall c | c in s :: IsSpace(c)
  }

  function SkipSpace(s: string): string {
    if s != "" && IsSpace(s[0]) then SkipSpace(s[1..]) else s
  }

  function TrimEnd(s: string): string {
    if s != "" && IsSpace(s[|s| - 1]) then TrimEnd(s[..|s| - 1]) else s
  }

  function Trim(s: string): string {
    TrimEnd(SkipSpace(s))
  }

  // ---------------------------------------------------------------- one tuple

  /** After an opening quote: the literal's text, and what is left after its closing quote. */
  function Literal(s: string): (r: (string, string))
    ensures |r.1| <= |s|
  {
    if s == "" then ("", "")
    else if s[0] == QUOTE && |s| > 1 && s[1] == QUOTE then ([QUOTE] + Literal(s[2..]).0, Literal(s[2..]).1)
    else if s[0] == QUOTE then ("", s[1..])
    else ([s[0]] + Literal(s[1..]).0, Literal(s[1..]).1)
  }

  datatype Tuple = Tuple(values: seq<string>, rest: string)

  /** Inside a tuple at nesting `depth`, with the values read so far and the current one. */
  function TupleBody(s: string, values: seq<string>, current: string, depth: nat): (r: Option<Tuple>)
    requires depth > 0
    ensures r.Some? ==> |r.value.rest| < |s| && values < r.value.values
    decreases |s|
  {
    if s == "" then None
    else if s[0] == QUOTE then TupleBody(Literal(s[1..]).1, values, Literal(s[1..]).0, depth)
    else if s[0] == ',' && depth == 1 then TupleBody(s[1..], values + [Trim(current)], "", depth)
    else if s[0] == '(' then TupleBody(s[1..], values, current + [s[0]], depth + 1)
    else if s[0] == ')' then
      if depth == 1 then Some(Tuple(values + [Trim(current)], s[1..]))
      else TupleBody(s[1..], values, current + [s[0]], depth - 1)
    else TupleBody(s[1..], values, current + [s[0]], depth)
  }

  function ParseTuple(s: string): (r: Option<Tuple>)
    ensures r.Some? ==> |r.value.rest| < |s| && r.value.values != []
  {
    if s == "" || s[0] != '(' then None else TupleBody(s[1..], [], "", 1)
  }

  lemma LiteralAt(text: string, i: nat)
    requires i < |text|
    ensures Literal(text[i..]) ==
            if text[i] == QUOTE && i + 1 < |text| && text[i + 1] == QUOTE
            then ([QUOTE] + Literal(text[i + 2..]).0, Literal(text[i + 2..]).1)
            else if text[i] == QUOTE then ("", text[i + 1..])
            else ([text[i]] + Literal(text[i + 1..]).0, Literal(text[i + 1..]).1)
  {
    var s := text[i..];
    assert s[1..] == text[i + 1..];
    if |s| > 1 { assert s[2..] == text[i + 2..]; }
  }

  method ReadLiteral(text: string, start: nat) returns (str: string, i: nat)
    requires start <= |text|
    ensures start <= i <= |text| && (str, text[i..]) == Literal(text[start..])
  {
    str, i := "", start;
    ghost var (whole, left) := Literal(text[start..]);
    ghost var ahead := whole;
    while i < |text|
      invariant start <= i <= |text|
      invariant Literal(text[i..]) == (ahead, left)
      invariant whole == str + ahead
    {
      LiteralAt(text, i);
      if text[i] == QUOTE && !(i + 1 < |text| && text[i + 1] == QUOTE) {
        i := i + 1;
        assert str + "" == str;
        return;
      }
      Assoc(str, [text[i]], ahead[1..]);
      ahead := ahead[1..];
      str, i := str + [text[i]], if text[i] == QUOTE then i + 2 else i + 1;
    }
    assert str + "" == str;
  }

  lemma BodyAt(text: string, i: nat, values: seq<string>, current: string, depth: nat)
    requires i < |text| && depth > 0
    ensures var ch, next := text[i], text[i + 1..];
            TupleBody(text[i..], values, current, depth) ==
            if ch == QUOTE then TupleBody(Literal(next).1, values, Literal(next).0, depth)
            else if ch == ',' && depth == 1 then TupleBody(next, values + [Trim(current)], "", depth)
            else if ch == '(' then TupleBody(next, values, current + [ch], depth + 1)
            else if ch == ')' then
              if depth == 1 then Some(Tuple(values + [Trim(current)], next))
              else TupleBody(next, values, current + [ch], depth - 1)
            else TupleBody(next, values, current + [ch], depth)
  {
    assert text[i..][1..] == text[i + 1..];
  }

  datatype ParsedTuple = ParsedTuple(values: seq<string>, end: nat)

  /** `parseSqlValueTuple`: the values, and the index just past the tuple. */
  method ParseSqlValueTuple(text: string, start: nat) returns (r: Option<ParsedTuple>)
    requires start <= |text|
    ensures r.None? ==> ParseTuple(text[start..]) == None
    ensures r.Some? ==> start < r.value.end <= |text|
    ensures r.Some? ==> ParseTuple(text[start..]) == Some(Tuple(r.value.values, text[r.value.end..]))
  {
    if start >= |text| || text[start] != '(' { return None; }
    var values: seq<string>, i, current, depth := [], start + 1, "", 1;
    assert text[start..][1..] == text[i..];
    while i < |text|
      invariant start < i <= |text| && depth > 0
      invariant ParseTuple(text[start..]) == TupleBody(text[i..], values, current, depth)
    {
      var ch := text[i];
      BodyAt(text, i, values, current, depth);
      if ch == QUOTE {
        current, i := ReadLiteral(text, i + 1);
      } else if ch == ',' && depth == 1 {
        values, current, i := values + [Trim(current)], "", i + 1;
      } else if ch == '(' {
        depth, current, i := depth + 1, current + [ch], i + 1;
      } else if ch == ')' {
        depth := depth - 1;
        if depth == 0 { return Some(ParsedTuple(values + [Trim(current)], i + 1)); }
        current, i := current + [ch], i + 1;
      } else {
        current, i := current + [ch], i + 1;
      }
    }
    r := None;
  }

  // ---------------------------------------------------------------- printing, and reading it back

  /** Text without quotes in which every parenthesis closes and commas stand in parentheses only, from a
      place `depth` parentheses deep to one that is in none. */
  predicate Nested(s: string, depth: nat) {
    if s == "" then depth == 0
    else if s[0] == '\'' then false
    else if s[0] == '(' then Nested(s[1..], depth + 1)
    else if s[0] == ')' then depth > 0 && Nested(s[1..], depth - 1)
    else (s[0] == ',' ==> depth > 0) && Nested(s[1..], depth)
  }

  /** A value as it is written: a literal with text before and after it, spacing or a cast, or bare text, a
      number, a keyword or a call. */
  datatype Cell = Quoted(before: string, value: string, after: string) | Bare(text: string) {
    predicate Valid() {
      match this
      case Quoted(b, _, a) => Nested(b, 0) && Nested(a, 0)
      case Bare(t) => Nested(t, 0)
    }

    /** What is read of it: from the literal on, or all of it. */
    function Content(): string {
      match this case Quoted(_, v, a) => v + a case Bare(t) => t
    }
  }

  /** The text of a literal: every quote doubled. */
  function Doubled(v: string): string {
    if v == "" then "" else (if v[0] == '\'' then "''" else [v[0]]) + Doubled(v[1..])
  }

  /** A cell and the text `tail` that follows. */
  function ShowCell(c: Cell, tail: string): string {
    match c
    case Quoted(b, v, a) => b + "'" + Doubled(v) + "'" + a + tail
    case Bare(t) => t + tail
  }

  /** The cells of a tuple, its closing parenthesis, and the text that follows. */
  function ShowCells(cells: seq<Cell>, tail: string): string
    requires cells != []
  {
    if |cells| == 1 then ShowCell(cells[0], [')'] + tail) else ShowCell(cells[0], [','] + ShowCells(cells[1..], tail))
  }

  function ShowTuple(cells: seq<Cell>, tail: string): string
    requires cells != []
  {
    ['('] + ShowCells(cells, tail)
  }

  function Values(cells: seq<Cell>): (vs: seq<string>)
    ensures |vs| == |cells| && forall i | 0 <= i < |cells| :: vs[i] == Trim(cells[i].Content())
  {
    if cells == [] then [] else [Trim(cells[0].Content())] + Values(cells[1..])
  }

  lemma {:induction false} LiteralDoubled(v: string, tail: string)
    requires tail == "" || tail[0] != QUOTE
    ensures Literal(Doubled(v) + [QUOTE] + tail) == (v, tail)
  {
    var s := Doubled(v) + [QUOTE] + tail;
    if v == "" {
      assert s == [QUOTE] + tail && s[1..] == tail;
    } else {
      LiteralDoubled(v[1..], tail);
      var rest := Doubled(v[1..]) + [QUOTE] + tail;
      if v[0] == QUOTE {
        assert s == [QUOTE, QUOTE] + rest && s[2..] == rest;
      } else {
        assert s == [v[0]] + rest && s[1..] == rest;
      }
      assert [v[0]] + v[1..] == v;
    }
  }

  lemma {:induction false} NestedPass(text: string, depth: nat, tail: string, values: seq<string>, current: string)
    requires Nested(text, depth)
    ensures TupleBody(text + tail, values, current, depth + 1) == TupleBody(tail, values, current + text, 1)
    decreases text
  {
    var s := text + tail;
    if text == "" {
      assert s == tail && current + text == current;
    } else {
      assert s[1..] == text[1..] + tail;
      assert current + [text[0]] + text[1..] == current + text;
      NestedPass(text[1..], if text[0] == '(' then depth + 1 else if text[0] == ')' then depth - 1 else depth, tail,
                 values, current + [text[0]]);
    }
  }

  lemma {:induction false} SpaceIsNested(space: string)
    requires AllSpace(space)
    ensures Nested(space, 0)
  {
    if space != "" {
      assert space[0] in space;
      SpaceIsNested(space[1..]);
    }
  }

  lemma {:induction false} SkipAll(space: string)
    requires AllSpace(space)
    ensures SkipSpace(space) == ""
  {
    if space != "" {
      assert space[0] in space;
      SkipAll(space[1..]);
    }
  }

  // ---------------------------------------------------------------- what trimming leaves

  predicate NoOuterSpace(s: string) {
    s == "" || (!IsSpace(s[0]) && !IsSpace(s[|s| - 1]))
  }

  /** `m` is `s` without the spaces around it. */
  ghost predicate TrimsTo(s: string, m: string) {
    NoOuterSpace(m) && exists a, b :: AllSpace(a) && AllSpace(b) && s == a + m + b
  }

  lemma {:induction false} SkippedFront(s: string) returns (a: string)
    ensures AllSpace(a) && s == a + SkipSpace(s) && (SkipSpace(s) == "" || !IsSpace(SkipSpace(s)[0]))
  {
    if s != "" && IsSpace(s[0]) {
      a := SkippedFront(s[1..]);
      assert [s[0]] + (a + SkipSpace(s)) == ([s[0]] + a) + SkipSpace(s) && s == [s[0]] + s[1..];
      a := [s[0]] + a;
    } else {
      a := "";
      assert s == a + s;
    }
  }

  lemma {:induction false} TrimmedBack(s: string) returns (b: string)
    ensures AllSpace(b) && s == TrimEnd(s) + b && (TrimEnd(s) == "" || !IsSpace(TrimEnd(s)[|TrimEnd(s)| - 1]))
  {
    if s != "" && IsSpace(s[|s| - 1]) {
      var front, last := s[..|s| - 1], [s[|s| - 1]];
      b := TrimmedBack(front);
      assert (TrimEnd(s) + b) + last == TrimEnd(s) + (b + last) && s == front + last;
      b := b + last;
    } else {
      b := "";
      assert s == s + b;
    }
  }

  lemma {:induction false} SkipsFront(a: string, m: string)
    requires AllSpace(a) && (m == "" || !IsSpace(m[0]))
    ensures SkipSpace(a + m) == m
  {
    if a == "" {
      assert a + m == m;
    } else {
      assert a[0] in a && (a + m)[1..] == a[1..] + m;
      SkipsFront(a[1..], m);
    }
  }

  lemma {:induction false} TrimsBack(m: string, b: string)
    requires AllSpace(b) && (m == "" || !IsSpace(m[|m| - 1]))
    ensures TrimEnd(m + b) == m
  {
    if b == "" {
      assert m + b == m;
    } else {
      assert b[|b| - 1] in b && (m + b)[..|m + b| - 1] == m + b[..|b| - 1];
      TrimsBack(m, b[..|b| - 1]);
    }
  }

  lemma TrimTrims(s: string)
    ensures TrimsTo(s, Trim(s))
  {
    var a := SkippedFront(s);
    var b := TrimmedBack(SkipSpace(s));
    hide SkipSpace, TrimEnd;
    var t, m := SkipSpace(s), TrimEnd(SkipSpace(s));
    assert s == a + m + b by { assert a + (m + b) == a + m + b; }
    assert m != "" ==> m[0] == t[0];
  }

  lemma TrimmedOnce(a: string, m: string, b: string)
    requires AllSpace(a) && AllSpace(b) && NoOuterSpace(m)
    ensures Trim(a + m + b) == m
  {
    if m == "" {
      assert a + m + b == (a + b) + "" && AllSpace(a + b);
      SkipsFront(a + b, "");
    } else {
      assert a + m + b == a + (m + b);
      SkipsFront(a, m + b);
      TrimsBack(m, b);
    }
  }

  lemma TrimExact(s: string, m: string)
    ensures Trim(s) == m <==> TrimsTo(s, m)
  {
    TrimTrims(s);
    hide Trim, NoOuterSpace;
    if TrimsTo(s, m) {
      var a, b :| AllSpace(a) && AllSpace(b) && s == a + m + b;
      TrimmedOnce(a, m, b);
    }
  }

  // ---------------------------------------------------------------- reading the cells

  lemma BodyComma(next: string, values: seq<string>, current: string)
    ensures TupleBody([','] + next, values, current, 1) == TupleBody(next, values + [Trim(current)], "", 1)
  {
    assert ([','] + next)[1..] == next;
  }

  lemma BodyClose(tail: string, values: seq<string>, current: string)
    ensures TupleBody([')'] + tail, values, current, 1) == Some(Tuple(values + [Trim(current)], tail))
  {
    assert ([')'] + tail)[1..] == tail;
  }

  lemma BodyLiteral(v: string, tail: string, values: seq<string>, current: string)
    requires tail == "" || tail[0] != QUOTE
    ensures TupleBody([QUOTE] + (Doubled(v) + [QUOTE] + tail), values, current, 1) == TupleBody(tail, values, v, 1)
  {
    var rest := Doubled(v) + [QUOTE] + tail;
    assert ([QUOTE] + rest)[1..] == rest;
    LiteralDoubled(v, tail);
  }

  /** Reading one printed cell brings the parser to its tail, with the content as the current value. */
  lemma CellRead(c: Cell, tail: string, values: seq<string>)
    requires c.Valid() && tail != "" && tail[0] != QUOTE
    ensures TupleBody(ShowCell(c, tail), values, "", 1) == TupleBody(tail, values, c.Content(), 1)
  {
    match c
    case Quoted(before, v, after) =>
      var afterTail := after + tail;
      assert afterTail[0] != QUOTE;
      var literal := [QUOTE] + (Doubled(v) + [QUOTE] + afterTail);
      assert ShowCell(c, tail) == before + literal;
      NestedPass(before, 0, literal, values, "");
      BodyLiteral(v, afterTail, values, "" + before);
      NestedPass(after, 0, tail, values, v);
    case Bare(t) =>
      NestedPass(t, 0, tail, values, "");
      assert "" + t == t;
  }

  lemma LastCellRead(c: Cell, tail: string, values: seq<string>)
    requires c.Valid()
    ensures TupleBody(ShowCell(c, [')'] + tail), values, "", 1) == Some(Tuple(values + [Trim(c.Content())], tail))
  {
    CellRead(c, [')'] + tail, values);
    BodyClose(tail, values, c.Content());
  }

  lemma NextCellRead(c: Cell, next: string, values: seq<string>)
    requires c.Valid()
    ensures TupleBody(ShowCell(c, [','] + next), values, "", 1) == TupleBody(next, values + [Trim(c.Content())], "", 1)
  {
    CellRead(c, [','] + next, values);
    BodyComma(next, values, c.Content());
  }

  lemma {:induction false} CellsRead(cells: seq<Cell>, tail: string, values: seq<string>)
    requires cells != [] && forall c | c in cells :: c.Valid()
    ensures TupleBody(ShowCells(cells, tail), values, "", 1) == Some(Tuple(values + Values(cells), tail))
  {
    var c := cells[0];
    assert c in cells;
    if |cells| == 1 {
      LastCellRead(c, tail, values);
      assert Values(cells) == [Trim(c.Content())];
    } else {
      NextCellRead(c, ShowCells(cells[1..], tail), values);
      CellsRead(cells[1..], tail, values + [Trim(c.Content())]);
      Assoc(values, [Trim(c.Content())], Values(cells[1..]));
    }
  }

  /** Writing any non-empty list of literals, numbers, keywords and calls as a tuple, spaced in any way and
      followed by any text, and parsing it gives their contents, trimmed, and exactly the text that followed. */
  lemma TupleRoundTrip(cells: seq<Cell>, tail: string)
    requires cells != [] && forall c | c in cells :: c.Valid()
    ensures ParseTuple(ShowTuple(cells, tail)) == Some(Tuple(Values(cells), tail))
  {
    assert ShowTuple(cells, tail)[1..] == ShowCells(cells, tail);
    CellsRead(cells, tail, []);
    assert [] + Values(cells) == Values(cells);
  }

  /** The same without the trimming function: each value is what its cell holds without outer spaces. */
  lemma TupleValues(cells: seq<Cell>, vs: seq<string>, tail: string)
    requires cells != [] && (forall c | c in cells :: c.Valid()) && |vs| == |cells|
    ensures ParseTuple(ShowTuple(cells, tail)) == Some(Tuple(vs, tail)) <==>
            forall i | 0 <= i < |cells| :: TrimsTo(cells[i].Content(), vs[i])
  {
    TupleRoundTrip(cells, tail);
    forall i | 0 <= i < |cells| { TrimExact(cells[i].Content(), vs[i]); }
    if forall i | 0 <= i < |cells| :: TrimsTo(cells[i].Content(), vs[i]) { assert Values(cells) == vs; }
  }

  /** Literals without outer spaces, with spacing around them, come back unchanged. */
  lemma LiteralsUnchanged(cells: seq<Cell>, tail: string)
    requires cells != []
    requires forall c | c in cells :: c.Quoted? && AllSpace(c.before) && AllSpace(c.after) && NoOuterSpace(c.value)
    ensures ParseTuple(ShowTuple(cells, tail)) == Some(Tuple(seq(|cells|, i requires 0 <= i < |cells| =>
              assert cells[i] in cells; cells[i].value), tail))
  {
    var vs := seq(|cells|, i requires 0 <= i < |cells| => assert cells[i] in cells; cells[i].value);
    forall c | c in cells ensures c.Valid() {
      SpaceIsNested(c.before);
      SpaceIsNested(c.after);
    }
    forall i | 0 <= i < |cells| ensures TrimsTo(cells[i].Content(), vs[i]) {
      var c := cells[i];
      assert c in cells && c.Content() == "" + c.value + c.after && AllSpace("");
    }
    TupleValues(cells, vs, tail);
  }

  /** The empty tuple has one empty value. */
  lemma EmptyTuple(tail: string)
    ensures ParseTuple("()" + tail) == Some(Tuple([""], tail))
  {
    var s := "()" + tail;
    assert s[1..] == [')'] + tail && ([')'] + tail)[1..] == tail;
    assert Trim("") == "" && [] + [Trim("")] == [""];
  }

  // ---------------------------------------------------------------- rows

  datatype RuleRecord = RuleRecord(id: string, mechanism: Option<string>, source: string, line: nat)

  const ID_COLUMNS := ["rule_id", "clause_id", "clause_version_id", "code", "id"]

  function IndexOf(cols: seq<string>, name: string): (i: Option<nat>)
    ensures i.Some? ==> i.value < |cols| && cols[i.value] == name && forall j | 0 <= j < i.value :: cols[j] != name
    ensures i.None? ==> name !in cols
  {
    if cols == [] then None
    else if cols[0] == name then Some(0)
    else match IndexOf(cols[1..], name) case None => None case Some(i) => Some(i + 1)
  }

  function ValueAt(cols: seq<string>, vals: seq<string>, name: string): Option<string> {
    match IndexOf(cols, name)
    case Some(i) => if i < |vals| then Some(vals[i]) else None
    case None => None
  }

  function PickId(cols: seq<string>, vals: seq<string>, names: seq<string>): Option<string> {
    if names == [] then None
    else
      match ValueAt(cols, vals, names[0])
      case Some(v) => if v != "" then Some(v) else PickId(cols, vals, names[1..])
      case None => PickId(cols, vals, names[1..])
  }

  /** Where an insert stands: its file, its line and the name a row without an id gets. */
  datatype Site = Site(source: string, line: nat, fallback: string)

  function RecordOf(cols: seq<string>, vals: seq<string>, site: Site): RuleRecord {
    RuleRecord(match PickId(cols, vals, ID_COLUMNS) case Some(v) => v case None => site.fallback,
               ValueAt(cols, vals, "benefit_mechanism"), site.source, site.line)
  }

  /** A record's fields: the first non-empty value under an id column by priority, or the fallback; the value
      under the first tag column when the row is long enough; and the insert's own file and line. */
  lemma RecordExact(cols: seq<string>, vals: seq<string>, site: Site)
    ensures var r, ids := RecordOf(cols, vals, site), ["rule_id", "clause_id", "clause_version_id", "code", "id"];
            && r.source == site.source && r.line == site.line
            && (r.mechanism == match IndexOf(cols, "benefit_mechanism")
                               case Some(i) => if i < |vals| then Some(vals[i]) else None
                               case None => None)
            && ((exists k :: 0 <= k < |ids| && r.id != "" && ValueAt(cols, vals, ids[k]) == Some(r.id) &&
                             forall j | 0 <= j < k :: ValueAt(cols, vals, ids[j]) in {None, Some("")}) ||
                (r.id == site.fallback && forall j | 0 <= j < |ids| :: ValueAt(cols, vals, ids[j]) in {None, Some("")}))
  {
    PickIdFirst(cols, vals, ID_COLUMNS);
  }

  /** What `\s*,\s*` leaves of `s`, when it matches at the start. */
  function SkipComma(s: string): (r: Option<string>)
    ensures r.Some? ==> |r.value| < |s|
  {
    SkipShorter(s);
    if SkipSpace(s) != "" && SkipSpace(s)[0] == ',' then
      SkipShorter(SkipSpace(s)[1..]);
      Some(SkipSpace(SkipSpace(s)[1..]))
    else None
  }

  lemma {:induction false} SkipShorter(s: string)
    ensures |SkipSpace(s)| <= |s| && SkipSpace(s) == s[|s| - |SkipSpace(s)|..]
  {
    if s != "" && IsSpace(s[0]) { SkipShorter(s[1..]); }
  }

  /** The rows from `s` on; each turn consumes a tuple, so the position strictly advances. */
  function Rows(s: string, cols: seq<string>, site: Site): seq<RuleRecord>
    decreases |s|
  {
    SkipShorter(s);
    if s == "" then []
    else
      match ParseTuple(SkipSpace(s))
      case None => []
      case Some(Tuple(vals, rest)) =>
        [RecordOf(cols, vals, site)] + match SkipComma(rest) case None => [] case Some(next) => Rows(next, cols, site)
  }

  method SkipSpaceFrom(text: string, start: nat) returns (pos: nat)
    requires start <= |text|
    ensures start <= pos <= |text| && text[pos..] == SkipSpace(text[start..])
  {
    pos := start;
    while pos < |text| && IsSpace(text[pos])
      invariant start <= pos <= |text| && SkipSpace(text[start..]) == SkipSpace(text[pos..])
    {
      assert text[pos..][1..] == text[pos + 1..];
      pos := pos + 1;
    }
  }

  /** The match of `\s*,\s*` at `start`. */
  method SkipCommaFrom(text: string, start: nat) returns (pos: Option<nat>)
    requires start <= |text|
    ensures match pos
            case None => SkipComma(text[start..]) == None
            case Some(i) => start < i <= |text| && SkipComma(text[start..]) == Some(text[i..])
  {
    var comma := SkipSpaceFrom(text, start);
    if comma == |text| || text[comma] != ',' { return None; }
    assert text[comma..][1..] == text[comma + 1..];
    var next := SkipSpaceFrom(text, comma + 1);
    pos := Some(next);
  }

  /** What one turn of the row loop finds: no tuple, the last row, or a row and where the next begins. */
  datatype Turn = NoRow | LastRow(record: RuleRecord) | MoreRows(record: RuleRecord, next: nat)

  method NextRow(text: string, start: nat, cols: seq<string>, site: Site) returns (turn: Turn)
    requires start < |text|
    ensures turn.NoRow? ==> Rows(text[start..], cols, site) == []
    ensures turn.LastRow? ==> Rows(text[start..], cols, site) == [turn.record]
    ensures turn.MoreRows? ==> start < turn.next <= |text|
    ensures turn.MoreRows? ==> Rows(text[start..], cols, site) == [turn.record] + Rows(text[turn.next..], cols, site)
  {
    var pos := SkipSpaceFrom(text, start);
    var tuple := ParseSqlValueTuple(text, pos);
    if tuple.None? { return NoRow; }
    var record := RecordOf(cols, tuple.value.values, site);
    var comma := SkipCommaFrom(text, tuple.value.end);
    turn := if comma.None? then LastRow(record) else MoreRows(record, comma.value);
  }

  /** The row loop of `extractFromSqlInserts`, from the position after `VALUES`. */
  method ExtractRows(text: string, start: nat, cols: seq<string>, site: Site) returns (records: seq<RuleRecord>)
    requires start <= |text|
    ensures records == Rows(text[start..], cols, site)
  {
    records := [];
    var pos := start;
    ghost var whole := Rows(text[start..], cols, site);
    ghost var ahead := whole;
    while pos < |text|
      invariant start <= pos <= |text|
      invariant ahead == Rows(text[pos..], cols, site)
      invariant whole == records + ahead
      decreases |text| - pos
    {
      var turn := NextRow(text, pos, cols, site);
      if turn.NoRow? { return; }
      Assoc(records, [turn.record], ahead[1..]);
      ahead := ahead[1..];
      records := records + [turn.record];
      if turn.LastRow? { return; }
      pos := turn.next;
    }
  }

  // ---------------------------------------------------------------- printed rows

  /** A row with the spacing before it, and the spacing before the comma that follows it. */
  datatype Row = Row(before: string, cells: seq<Cell>, after: string) {
    predicate Valid() {
      AllSpace(before) && AllSpace(after) && cells != [] && forall c | c in cells :: c.Valid()
    }
  }

  function ShowRows(rows: seq<Row>, tail: string): string
    requires rows != [] && forall r | r in rows :: r.Valid()
  {
    assert rows[0].Valid() by { assert rows[0] in rows; }
    rows[0].before +
    ShowTuple(rows[0].cells, if |rows| == 1 then tail else rows[0].after + [','] + ShowRows(rows[1..], tail))
  }

  lemma {:induction false} SkipSpacing(space: string, tail: string)
    requires AllSpace(space) && (tail == "" || !IsSpace(tail[0]))
    ensures SkipSpace(space + tail) == tail
  {
    if space == "" {
      assert space + tail == tail;
    } else {
      assert space[0] in space && (space + tail)[1..] == space[1..] + tail;
      SkipSpacing(space[1..], tail);
    }
  }

  /** The records a printed list of rows stands for. */
  function RecordsOf(rows: seq<Row>, cols: seq<string>, site: Site): (rs: seq<RuleRecord>)
    ensures |rs| == |rows| && forall i | 0 <= i < |rows| :: rs[i] == RecordOf(cols, Values(rows[i].cells), site)
  {
    if rows == [] then [] else [RecordOf(cols, Values(rows[0].cells), site)] + RecordsOf(rows[1..], cols, site)
  }

  /** Reading one printed row. */
  lemma RowRead(row: Row, more: string, cols: seq<string>, site: Site)
    requires row.Valid()
    ensures var s := row.before + ShowTuple(row.cells, more);
            Rows(s, cols, site) == Rows(SkipSpace(s), cols, site) ==
            [RecordOf(cols, Values(row.cells), site)] +
            match SkipComma(more) case None => [] case Some(next) => Rows(next, cols, site)
  {
    var tuple := ShowTuple(row.cells, more);
    assert tuple[0] == '(' && !IsSpace(tuple[0]);
    SkipSpacing(row.before, tuple);
    assert SkipSpace(tuple) == tuple;
    TupleRoundTrip(row.cells, more);
  }

  lemma CommaRead(after: string, next: string)
    requires AllSpace(after)
    ensures SkipComma(after + [','] + next) == Some(SkipSpace(next))
  {
    var s := [','] + next;
    assert after + [','] + next == after + s && s[1..] == next;
    SkipSpacing(after, s);
  }

  /** The records read after a list of rows: those behind a further comma. */
  function Further(tail: string, cols: seq<string>, site: Site): seq<RuleRecord> {
    match SkipComma(tail) case None => [] case Some(next) => Rows(next, cols, site)
  }

  /** Whatever follows, a printed multi-row list gives one record for each row, in order, each read off its
      own values, and then the records of what follows. */
  lemma {:induction false} RowsRoundTrip(rows: seq<Row>, tail: string, cols: seq<string>, site: Site)
    requires rows != [] && forall r | r in rows :: r.Valid()
    ensures Rows(ShowRows(rows, tail), cols, site) == RecordsOf(rows, cols, site) + Further(tail, cols, site)
    ensures Rows(SkipSpace(ShowRows(rows, tail)), cols, site) == RecordsOf(rows, cols, site) + Further(tail, cols, site)
  {
    hide Rows;
    var row := rows[0];
    assert row in rows;
    if |rows| == 1 {
      RowRead(row, tail, cols, site);
      assert RecordsOf(rows[1..], cols, site) == [];
    } else {
      var next := ShowRows(rows[1..], tail);
      RowsRoundTrip(rows[1..], tail, cols, site);
      RowRead(row, row.after + [','] + next, cols, site);
      CommaRead(row.after, next);
      Assoc([RecordOf(cols, Values(row.cells), site)], RecordsOf(rows[1..], cols, site), Further(tail, cols, site));
    }
  }

  // ---------------------------------------------------------------- what a record says

  lemma {:induction false} PickIdFirst(cols: seq<string>, vals: seq<string>, names: seq<string>)
    ensures match PickId(cols, vals, names)
            case Some(v) =>
              v != "" && (exists k :: 0 <= k < |names| && ValueAt(cols, vals, names[k]) == Some(v) &&
                                      forall j | 0 <= j < k :: ValueAt(cols, vals, names[j]) in {None, Some("")})
            case None => forall j | 0 <= j < |names| :: ValueAt(cols, vals, names[j]) in {None, Some("")}
  {
    if names != [] && ValueAt(cols, vals, names[0]) in {None, Some("")} {
      PickIdFirst(cols, vals, names[1..]);
      match PickId(cols, vals, names[1..])
      case None =>
        forall j | 0 <= j < |names| ensures ValueAt(cols, vals, names[j]) in {None, Some("")} {
          if j > 0 { assert names[j] == names[1..][j - 1]; }
        }
      case Some(v) =>
        var k :| 0 <= k < |names| - 1 && ValueAt(cols, vals, names[1..][k]) == Some(v) &&
                 forall j | 0 <= j < k :: ValueAt(cols, vals, names[1..][j]) in {None, Some("")};
        assert names[k + 1] == names[1..][k];
        forall j | 0 <= j < k + 1 ensures ValueAt(cols, vals, names[j]) in {None, Some("")} {
          if j > 0 { assert names[j] == names[1..][j - 1]; }
        }
    }
  }

  // ---------------------------------------------------------------- validation

  datatype Config = Config(mechanisms: seq<string>, v1Only: bool, v1Permitted: seq<string>)

  datatype Finding =
    | MissingTag(id: string)
    | UnknownTag(id: string, tag: string)
    | NotPermitted(id: string, tag: string)

  function ValidateRuleRecord(r: RuleRecord, config: Config): seq<Finding> {
    match r.mechanism
    case None => [MissingTag(r.id)]
    case Some(v) =>
      if v !in config.mechanisms then [UnknownTag(r.id, v)]
      else if config.v1Only && v !in config.v1Permitted then [NotPermitted(r.id, v)]
      else []
  }

  function ValidateRuleRecords(rs: seq<RuleRecord>, config: Config): seq<Finding> {
    if rs == [] then [] else ValidateRuleRecord(rs[0], config) + ValidateRuleRecords(rs[1..], config)
  }

  predicate Permitted(tag: string, config: Config) {
    tag in config.mechanisms && (config.v1Only ==> tag in config.v1Permitted)
  }

  lemma {:induction false} AllValid(rs: seq<RuleRecord>, config: Config)
    ensures ValidateRuleRecords(rs, config) == [] <==>
            forall i | 0 <= i < |rs| :: rs[i].mechanism.Some? && Permitted(rs[i].mechanism.value, config)
  {
    if rs != [] {
      AllValid(rs[1..], config);
      assert rs == [rs[0]] + rs[1..];
    }
  }

  /** What is wrong with a record, if anything: no tag, a tag that is no mechanism, or a mechanism that is not
      permitted yet. */
  ghost predicate Violates(r: RuleRecord, config: Config, f: Finding) {
    || (f == MissingTag(r.id) && r.mechanism == None)
    || (f.UnknownTag? && f.id == r.id && r.mechanism == Some(f.tag) && f.tag !in config.mechanisms)
    || (f.NotPermitted? && f.id == r.id && r.mechanism == Some(f.tag) && f.tag in config.mechanisms &&
        config.v1Only && f.tag !in config.v1Permitted)
  }

  /** The records that are found fault with, in order, each with its one finding. */
  ghost predicate FaultsOf(fs: seq<Finding>, rs: seq<RuleRecord>, config: Config) {
    if rs == [] then fs == []
    else if exists f :: Violates(rs[0], config, f)
    then fs != [] && Violates(rs[0], config, fs[0]) && FaultsOf(fs[1..], rs[1..], config)
    else FaultsOf(fs, rs[1..], config)
  }

  lemma {:induction false} FindingsExact(rs: seq<RuleRecord>, config: Config)
    ensures FaultsOf(ValidateRuleRecords(rs, config), rs, config)
  {
    if rs != [] {
      FindingsExact(rs[1..], config);
      var own, rest := ValidateRuleRecord(rs[0], config), ValidateRuleRecords(rs[1..], config);
      assert own == [] || (own == [own[0]] && Violates(rs[0], config, own[0]) && (own + rest)[1..] == rest);
      if own == [] { assert own + rest == rest; }
    }
  }

  /** No row follows: no comma, or one without a tuple behind it. */
  predicate EndsRows(tail: string) {
    match SkipComma(tail) case None => true case Some(next) => ParseTuple(next).None?
  }

  lemma {:induction false} SkipTwice(s: string)
    ensures SkipSpace(SkipSpace(s)) == SkipSpace(s)
  {
    if s != "" && IsSpace(s[0]) { SkipTwice(s[1..]); }
  }

  lemma NothingFurther(tail: string, cols: seq<string>, site: Site)
    requires EndsRows(tail)
    ensures Further(tail, cols, site) == []
  {
    if SkipComma(tail).Some? { SkipTwice(SkipSpace(tail)[1..]); }
  }

  /** From the text to the gate's answer: a printed insert is accepted exactly when every row reaches the
      tag column and its own tag, trimmed, is permitted. */
  lemma PrintedInsertAccepted(rows: seq<Row>, tail: string, cols: seq<string>, site: Site, config: Config, tag: nat)
    requires rows != [] && (forall r | r in rows :: r.Valid()) && EndsRows(tail)
    requires IndexOf(cols, "benefit_mechanism") == Some(tag)
    ensures ValidateRuleRecords(Rows(ShowRows(rows, tail), cols, site), config) == [] <==>
            forall i | 0 <= i < |rows| :: tag < |rows[i].cells| && Permitted(Trim(rows[i].cells[tag].Content()), config)
  {
    RowsRoundTrip(rows, tail, cols, site);
    NothingFurther(tail, cols, site);
    var rs := RecordsOf(rows, cols, site);
    assert rs + [] == rs;
    AllValid(rs, config);
    forall i | 0 <= i < |rows|
      ensures rs[i].mechanism == if tag < |rows[i].cells| then Some(Trim(rows[i].cells[tag].Content())) else None
    {}
  }
}
