/** What the memory log's string and dict operations mean, said without them: words, stripping, lines, the
    fields of a dict, and the text of a log. */
module LogText {
  import opened Wrappers
  import opened Memlog
  import Text

  // ---------------------------------------------------------------- words

  predicate Blank(s: string) {
    forall c | c in s :: IsSpace(c)
  }

  predicate Solid(s: string) {
    forall c | c in s :: !IsSpace(c)
  }

  /** The words with `gaps[i]` before each, and the last gap after them all. */
  function Spread(gaps: seq<string>, words: seq<string>): string
    requires |gaps| == |words| + 1
  {
    if words == [] then gaps[0] else gaps[0] + words[0] + Spread(gaps[1..], words[1..])
  }

  /** The gaps are blank, none between two words is empty, and no word is empty or has a space in it. */
  ghost predicate Spaced(gaps: seq<string>, words: seq<string>) {
    && |gaps| == |words| + 1
    && (forall g | g in gaps :: Blank(g))
    && (forall i | 0 < i < |words| :: gaps[i] != "")
    && (forall w | w in words :: w != "" && Solid(w))
  }

  /** The words are the maximal runs of non-space characters of `s`, in order. */
  ghost predicate AreWords(s: string, words: seq<string>) {
    exists gaps :: Spaced(gaps, words) && s == Spread(gaps, words)
  }

  lemma GapBefore(c: char, gaps: seq<string>, words: seq<string>)
    requires IsSpace(c) && Spaced(gaps, words)
    ensures Spaced([[c] + gaps[0]] + gaps[1..], words)
    ensures Spread([[c] + gaps[0]] + gaps[1..], words) == [c] + Spread(gaps, words)
  {
    var longer := [[c] + gaps[0]] + gaps[1..];
    assert longer[1..] == gaps[1..] && gaps[0] in gaps;
    if words != [] {
      var tail := Spread(gaps[1..], words[1..]);
      assert ([c] + gaps[0]) + words[0] + tail == [c] + (gaps[0] + words[0] + tail);
    }
  }

  lemma WordBefore(word: string, c: char, gaps: seq<string>, words: seq<string>)
    requires word != "" && Solid(word) && IsSpace(c) && Spaced(gaps, words)
    ensures Spaced(["", [c] + gaps[0]] + gaps[1..], [word] + words)
    ensures Spread(["", [c] + gaps[0]] + gaps[1..], [word] + words) == word + ([c] + Spread(gaps, words))
  {
    var inner := [[c] + gaps[0]] + gaps[1..];
    var more := ["", [c] + gaps[0]] + gaps[1..];
    GapBefore(c, gaps, words);
    assert more[1..] == inner && ([word] + words)[1..] == words;
    forall i | 0 < i < |words| + 1 ensures more[i] != "" { assert more[i] == inner[i - 1]; }
  }

  lemma {:induction false} GapsOf(s: string, word: string) returns (gaps: seq<string>)
    requires Solid(word)
    ensures Spaced(gaps, Words(s, word)) && word + s == Spread(gaps, Words(s, word))
    decreases s
  {
    hide Spaced, Spread;
    if s == "" {
      gaps := if word == "" then [""] else ["", ""];
      LastGap(word);
      assert word + s == word;
    } else if !IsSpace(s[0]) {
      gaps := GapsOf(s[1..], word + [s[0]]);
      assert word + [s[0]] + s[1..] == word + s;
    } else {
      var rest := GapsOf(s[1..], "");
      var ws := Words(s[1..], "");
      assert "" + s[1..] == s[1..] && s == [s[0]] + s[1..] && word + s == word + ([s[0]] + s[1..]);
      SpacedSize(rest, ws);
      if word == "" {
        gaps := [[s[0]] + rest[0]] + rest[1..];
        GapBefore(s[0], rest, ws);
        assert word + s == s && Words(s, word) == [] + ws == ws;
      } else {
        gaps := ["", [s[0]] + rest[0]] + rest[1..];
        WordBefore(word, s[0], rest, ws);
      }
    }
  }

  lemma SpacedSize(gaps: seq<string>, words: seq<string>)
    requires Spaced(gaps, words)
    ensures |gaps| == |words| + 1
  {
  }

  lemma LastGap(word: string)
    requires Solid(word)
    ensures Spaced([""], []) && Spread([""], []) == ""
    ensures word != "" ==> Spaced(["", ""], [word]) && Spread(["", ""], [word]) == word
  {
    assert [word][1..] == [] && ["", ""][1..] == [""];
    assert "" + word + "" == word;
  }

  lemma {:induction false} GapSkipped(gap: string, s: string)
    requires Blank(gap)
    ensures Words(gap + s, "") == Words(s, "")
  {
    if gap == "" {
      assert gap + s == s;
    } else {
      assert gap[0] in gap && (gap + s)[1..] == gap[1..] + s;
      GapSkipped(gap[1..], s);
    }
  }

  lemma {:induction false} WordRead(w: string, s: string, word: string)
    requires Solid(w)
    ensures Words(w + s, word) == Words(s, word + w)
    decreases w
  {
    if w == "" {
      assert w + s == s && word + w == word;
    } else {
      assert w[0] in w && (w + s)[1..] == w[1..] + s;
      WordRead(w[1..], s, word + [w[0]]);
      assert word + [w[0]] + w[1..] == word + w;
    }
  }

  lemma {:induction false} SpreadRead(gaps: seq<string>, words: seq<string>)
    requires Spaced(gaps, words)
    ensures Words(Spread(gaps, words), "") == words
    decreases |words|
  {
    assert gaps[0] in gaps;
    if words == [] {
      GapSkipped(gaps[0], "");
      assert gaps[0] + "" == gaps[0];
    } else {
      var w, rest := words[0], Spread(gaps[1..], words[1..]);
      assert w in words;
      SpreadRead(gaps[1..], words[1..]);
      assert gaps[0] + w + rest == gaps[0] + (w + rest);
      GapSkipped(gaps[0], w + rest);
      WordRead(w, rest, "");
      assert "" + w == w;
      assert gaps[1] in gaps;
      if rest != "" {
        assert rest[0] == gaps[1][0] && gaps[1][0] in gaps[1];
      }
      assert words == [w] + words[1..];
    }
  }

  lemma WordsExact(s: string, words: seq<string>)
    ensures Words(s, "") == words <==> AreWords(s, words)
  {
    if Words(s, "") == words {
      var gaps := GapsOf(s, "");
      assert "" + s == s;
    }
    if AreWords(s, words) {
      var gaps :| Spaced(gaps, words) && s == Spread(gaps, words);
      SpreadRead(gaps, words);
    }
  }

  // ---------------------------------------------------------------- stripping

  lemma {:induction false} StripLeftParts(s: string) returns (a: string)
    ensures Blank(a) && s == a + StripLeft(s)
  {
    if s != "" && IsSpace(s[0]) {
      a := StripLeftParts(s[1..]);
      assert [s[0]] + (a + StripLeft(s)) == ([s[0]] + a) + StripLeft(s) && s == [s[0]] + s[1..];
      a := [s[0]] + a;
    } else {
      a := "";
      assert s == a + s;
    }
  }

  lemma {:induction false} StripRightParts(s: string) returns (b: string)
    ensures Blank(b) && s == StripRight(s) + b
  {
    if s != "" && IsSpace(s[|s| - 1]) {
      var front, last := s[..|s| - 1], [s[|s| - 1]];
      b := StripRightParts(front);
      assert (StripRight(s) + b) + last == StripRight(s) + (b + last) && s == front + last;
      b := b + last;
    } else {
      b := "";
      assert s == s + b;
    }
  }

  lemma {:induction false} StripLeftBlank(a: string, m: string)
    requires Blank(a) && (m == "" || !IsSpace(m[0]))
    ensures StripLeft(a + m) == m
  {
    if a == "" {
      assert a + m == m;
    } else {
      assert a[0] in a && (a + m)[1..] == a[1..] + m;
      StripLeftBlank(a[1..], m);
    }
  }

  lemma {:induction false} StripRightBlank(m: string, b: string)
    requires Blank(b) && (m == "" || !IsSpace(m[|m| - 1]))
    ensures StripRight(m + b) == m
  {
    if b == "" {
      assert m + b == m;
    } else {
      assert b[|b| - 1] in b && (m + b)[..|m + b| - 1] == m + b[..|b| - 1];
      StripRightBlank(m, b[..|b| - 1]);
    }
  }

  /** `m` is `s` without the spaces around it. */
  ghost predicate StripsTo(s: string, m: string) {
    Trimmed(m) && exists a, b :: Blank(a) && Blank(b) && s == a + m + b
  }

  lemma StripExact(s: string, m: string)
    ensures Strip(s) == m <==> StripsTo(s, m)
  {
    if Strip(s) == m {
      var a := StripLeftParts(s);
      var b := StripRightParts(StripLeft(s));
      StripTrims(s);
      assert s == a + (m + b) == a + m + b;
    }
    if StripsTo(s, m) {
      var a, b :| Blank(a) && Blank(b) && s == a + m + b;
      if m == "" {
        assert s == (a + b) + "" && Blank(a + b);
        StripLeftBlank(a + b, "");
      } else {
        assert s == a + (m + b);
        StripLeftBlank(a, m + b);
        StripRightBlank(m, b);
      }
    }
  }

  predicate Newlines(s: string) {
    forall c | c in s :: c == '\n'
  }

  lemma {:induction false} TrimLeftParts(s: string) returns (a: string)
    ensures Newlines(a) && s == a + TrimLeft(s) && (TrimLeft(s) == "" || TrimLeft(s)[0] != '\n')
  {
    if s != "" && s[0] == '\n' {
      a := TrimLeftParts(s[1..]);
      assert [s[0]] + (a + TrimLeft(s)) == ([s[0]] + a) + TrimLeft(s) && s == [s[0]] + s[1..];
      a := [s[0]] + a;
    } else {
      a := "";
      assert s == a + s;
    }
  }

  lemma {:induction false} TrimRightParts(s: string) returns (b: string)
    ensures Newlines(b) && s == TrimRight(s) + b && (TrimRight(s) == "" || TrimRight(s)[|TrimRight(s)| - 1] != '\n')
  {
    if s != "" && s[|s| - 1] == '\n' {
      var front, last := s[..|s| - 1], [s[|s| - 1]];
      b := TrimRightParts(front);
      assert (TrimRight(s) + b) + last == TrimRight(s) + (b + last) && s == front + last;
      b := b + last;
    } else {
      b := "";
      assert s == s + b;
    }
  }

  // ---------------------------------------------------------------- lines

  /** One line break in front of `rest`: a carriage return takes the line feed after it along. */
  predicate BreakBefore(brk: string, rest: string) {
    brk == "\r\n" || (|brk| == 1 && IsBreak(brk[0]) && !(brk == "\r" && "\n" <= rest))
  }

  /** Up to its first break a text is one line, and the lines of what follows come after it. */
  lemma {:induction false} LinesBroken(l: string, brk: string, rest: string)
    requires NoBreak(l) && BreakBefore(brk, rest)
    ensures Lines(l + brk + rest) == [l] + Lines(rest)
  {
    var s := l + brk + rest;
    if l == "" {
      if brk == "\r\n" {
        assert s[0] == '\r' && s[1] == '\n' && "\r\n" <= s && s[2..] == rest;
      } else {
        assert s[0] == brk[0] && s[1..] == rest;
        assert brk == [brk[0]];
        assert "\r\n" <= s ==> brk == "\r" && "\n" <= rest;
      }
    } else {
      assert l[0] in l && s[1..] == l[1..] + brk + rest;
      LinesBroken(l[1..], brk, rest);
      assert l == [l[0]] + l[1..];
    }
  }

  /** A text without breaks is no line when it is empty, and one line otherwise. */
  lemma LinesWhole(s: string)
    requires NoBreak(s)
    ensures Lines(s) == if s == "" then [] else [s]
  {
    UnbrokenLine(s);
  }

  // ---------------------------------------------------------------- the dict

  function ValueOf(meta: Meta, k: string): Option<string> {
    if meta == [] then None else if meta[0].0 == k then Some(meta[0].1) else ValueOf(meta[1..], k)
  }

  /** `meta[k] = v` for each pair. */
  function PutPairs(pairs: Meta): Meta {
    if pairs == [] then [] else Memlog.Put(PutPairs(pairs[..|pairs| - 1]), pairs[|pairs| - 1].0, pairs[|pairs| - 1].1)
  }

  /** A key that is there keeps its place, one that is not goes to the end. */
  lemma {:induction false} PutPlace(a: Meta, k: string, w: string, b: Meta, v: string)
    requires k !in Keys(a)
    ensures Memlog.Put(a + [(k, w)] + b, k, v) == a + [(k, v)] + b
    ensures Memlog.Put(a, k, v) == a + [(k, v)]
  {
    if a != [] {
      PutPlace(a[1..], k, w, b, v);
      assert (a + [(k, w)] + b)[1..] == a[1..] + [(k, w)] + b && a == [a[0]] + a[1..];
    }
  }

  lemma {:induction false} RemovePlace(a: Meta, k: string, w: string, b: Meta)
    requires k !in Keys(a) && k !in Keys(b)
    ensures Remove(a + [(k, w)] + b, k) == a + b && Remove(a, k) == a
    decreases |a|
  {
    if a == [] {
      RemoveAbsent(b, k);
      assert ([(k, w)] + b)[1..] == b && a + [(k, w)] + b == [(k, w)] + b && a + b == b;
    } else {
      RemovePlace(a[1..], k, w, b);
      assert (a + [(k, w)] + b)[1..] == a[1..] + [(k, w)] + b && a == [a[0]] + a[1..];
    }
  }

  lemma {:induction false} RemoveAbsent(a: Meta, k: string)
    requires k !in Keys(a)
    ensures Remove(a, k) == a
  {
    if a != [] { RemoveAbsent(a[1..], k); }
  }

  lemma {:induction false} PutValue(meta: Meta, k: string, v: string)
    ensures forall q :: ValueOf(Memlog.Put(meta, k, v), q) == if q == k then Some(v) else ValueOf(meta, q)
    ensures Keys(Memlog.Put(meta, k, v)) == Keys(meta) + if k in Keys(meta) then [] else [k]
  {
    if meta != [] && meta[0].0 != k { PutValue(meta[1..], k, v); }
  }

  lemma {:induction false} RemoveValue(meta: Meta, k: string)
    ensures forall q :: ValueOf(Remove(meta, k), q) == if q == k then None else ValueOf(meta, q)
  {
    if meta != [] { RemoveValue(meta[1..], k); }
  }

  lemma {:induction false} SnocValue(meta: Meta, k: string, v: string)
    requires k !in Keys(meta)
    ensures forall q :: ValueOf(meta + [(k, v)], q) == if q == k then Some(v) else ValueOf(meta, q)
    ensures Keys(meta + [(k, v)]) == Keys(meta) + [k]
  {
    if meta == [] {
      assert [(k, v)][1..] == [] && meta + [(k, v)] == [(k, v)];
    } else {
      assert (meta + [(k, v)])[1..] == meta[1..] + [(k, v)];
      SnocValue(meta[1..], k, v);
    }
  }

  lemma {:induction false} RemovedKeys(meta: Meta, k: string)
    ensures Keys(Remove(meta, k)) == Without(Keys(meta), k)
  {
    if meta != [] { RemovedKeys(meta[1..], k); }
  }

  function Without(ks: seq<string>, k: string): seq<string> {
    if ks == [] then [] else (if ks[0] == k then [] else [ks[0]]) + Without(ks[1..], k)
  }

  /** Stamping: `updated` comes last with the new stamp; the other keys keep their order and values. */
  lemma TouchedExact(meta: Meta, now: string)
    ensures Keys(Touched(meta, now)) == Without(Keys(meta), "updated") + ["updated"]
    ensures forall q :: ValueOf(Touched(meta, now), q) == if q == "updated" then Some(now) else ValueOf(meta, q)
  {
    RemoveKeys(meta, "updated");
    RemoveValue(meta, "updated");
    RemovedKeys(meta, "updated");
    SnocValue(Remove(meta, "updated"), "updated", now);
  }

  ghost predicate LastPair(pairs: Meta, i: int, k: string, v: string) {
    0 <= i < |pairs| && pairs[i] == (k, v) && forall j | i < j < |pairs| :: pairs[j].0 != k
  }

  /** `k` comes up before `q` does. */
  ghost predicate UpBefore(pairs: Meta, k: string, q: string) {
    exists i :: 0 <= i < |pairs| && pairs[i].0 == k && forall j | 0 <= j <= i :: pairs[j].0 != q
  }

  lemma LastPairSnoc(pairs: Meta, p: (string, string), k: string, v: string)
    ensures (exists i :: LastPair(pairs + [p], i, k, v)) <==>
            if p.0 == k then p.1 == v else exists i :: LastPair(pairs, i, k, v)
  {
    var more := pairs + [p];
    if p.0 == k && p.1 == v { assert LastPair(more, |pairs|, k, v); }
    if i :| LastPair(pairs, i, k, v) {
      if p.0 != k { assert LastPair(more, i, k, v); }
    }
    if i :| LastPair(more, i, k, v) {
      assert more[|pairs|] == p && forall j | 0 <= j < |pairs| :: more[j] == pairs[j];
      if p.0 != k { assert LastPair(pairs, i, k, v); }
    }
  }

  lemma UpBeforeMore(pairs: Meta, p: (string, string), k: string, q: string)
    requires UpBefore(pairs, k, q)
    ensures UpBefore(pairs + [p], k, q)
  {
    var i :| 0 <= i < |pairs| && pairs[i].0 == k && forall j | 0 <= j <= i :: pairs[j].0 != q;
    var more := pairs + [p];
    assert forall j | 0 <= j <= i :: more[j] == pairs[j];
  }

  lemma {:induction false} KeyedPair(pairs: Meta, k: string)
    ensures k in Keys(PutPairs(pairs)) <==> exists i :: 0 <= i < |pairs| && pairs[i].0 == k
  {
    if pairs != [] {
      var front, p := pairs[..|pairs| - 1], pairs[|pairs| - 1];
      KeyedPair(front, k);
      PutValue(PutPairs(front), p.0, p.1);
    }
  }

  lemma NewComesLast(front: Meta, p: (string, string), k: string)
    requires k in Keys(PutPairs(front)) && p.0 !in Keys(PutPairs(front))
    ensures UpBefore(front + [p], k, p.0)
  {
    KeyedPair(front, k);
    KeyedPair(front, p.0);
    var i :| 0 <= i < |front| && front[i].0 == k;
    var more := front + [p];
    assert more[i].0 == k && forall j | 0 <= j <= i :: more[j].0 != p.0;
  }

  /** A dict filled pair by pair: each key has the value of its last pair, and the keys stand in the order in
      which they first came up. */
  lemma {:induction false} DictExact(pairs: Meta)
    ensures forall k, v :: ValueOf(PutPairs(pairs), k) == Some(v) <==> exists i :: LastPair(pairs, i, k, v)
    ensures forall p, q | 0 <= p < q < |Keys(PutPairs(pairs))| ::
              UpBefore(pairs, Keys(PutPairs(pairs))[p], Keys(PutPairs(pairs))[q])
  {
    if pairs != [] {
      var front, last := pairs[..|pairs| - 1], pairs[|pairs| - 1];
      assert pairs == front + [last];
      DictExact(front);
      var before, after := Keys(PutPairs(front)), Keys(PutPairs(pairs));
      PutValue(PutPairs(front), last.0, last.1);
      forall k, v ensures ValueOf(PutPairs(pairs), k) == Some(v) <==> exists i :: LastPair(pairs, i, k, v) {
        LastPairSnoc(front, last, k, v);
      }
      forall p, q | 0 <= p < q < |after| ensures UpBefore(pairs, after[p], after[q]) {
        if q < |before| {
          UpBeforeMore(front, last, before[p], before[q]);
        } else {
          assert before[p] in before;
          NewComesLast(front, last, before[p]);
        }
      }
    }
  }

  // ---------------------------------------------------------------- reading a log

  /** A field line is split at its first colon; a line without one is passed over. */
  lemma FieldLineRead(meta: Meta, a: string, b: string)
    requires ':' !in a
    ensures AddField(meta, a + ":" + b) == Memlog.Put(meta, Strip(a), Strip(b))
    ensures AddField(meta, a) == meta
  {
    var line := a + ":" + b;
    FirstIndex(a, ':', b);
    assert line == a + [':'] + b && line[|a|] == ':' && line[..|a|] == a && line[|a| + 1..] == b;
  }

  /** The pairs of the lines that have a colon. */
  function FieldPairs(lines: seq<string>): Meta {
    if lines == [] then []
    else
      var l := lines[|lines| - 1];
      FieldPairs(lines[..|lines| - 1]) +
      if ':' in l then [(Strip(l[..IndexOf(l, ':')]), Strip(l[IndexOf(l, ':') + 1..]))] else []
  }

  lemma {:induction false} AddFieldsSnoc(meta: Meta, lines: seq<string>, l: string)
    ensures AddFields(meta, lines + [l]) == AddField(AddFields(meta, lines), l)
    decreases lines
  {
    if lines == [] {
      assert lines + [l] == [l] && [l][1..] == [];
    } else {
      assert (lines + [l])[1..] == lines[1..] + [l];
      AddFieldsSnoc(AddField(meta, lines[0]), lines[1..], l);
    }
  }

  /** The fields that are read are the dict of those pairs. */
  lemma {:induction false} FieldsRead(lines: seq<string>)
    ensures AddFields([], lines) == PutPairs(FieldPairs(lines))
  {
    if lines != [] {
      var front, l := lines[..|lines| - 1], lines[|lines| - 1];
      assert lines == front + [l];
      FieldsRead(front);
      AddFieldsSnoc([], front, l);
      var pairs := FieldPairs(front);
      if ':' in l {
        var p := (Strip(l[..IndexOf(l, ':')]), Strip(l[IndexOf(l, ':') + 1..]));
        assert (pairs + [p])[..|pairs|] == pairs;
      } else {
        assert pairs + [] == pairs;
      }
    }
  }

  lemma NextFenceIs(lines: seq<string>, i: nat, end: nat)
    requires i <= |lines|
    ensures NextFence(lines, i) == end <==>
            && i <= end <= |lines| && (forall j | i <= j < end :: lines[j] != "---")
            && (end < |lines| ==> lines[end] == "---")
    decreases |lines| - i
  {
    if i < |lines| && lines[i] != "---" { NextFenceIs(lines, i + 1, end); }
  }

  /** Reading a log: it needs a first line and a later line that are exactly the fence; the fields are the
      lines between the first two, and the body is the rest without leading newlines. */
  lemma SplitExact(text: string)
    ensures Memlog.Split(text) == Err(NoFrontmatter) <==> Lines(text) == [] || Lines(text)[0] != "---"
    ensures Memlog.Split(text) == Err(NotTerminated) <==>
            Lines(text) != [] && Lines(text)[0] == "---" && forall j | 0 < j < |Lines(text)| :: Lines(text)[j] != "---"
    ensures forall end | 0 < end < |Lines(text)| && Lines(text)[0] == "---" && Lines(text)[end] == "---" &&
                         (forall j | 0 < j < end :: Lines(text)[j] != "---") ::
              Memlog.Split(text) == Ok(Log(PutPairs(FieldPairs(Lines(text)[1..end])),
                                           TrimLeft(Text.Join(Lines(text)[end + 1..], '\n'))))
  {
    var lines := Lines(text);
    if lines != [] && lines[0] == "---" {
      var end := NextFence(lines, 1);
      NextFenceIs(lines, 1, end);
      forall e | 0 < e < |lines| && lines[e] == "---" && (forall j | 0 < j < e :: lines[j] != "---") ensures e == end {}
      FieldsRead(lines[1..end]);
    }
  }

  // ---------------------------------------------------------------- printing a log

  /** The lines of the fields: key, colon, space, and the value on one line. */
  lemma {:induction false} FieldText(meta: Meta)
    ensures |FieldLines(meta)| == |meta|
    ensures forall i | 0 <= i < |meta| ::
              FieldLines(meta)[i] == meta[i].0 + ": " + Text.Join(Lines(meta[i].1), ' ')
  {
    if meta != [] { FieldText(meta[1..]); }
  }

  /** The printed log: a fence, the fields, a fence, an empty line, and the body with one final newline. */
  lemma LogPrinted(log: Log)
    requires log.meta != []
    ensures Render(log) == "---\n" + Unlines(FieldLines(log.meta)) + "---\n" + "\n" + TrimRight(log.body) + "\n"
  {
    UnlinesJoin(FieldLines(log.meta));
    FieldText(log.meta);
  }
}
