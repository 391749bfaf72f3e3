/** The glob compiler: a chain of string replacements, the regular expression it writes, and what that
    expression matches. */
module GlobRegex {
  import opened Wrappers

  /** The placeholder of the replacement chain. */
  const SECTION := '\U{A7}'
  const PLACEHOLDER := [SECTION, SECTION]

  predicate IsSyntax(c: char) {
    c in ".+^${}()|[]\\"
  }

  function EscapeChar(c: char): string {
    if IsSyntax(c) then ['\\', c] else [c]
  }

  function Escape(s: string): string {
    if s == "" then "" else EscapeChar(s[0]) + Escape(s[1..])
  }

  /** `replace` with a global literal pattern: every leftmost, non-overlapping occurrence. */
  function ReplaceAll(s: string, pat: string, rep: string): string
    requires pat != ""
  {
    if s == "" then ""
    else if pat <= s then rep + ReplaceAll(s[|pat|..], pat, rep)
    else [s[0]] + ReplaceAll(s[1..], pat, rep)
  }

  /** The chain of replacements, between the anchors. */
  function Chain(glob: string): string {
    var escaped := Escape(glob);
    var deepSlash := ReplaceAll(escaped, "**/", PLACEHOLDER);
    var deep := ReplaceAll(deepSlash, "**", PLACEHOLDER);
    var star := ReplaceAll(deep, "*", "[^/]*");
    var any := ReplaceAll(star, "?", "[^/]");
    ReplaceAll(any, PLACEHOLDER, "(?:.*/)?")
  }

  // ---------------------------------------------------------------- token by token

  datatype Token = Lit(c: char) | Star | Any | Deep

  /** A glob read left to right. `**` takes a slash that follows it; of three stars and a slash the
      first stands alone. */
  function Tokens(s: string): seq<Token> {
    if s == "" then []
    else if "**/" <= s then [Deep] + Tokens(s[3..])
    else if "***/" <= s then [Star] + Tokens(s[1..])
    else if "**" <= s then [Deep] + Tokens(s[2..])
    else if s[0] == '*' then [Star] + Tokens(s[1..])
    else if s[0] == '?' then [Any] + Tokens(s[1..])
    else [Lit(s[0])] + Tokens(s[1..])
  }

  function Shown(t: Token): string {
    match t
    case Lit(c) => EscapeChar(c)
    case Star => "[^/]*"
    case Any => "[^/]"
    case Deep => "(?:.*/)?"
  }

  function Translate(ts: seq<Token>): string {
    if ts == [] then "" else Shown(ts[0]) + Translate(ts[1..])
  }

  /** A literal section sign does not stand right before another one or before a `**`. */
  predicate Safe(ts: seq<Token>) {
    forall i | 0 <= i < |ts| - 1 :: ts[i] == Lit(SECTION) ==> ts[i + 1] != Lit(SECTION) && ts[i + 1] != Deep
  }

  // ---------------------------------------------------------------- the passes

  lemma Miss(c: char, s: string, pat: string, rep: string)
    requires pat != "" && !(pat <= [c] + s)
    ensures ReplaceAll([c] + s, pat, rep) == [c] + ReplaceAll(s, pat, rep)
  {
    assert ([c] + s)[1..] == s;
  }

  lemma Hit(s: string, pat: string, rep: string)
    requires pat != ""
    ensures ReplaceAll(pat + s, pat, rep) == rep + ReplaceAll(s, pat, rep)
  {
    assert (pat + s)[|pat|..] == s;
  }

  /** A character other than the pattern's first passes through. */
  lemma Other(c: char, s: string, pat: string, rep: string)
    requires pat != "" && pat[0] != c
    ensures ReplaceAll([c] + s, pat, rep) == [c] + ReplaceAll(s, pat, rep)
  {
    assert ([c] + s)[0] == c;
    Miss(c, s, pat, rep);
  }

  /** The string after the escape and the two `**` replacements. */
  function Deepened(s: string): string {
    ReplaceAll(ReplaceAll(Escape(s), "**/", PLACEHOLDER), "**", PLACEHOLDER)
  }

  function Slashed(s: string): string {
    ReplaceAll(Escape(s), "**/", PLACEHOLDER)
  }

  /** A token after the escape and the two `**` replacements. */
  function Piece(t: Token): string {
    match t
    case Lit(c) => EscapeChar(c)
    case Star => "*"
    case Any => "?"
    case Deep => PLACEHOLDER
  }

  function Pieces(ts: seq<Token>): string {
    if ts == [] then "" else Piece(ts[0]) + Pieces(ts[1..])
  }

  lemma EscapeCons(c: char, s: string)
    ensures Escape([c] + s) == EscapeChar(c) + Escape(s)
  {
    assert ([c] + s)[1..] == s;
  }

  /** Escaping shows its first character, or a backslash. */
  lemma EscapeHead(s: string)
    requires s != ""
    ensures Escape(s) != "" && (Escape(s)[0] == s[0] || Escape(s)[0] == '\\')
    ensures s[0] in "*/" <==> Escape(s)[0] in "*/"
  {
  }

  lemma SlashedHead(s: string)
    requires Slashed(s) != "" && Slashed(s)[0] == '*'
    ensures s != "" && s[0] == '*'
  {
    EscapeHead(s);
  }

  /** One literal or `?` at the front goes through both passes unchanged. */
  lemma DeepenedLit(c: char, s: string)
    requires c != '*'
    ensures Deepened([c] + s) == EscapeChar(c) + Deepened(s)
  {
    EscapeCons(c, s);
    var e, d := Escape(s), Slashed(s);
    if IsSyntax(c) {
      assert ['\\', c] + e == ['\\'] + ([c] + e);
      Other(c, e, "**/", PLACEHOLDER);
      Other('\\', [c] + e, "**/", PLACEHOLDER);
      Other(c, d, "**", PLACEHOLDER);
      Other('\\', [c] + d, "**", PLACEHOLDER);
      assert ['\\'] + ([c] + Deepened(s)) == ['\\', c] + Deepened(s);
    } else {
      Other(c, e, "**/", PLACEHOLDER);
      Other(c, d, "**", PLACEHOLDER);
    }
  }

  lemma EscapeSlash(s: string)
    ensures Escape("**/" + s) == "**/" + Escape(s)
  {
    EscapeCons('/', s);
    EscapeCons('*', ['/'] + s);
    EscapeCons('*', ['*'] + (['/'] + s));
    assert ['*'] + (['*'] + (['/'] + s)) == "**/" + s;
    assert ['*'] + (['*'] + (['/'] + Escape(s))) == "**/" + Escape(s);
  }

  lemma PlaceholderKept(d: string)
    ensures ReplaceAll(PLACEHOLDER + d, "**", PLACEHOLDER) == PLACEHOLDER + ReplaceAll(d, "**", PLACEHOLDER)
  {
    assert PLACEHOLDER + d == [SECTION] + ([SECTION] + d);
    Other(SECTION, d, "**", PLACEHOLDER);
    Other(SECTION, [SECTION] + d, "**", PLACEHOLDER);
    var r := ReplaceAll(d, "**", PLACEHOLDER);
    assert [SECTION] + ([SECTION] + r) == PLACEHOLDER + r;
  }

  lemma DeepenedSlash(s: string)
    ensures Slashed("**/" + s) == PLACEHOLDER + Slashed(s)
    ensures Deepened("**/" + s) == PLACEHOLDER + Deepened(s)
  {
    EscapeSlash(s);
    Hit(Escape(s), "**/", PLACEHOLDER);
    PlaceholderKept(Slashed(s));
  }

  /** A star that neither pass takes. */
  lemma DeepenedStar(s: string)
    requires !("**/" <= ['*'] + s) && (s == "" || s[0] != '*' || "**/" <= s)
    ensures Deepened(['*'] + s) == ['*'] + Deepened(s)
  {
    EscapeCons('*', s);
    var e, d := Escape(s), Slashed(s);
    if s != "" && s[0] == '*' {
      var r := s[3..];
      assert s == "**/" + r;
      DeepenedSlash(r);
      EscapeSlash(r);
      assert (['*'] + e)[2] == '*';
      assert d[0] == SECTION;
    } else {
      if s != "" {
        EscapeHead(s);
        assert (['*'] + e)[1] == e[0];
      }
      if d != "" && d[0] == '*' { SlashedHead(s); }
    }
    Miss('*', e, "**/", PLACEHOLDER);
    assert d != "" ==> (['*'] + d)[1] == d[0];
    Miss('*', d, "**", PLACEHOLDER);
  }

  /** Escaping neither makes nor hides a leading slash, or star and slash. */
  lemma EscapedStarSlash(s: string)
    ensures "/" <= Escape(s) ==> "/" <= s
    ensures "*/" <= Escape(s) ==> "*/" <= s
  {
    if s != "" {
      EscapeHead(s);
      if s[0] == '*' {
        EscapeCons('*', s[1..]);
        assert s == ['*'] + s[1..];
        if s[1..] != "" { EscapeHead(s[1..]); }
      }
    }
  }

  /** Two stars not followed by a slash, nor by a star and a slash. */
  lemma DeepenedDouble(s: string)
    requires !("/" <= s) && !("*/" <= s)
    ensures Deepened("**" + s) == PLACEHOLDER + Deepened(s)
  {
    EscapeCons('*', s);
    EscapeCons('*', ['*'] + s);
    assert ['*'] + (['*'] + s) == "**" + s;
    var e, d := Escape(s), Slashed(s);
    EscapedStarSlash(s);
    assert e != "" ==> (['*'] + e)[1] == e[0] && (['*'] + (['*'] + e))[2] == e[0];
    assert |e| > 1 ==> (['*'] + e)[2] == e[1];
    Miss('*', e, "**/", PLACEHOLDER);
    Miss('*', ['*'] + e, "**/", PLACEHOLDER);
    assert ['*'] + (['*'] + d) == "**" + d;
    Hit(d, "**", PLACEHOLDER);
  }

  lemma PiecesCons(t: Token, ts: seq<Token>)
    ensures Pieces([t] + ts) == Piece(t) + Pieces(ts)
  {
    assert ([t] + ts)[1..] == ts;
  }

  lemma BareDouble(s: string)
    requires "**" <= s && !("**/" <= s) && !("***/" <= s)
    ensures Deepened(s) == PLACEHOLDER + Deepened(s[2..])
    ensures Pieces(Tokens(s)) == PLACEHOLDER + Pieces(Tokens(s[2..]))
  {
    assert s == "**" + s[2..];
    assert |s| > 2 ==> s[2..][0] == s[2];
    assert |s| > 3 ==> s[2..][1] == s[3];
    DeepenedDouble(s[2..]);
    PiecesCons(Deep, Tokens(s[2..]));
  }

  lemma {:induction false} DeepenedIsPieces(s: string)
    ensures Deepened(s) == Pieces(Tokens(s))
    decreases |s|
  {
    if s != "" {
      if "**/" <= s {
        DeepenedIsPieces(s[3..]);
        DeepenedSlash(s[3..]);
        PiecesCons(Deep, Tokens(s[3..]));
        assert s == "**/" + s[3..];
      } else if "***/" <= s {
        DeepenedIsPieces(s[1..]);
        assert s == ['*'] + s[1..] && "**/" <= s[1..];
        DeepenedStar(s[1..]);
        PiecesCons(Star, Tokens(s[1..]));
      } else if "**" <= s {
        DeepenedIsPieces(s[2..]);
        BareDouble(s);
      } else {
        DeepenedIsPieces(s[1..]);
        assert s == [s[0]] + s[1..];
        if s[0] == '*' {
          assert |s| > 1 ==> s[1..][0] == s[1];
          DeepenedStar(s[1..]);
          PiecesCons(Star, Tokens(s[1..]));
        } else {
          DeepenedLit(s[0], s[1..]);
          PiecesCons(if s[0] == '?' then Any else Lit(s[0]), Tokens(s[1..]));
        }
      }
    }
  }

  // ---------------------------------------------------------------- the last three replacements

  lemma {:induction false} ReplaceCharConcat(x: string, y: string, c: char, rep: string)
    ensures ReplaceAll(x + y, [c], rep) == ReplaceAll(x, [c], rep) + ReplaceAll(y, [c], rep)
  {
    if x == "" {
      assert x + y == y;
    } else {
      ReplaceCharConcat(x[1..], y, c, rep);
      assert (x + y)[1..] == x[1..] + y && (x + y)[0] == x[0];
      assert [c] <= x + y <==> x[0] == c;
      assert [c] <= x <==> x[0] == c;
    }
  }

  lemma {:induction false} ReplaceCharAbsent(x: string, c: char, rep: string)
    requires c !in x
    ensures ReplaceAll(x, [c], rep) == x
  {
    if x != "" {
      ReplaceCharAbsent(x[1..], c, rep);
      assert [x[0]] + x[1..] == x;
    }
  }

  /** A token's text when only the placeholders are left to replace. */
  function Almost(t: Token): string {
    if t == Deep then PLACEHOLDER else Shown(t)
  }

  function AlmostAll(ts: seq<Token>): string {
    if ts == [] then "" else Almost(ts[0]) + AlmostAll(ts[1..])
  }

  predicate PlainLits(ts: seq<Token>) {
    forall t | t in ts && t.Lit? :: t.c != '*' && t.c != '?'
  }

  lemma PieceReplaced(t: Token)
    requires t.Lit? ==> t.c != '*' && t.c != '?'
    ensures ReplaceAll(ReplaceAll(Piece(t), "*", "[^/]*"), "?", "[^/]") == Almost(t)
  {
    match t
    case Star =>
      assert "*" + "" == "*";
      Hit("", "*", "[^/]*");
      assert "[^/]*" + "" == "[^/]*";
      ReplaceCharAbsent("[^/]*", '?', "[^/]");
    case Any =>
      ReplaceCharAbsent("?", '*', "[^/]*");
      assert "?" + "" == "?";
      Hit("", "?", "[^/]");
      assert "[^/]" + "" == "[^/]";
    case _ =>
      ReplaceCharAbsent(Piece(t), '*', "[^/]*");
      ReplaceCharAbsent(Piece(t), '?', "[^/]");
  }

  lemma {:induction false} PiecesReplaced(ts: seq<Token>)
    requires PlainLits(ts)
    ensures ReplaceAll(ReplaceAll(Pieces(ts), "*", "[^/]*"), "?", "[^/]") == AlmostAll(ts)
  {
    if ts != [] {
      var rest := Pieces(ts[1..]);
      assert ts[0] in ts;
      PiecesReplaced(ts[1..]);
      PieceReplaced(ts[0]);
      ReplaceCharConcat(Piece(ts[0]), rest, '*', "[^/]*");
      ReplaceCharConcat(ReplaceAll(Piece(ts[0]), "*", "[^/]*"), ReplaceAll(rest, "*", "[^/]*"), '?', "[^/]");
    }
  }

  lemma {:induction false} TokensPlain(s: string)
    ensures PlainLits(Tokens(s))
    decreases |s|
  {
    if s != "" {
      TokensPlain(s[1..]);
      if |s| >= 2 { TokensPlain(s[2..]); }
      if |s| >= 3 { TokensPlain(s[3..]); }
    }
  }

  /** Text without the section sign passes the last replacement. */
  lemma {:induction false} PlaceholderPasses(x: string, y: string)
    requires SECTION !in x
    ensures ReplaceAll(x + y, PLACEHOLDER, "(?:.*/)?") == x + ReplaceAll(y, PLACEHOLDER, "(?:.*/)?")
  {
    hide ReplaceAll;
    if x == "" {
      assert x + y == y;
    } else {
      PlaceholderPasses(x[1..], y);
      Other(x[0], x[1..] + y, PLACEHOLDER, "(?:.*/)?");
      assert [x[0]] + (x[1..] + y) == x + y;
    }
  }

  lemma AlmostHead(ts: seq<Token>)
    ensures (AlmostAll(ts) != "" && AlmostAll(ts)[0] == SECTION) <==>
            (ts != [] && (ts[0] == Lit(SECTION) || ts[0] == Deep))
  {
    if ts != [] {
      match ts[0]
      case Lit(c) => assert EscapeChar(c)[0] == (if IsSyntax(c) then '\\' else c);
      case _ =>
    }
  }

  lemma SafeTail(ts: seq<Token>)
    requires ts != []
    ensures Safe(ts) <==>
            Safe(ts[1..]) && (ts[0] == Lit(SECTION) && |ts| > 1 ==> ts[1] != Lit(SECTION) && ts[1] != Deep)
  {
    assert forall i | 0 < i < |ts| :: ts[i] == ts[1..][i - 1];
    if Safe(ts[1..]) && (ts[0] == Lit(SECTION) && |ts| > 1 ==> ts[1] != Lit(SECTION) && ts[1] != Deep) {
      forall i | 0 <= i < |ts| - 1 && ts[i] == Lit(SECTION) ensures ts[i + 1] != Lit(SECTION) && ts[i + 1] != Deep {
        if i > 0 { assert ts[1..][i - 1] == ts[i] && ts[1..][i] == ts[i + 1]; }
      }
    }
    if Safe(ts) {
      forall i | 0 <= i < |ts[1..]| - 1 && ts[1..][i] == Lit(SECTION)
        ensures ts[1..][i + 1] != Lit(SECTION) && ts[1..][i + 1] != Deep
      {
        assert ts[i + 1] == ts[1..][i] && ts[i + 2] == ts[1..][i + 1];
      }
    }
  }

  lemma SamePrefix(p: string, a: string, b: string)
    ensures p + a == p + b <==> a == b
  {
    if p + a == p + b { assert a == (p + a)[|p|..] == (p + b)[|p|..] == b; }
  }

  /** The last replacement. */
  function Restored(s: string): string {
    ReplaceAll(s, PLACEHOLDER, "(?:.*/)?")
  }

  lemma LastDeep(rest: string, tail: string)
    ensures Restored(PLACEHOLDER + rest) == "(?:.*/)?" + tail <==> Restored(rest) == tail
  {
    Hit(rest, PLACEHOLDER, "(?:.*/)?");
    SamePrefix("(?:.*/)?", Restored(rest), tail);
  }

  /** A literal section sign survives unless the next character pairs with it. */
  lemma LastSection(rest: string, tail: string)
    ensures Restored([SECTION] + rest) == [SECTION] + tail <==>
            (rest == "" || rest[0] != SECTION) && Restored(rest) == tail
  {
    if rest != "" && rest[0] == SECTION {
      assert [SECTION] + rest == PLACEHOLDER + rest[1..];
      Hit(rest[1..], PLACEHOLDER, "(?:.*/)?");
      assert Restored([SECTION] + rest)[0] == '(';
    } else {
      assert rest != "" ==> ([SECTION] + rest)[1] == rest[0];
      Miss(SECTION, rest, PLACEHOLDER, "(?:.*/)?");
      SamePrefix([SECTION], Restored(rest), tail);
    }
  }

  lemma LastOther(t: Token, rest: string, tail: string)
    requires t != Deep && t != Lit(SECTION)
    ensures Restored(Almost(t) + rest) == Almost(t) + tail <==> Restored(rest) == tail
  {
    PlaceholderPasses(Almost(t), rest);
    SamePrefix(Almost(t), Restored(rest), tail);
  }

  lemma LastStep(t: Token, ts: seq<Token>)
    ensures Restored(AlmostAll([t] + ts)) == Translate([t] + ts) <==>
            Restored(AlmostAll(ts)) == Translate(ts) &&
            (t == Lit(SECTION) && ts != [] ==> ts[0] != Lit(SECTION) && ts[0] != Deep)
  {
    assert ([t] + ts)[1..] == ts;
    var rest, tail := AlmostAll(ts), Translate(ts);
    if t == Deep {
      LastDeep(rest, tail);
    } else if t == Lit(SECTION) {
      AlmostHead(ts);
      LastSection(rest, tail);
    } else {
      LastOther(t, rest, tail);
    }
  }

  lemma {:induction false} LastReplacement(ts: seq<Token>)
    ensures Restored(AlmostAll(ts)) == Translate(ts) <==> Safe(ts)
  {
    if ts != [] {
      LastReplacement(ts[1..]);
      LastStep(ts[0], ts[1..]);
      assert [ts[0]] + ts[1..] == ts;
      SafeTail(ts);
    }
  }

  /** The chain of replacements is the token-by-token translation exactly for the safe globs; so it is
      for every glob without a section sign. */
  lemma ChainIsTranslation(glob: string)
    ensures Chain(glob) == Translate(Tokens(glob)) <==> Safe(Tokens(glob))
    ensures SECTION !in glob ==> Safe(Tokens(glob))
  {
    DeepenedIsPieces(glob);
    TokensPlain(glob);
    PiecesReplaced(Tokens(glob));
    LastReplacement(Tokens(glob));
    if SECTION !in glob { NoSection(glob); }
  }

  lemma {:induction false} NoSection(s: string)
    requires SECTION !in s
    ensures Lit(SECTION) !in Tokens(s)
    decreases |s|
  {
    if s != "" {
      NoSection(s[1..]);
      if |s| >= 2 { NoSection(s[2..]); }
      if |s| >= 3 { NoSection(s[3..]); }
    }
  }

  // ---------------------------------------------------------------- what the expression matches

  /** The regular expressions of the fragment (section 22.2 of ECMA-262). */
  datatype Re = Chr(c: char) | NotSlash | Dot | Many(r: Re) | Maybe(rs: seq<Re>)

  predicate IsLineTerminator(c: char) {
    c == '\n' || c == '\r' || c as int == 0x2028 || c as int == 0x2029
  }

  predicate MatchesOne(r: Re, s: string)
    decreases r, |s|, 0
  {
    match r
    case Chr(c) => s == [c]
    case NotSlash => |s| == 1 && s[0] != '/'
    case Dot => |s| == 1 && !IsLineTerminator(s[0])
    case Many(b) => s == "" || exists k | 0 < k <= |s| :: MatchesOne(b, s[..k]) && MatchesOne(r, s[k..])
    case Maybe(rs) => s == "" || Matches(rs, s)
  }

  /** The whole of `s` matches the expressions in sequence, as between the anchors. */
  predicate Matches(rs: seq<Re>, s: string)
    decreases rs, |s|, 1
  {
    if rs == [] then s == ""
    else exists k | 0 <= k <= |s| :: MatchesOne(rs[0], s[..k]) && Matches(rs[1..], s[k..])
  }

  /** The characters with a meaning of their own in an expression; a backslash takes it away. */
  predicate IsSyntaxCharacter(c: char) {
    c in "^$\\.*+?()[]{}|"
  }

  /** Reading the text of an expression of the fragment. */
  function ParseRe(s: string): Option<seq<Re>> {
    if s == "" then Some([])
    else if "[^/]*" <= s then Then(Many(NotSlash), ParseRe(s[5..]))
    else if "[^/]" <= s then Then(NotSlash, ParseRe(s[4..]))
    else if "(?:.*/)?" <= s then Then(Maybe([Many(Dot), Chr('/')]), ParseRe(s[8..]))
    else if s[0] == '\\' && |s| > 1 && IsSyntaxCharacter(s[1]) then Then(Chr(s[1]), ParseRe(s[2..]))
    else if !IsSyntaxCharacter(s[0]) then Then(Chr(s[0]), ParseRe(s[1..]))
    else None
  }

  function Then(r: Re, rest: Option<seq<Re>>): Option<seq<Re>> {
    match rest case Some(rs) => Some([r] + rs) case None => None
  }

  function Compiled(t: Token): Re {
    match t
    case Lit(c) => Chr(c)
    case Star => Many(NotSlash)
    case Any => NotSlash
    case Deep => Maybe([Many(Dot), Chr('/')])
  }

  function Compile(ts: seq<Token>): seq<Re> {
    if ts == [] then [] else [Compiled(ts[0])] + Compile(ts[1..])
  }

  lemma TranslateHead(ts: seq<Token>)
    requires PlainLits(ts)
    ensures Translate(ts) != "" ==> Translate(ts)[0] != '*'
  {
    if ts != [] { assert ts[0] in ts; }
  }

  /** The text of a translation reads back as the compiled tokens. */
  lemma {:induction false} ParseTranslation(ts: seq<Token>)
    requires PlainLits(ts)
    ensures ParseRe(Translate(ts)) == Some(Compile(ts))
  {
    if ts != [] {
      var rest := Translate(ts[1..]);
      var s := Shown(ts[0]) + rest;
      assert ts[0] in ts;
      ParseTranslation(ts[1..]);
      match ts[0]
      case Lit(c) =>
        assert s[0] == if IsSyntax(c) then '\\' else c;
        assert s[|EscapeChar(c)|..] == rest;
      case Star => assert s[5..] == rest;
      case Any =>
        TranslateHead(ts[1..]);
        assert rest != "" ==> s[4] == rest[0];
        assert s[4..] == rest;
      case Deep => assert s[8..] == rest && s[0] == '(';
    }
  }

  // ---------------------------------------------------------------- a direct glob matcher

  predicate OneSegment(s: string) {
    '/' !in s
  }

  predicate OneLine(s: string) {
    forall c | c in s :: !IsLineTerminator(c)
  }

  /** `*` stays within a segment, `?` is one character of it, and `**` with or without its slash is
      nothing, or anything on one line that ends in a slash. */
  predicate GlobMatch(ts: seq<Token>, s: string) {
    if ts == [] then s == ""
    else
      match ts[0]
      case Lit(c) => s != "" && s[0] == c && GlobMatch(ts[1..], s[1..])
      case Any => s != "" && s[0] != '/' && GlobMatch(ts[1..], s[1..])
      case Star => exists k | 0 <= k <= |s| :: OneSegment(s[..k]) && GlobMatch(ts[1..], s[k..])
      case Deep =>
        GlobMatch(ts[1..], s) ||
        exists k | 0 <= k < |s| :: s[k] == '/' && OneLine(s[..k]) && GlobMatch(ts[1..], s[k + 1..])
  }

  lemma {:induction false} ManyNotSlash(s: string)
    ensures MatchesOne(Many(NotSlash), s) <==> OneSegment(s)
    decreases |s|
  {
    if s != "" {
      forall k | 0 < k <= |s| ensures MatchesOne(NotSlash, s[..k]) <==> k == 1 && s[0] != '/' {}
      ManyNotSlash(s[1..]);
      assert s == [s[0]] + s[1..] && s[..1] == [s[0]];
      assert MatchesOne(Many(NotSlash), s) <==> s[0] != '/' && MatchesOne(Many(NotSlash), s[1..]) by {
        if s[0] != '/' && MatchesOne(Many(NotSlash), s[1..]) { assert MatchesOne(NotSlash, s[..1]); }
      }
    }
  }

  lemma {:induction false} ManyDot(s: string)
    ensures MatchesOne(Many(Dot), s) <==> OneLine(s)
    decreases |s|
  {
    if s != "" {
      forall k | 0 < k <= |s| ensures MatchesOne(Dot, s[..k]) <==> k == 1 && !IsLineTerminator(s[0]) {}
      ManyDot(s[1..]);
      assert s == [s[0]] + s[1..] && s[..1] == [s[0]];
      assert MatchesOne(Many(Dot), s) <==> !IsLineTerminator(s[0]) && MatchesOne(Many(Dot), s[1..]) by {
        if !IsLineTerminator(s[0]) && MatchesOne(Many(Dot), s[1..]) { assert MatchesOne(Dot, s[..1]); }
      }
    }
  }

  lemma ChrOnly(c: char, s: string)
    ensures Matches([Chr(c)], s) <==> s == [c]
  {
    assert [Chr(c)][1..] == [];
    if s == [c] { assert s[..1] == [c] && s[1..] == "" && MatchesOne(Chr(c), s[..1]); }
    if Matches([Chr(c)], s) {
      var k :| 0 <= k <= |s| && MatchesOne(Chr(c), s[..k]) && Matches([], s[k..]);
      assert s == s[..k] + s[k..];
    }
  }

  lemma DeepOnly(s: string)
    ensures MatchesOne(Maybe([Many(Dot), Chr('/')]), s) <==> s == "" || (s[|s| - 1] == '/' && OneLine(s[..|s| - 1]))
  {
    var rs := [Many(Dot), Chr('/')];
    assert rs[1..] == [Chr('/')];
    forall k | 0 <= k <= |s| ensures MatchesOne(Many(Dot), s[..k]) <==> OneLine(s[..k]) { ManyDot(s[..k]); }
    forall k | 0 <= k <= |s| ensures Matches([Chr('/')], s[k..]) <==> k == |s| - 1 && s[k] == '/' {
      ChrOnly('/', s[k..]);
    }
    if s != "" && s[|s| - 1] == '/' && OneLine(s[..|s| - 1]) {
      assert MatchesOne(rs[0], s[..|s| - 1]) && Matches(rs[1..], s[|s| - 1..]);
    }
  }

  // The optional prefix of a deep glob takes nothing, or a line up to one of its slashes.
  lemma {:induction false} DeepFirst(rest: seq<Re>, s: string)
    ensures Matches([Compiled(Deep)] + rest, s) <==>
            Matches(rest, s) || exists k | 0 <= k < |s| :: s[k] == '/' && OneLine(s[..k]) && Matches(rest, s[k + 1..])
  {
    var r := Compiled(Deep);
    assert ([r] + rest)[1..] == rest && s[0..] == s;
    if Matches(rest, s) {
      assert MatchesOne(r, s[..0]) && Matches(rest, s[0..]);
    }
    forall k | 0 <= k < |s| && s[k] == '/' && OneLine(s[..k]) && Matches(rest, s[k + 1..])
      ensures Matches([r] + rest, s)
    {
      DeepOnly(s[..k + 1]);
      assert s[..k + 1][..k] == s[..k];
      assert MatchesOne(r, s[..k + 1]);
    }
    if Matches([r] + rest, s) {
      var k :| 0 <= k <= |s| && MatchesOne(r, s[..k]) && Matches(rest, s[k..]);
      DeepOnly(s[..k]);
      if k > 0 {
        assert s[..k][..k - 1] == s[..k - 1];
        assert s[k - 1] == '/' && OneLine(s[..k - 1]) && Matches(rest, s[k - 1 + 1..]);
      }
    }
  }

  /** The compiled expression matches a text exactly when the direct matcher does. */
  lemma {:induction false} CompiledMatches(ts: seq<Token>, s: string)
    ensures Matches(Compile(ts), s) <==> GlobMatch(ts, s)
    decreases ts
  {
    if ts != [] {
      var r, rest := Compiled(ts[0]), Compile(ts[1..]);
      assert Compile(ts)[0] == r && Compile(ts)[1..] == rest;
      forall k | 0 <= k <= |s| ensures Matches(rest, s[k..]) <==> GlobMatch(ts[1..], s[k..]) {
        CompiledMatches(ts[1..], s[k..]);
      }
      match ts[0]
      case Lit(c) =>
        forall k | 0 <= k <= |s| ensures MatchesOne(r, s[..k]) <==> k == 1 && s[0] == c {}
        if s != "" { assert s[..1] == [s[0]]; }
      case Any =>
        forall k | 0 <= k <= |s| ensures MatchesOne(r, s[..k]) <==> k == 1 && s[0] != '/' {}
      case Star =>
        forall k | 0 <= k <= |s| ensures MatchesOne(r, s[..k]) <==> OneSegment(s[..k]) { ManyNotSlash(s[..k]); }
      case Deep =>
        DeepFirst(rest, s);
        assert s[0..] == s;
    }
  }

  /** `re.test(path)` for the expression the chain writes. */
  predicate Tests(glob: string, path: string) {
    ParseRe(Chain(glob)).Some? && Matches(ParseRe(Chain(glob)).value, path)
  }

  /** Outside the safe globs the two part: two literal section signs become an optional prefix. */
  lemma SectionPairIsDeep()
    ensures Tests("\U{A7}\U{A7}", "") && !GlobMatch(Tokens("\U{A7}\U{A7}"), "")
  {
    assert PLACEHOLDER == "\U{A7}\U{A7}";
    var ts := [Lit(SECTION), Lit(SECTION)];
    assert ts[1..] == [Lit(SECTION)] && [Lit(SECTION)][1..] == [];
    assert PLACEHOLDER[1..] == [SECTION] && [SECTION][1..] == "";
    assert Tokens([SECTION]) == [Lit(SECTION)];
    assert Tokens(PLACEHOLDER) == ts;
    DeepenedIsPieces(PLACEHOLDER);
    PiecesReplaced(ts);
    assert AlmostAll([Lit(SECTION)]) == [SECTION];
    assert AlmostAll(ts) == PLACEHOLDER + "";
    Hit("", PLACEHOLDER, "(?:.*/)?");
    assert [Deep][1..] == [];
    assert Translate([Deep]) == "(?:.*/)?" + "";
    ParseTranslation([Deep]);
    CompiledMatches([Deep], "");
  }

  /** For every safe glob, the written expression tests a path true exactly when the glob matches it. */
  lemma TestsExact(glob: string, path: string)
    requires Safe(Tokens(glob))
    ensures Tests(glob, path) <==> GlobMatch(Tokens(glob), path)
  {
    ChainIsTranslation(glob);
    TokensPlain(glob);
    ParseTranslation(Tokens(glob));
    CompiledMatches(Tokens(glob), path);
  }
}
